/**
What `ScanTokens` calls back: the words of a comma-separated list in order, until the
callback stops it, and on any input nothing but token words.
*/
module TokenLists {
  import opened Octets
  import opened Lexer
  import opened Options
  import opened RoundTrip

  function CommaList(words: seq<Bytes>): Bytes {
    if words == [] then [] else if |words| == 1 then words[0] else words[0] + ([COMMA] + CommaList(words[1..]))
  }

  /** The words handed over one by one, until one is answered by false. */
  function Handed<S>(words: seq<Bytes>, s: S, it: TokenCallback<S>): S
    decreases |words|
  {
    if words == [] then s
    else
      var (t, go) := it(s, words[0]);
      if go then Handed(words[1..], t, it) else t
  }

  /** A list of token words is handed over in order, with true unless it is empty. */
  lemma {:induction false} ListIsHandedOver<S>(words: seq<Bytes>, seen: bool, s: S, it: TokenCallback<S>)
    requires forall i :: 0 <= i < |words| ==> IsTokenWord(words[i])
    ensures Tokens(CommaList(words), seen, s, it) == (Handed(words, s, it), seen || words != [])
    decreases |words|
  {
    hide LexNext;
    LexNothing();
    if words != [] {
      var word, more := words[0], words[1..];
      var behind := if more == [] then [] else [COMMA] + CommaList(more);
      assert CommaList(words) == word + behind by {
        assert word + [] == word;
      }
      LexToken(word, behind);
      assert (word + behind)[|word|..] == behind;
      var (t, go) := it(s, word);
      if go {
        if more != [] {
          LexSeparator(COMMA, CommaList(more));
          assert behind[1..] == CommaList(more);
          assert Tokens(behind, true, t, it) == Tokens(CommaList(more), true, t, it);
        }
        ListIsHandedOver(more, true, t, it);
      }
    }
  }

  lemma {:induction false} LexNothing()
    ensures LexNext([]) == Lexed(false, false, Undef, [], 0)
  {
  }

  function Gather(words: seq<Bytes>, word: Bytes): (seq<Bytes>, bool) { (words + [word], true) }

  lemma {:induction false} GatheredAll(words: seq<Bytes>, before: seq<Bytes>)
    ensures Handed(words, before, Gather) == before + words
    decreases |words|
  {
    if words == [] {
      assert before + [] == before;
    } else {
      GatheredAll(words[1..], before + [words[0]]);
      assert before + [words[0]] + words[1..] == before + words;
    }
  }

  /** Scanning the list gives it back. */
  lemma {:induction false} TokenRoundTrip(words: seq<Bytes>)
    requires forall i :: 0 <= i < |words| ==> IsTokenWord(words[i])
    ensures Tokens(CommaList(words), false, [], Gather) == (words, words != [])
  {
    ListIsHandedOver(words, false, [], Gather);
    GatheredAll(words, []);
    assert [] + words == words;
  }

  /** On any input, only token words are called back, and true means there was one. */
  lemma {:induction false} OnlyTokens(rest: Bytes, seen: bool, words: seq<Bytes>)
    requires forall i :: 0 <= i < |words| ==> IsTokenWord(words[i])
    requires seen ==> words != []
    ensures
      var (all, ok) := Tokens(rest, seen, words, Gather);
      (forall i :: 0 <= i < |all| ==> IsTokenWord(all[i])) && words <= all && (ok ==> all != [])
    decreases |rest|
  {
    hide LexNext, IsTokenWord;
    var l := LexNext(rest);
    if l.ok {
      if l.kind == Token {
        OnlyTokens(rest[l.n..], true, words + [l.item]);
      } else if l.kind == Separator && l.item == [COMMA] {
        OnlyTokens(rest[l.n..], seen, words);
      }
    }
  }
}

/**
The tokenizer of httphead/lexer.go: index loops over byte slices, and the
`Scanner` whose `Next` is specified by the function `LexNext` on the bytes left.
*/
module Lexer {
  import opened Octets

  datatype ItemType = Undef | Token | Separator | String | Comment | Octet

  /** The first index of `c` in `p`, or -1. */
  function IndexByte(p: Bytes, c: Byte): (i: int)
    ensures -1 <= i < |p|
    ensures i >= 0 ==> p[i] == c && c !in p[..i]
    ensures i < 0 ==> c !in p
  {
    if p == [] then -1
    else if p[0] == c then 0
    else
      var r := IndexByte(p[1..], c);
      assert p == [p[0]] + p[1..];
      if r < 0 then -1 else
        assert p[..r + 1] == [p[0]] + p[1..][..r];
        r + 1
  }

  lemma {:induction false} IndexByteFirst(p: Bytes, c: Byte, k: nat)
    requires k < |p| && p[k] == c
    ensures 0 <= IndexByte(p, c) <= k
  {
    if p[0] != c {
      IndexByteFirst(p[1..], c, k - 1);
    }
  }

  // ---------- scanning up to an unescaped byte ----------

  /** An occurrence of `c` at `n` that no backslash immediately precedes. */
  predicate IsUnescaped(data: Bytes, c: Byte, n: int) {
    0 <= n < |data| && data[n] == c && (n == 0 || data[n - 1] != BACKSLASH)
  }

  /** The first unescaped occurrence of `c` from `n` on, or -1. */
  function FirstUnescaped(data: Bytes, c: Byte, n: nat): (r: int)
    ensures -1 <= r < |data|
    ensures r >= 0 ==> n <= r && IsUnescaped(data, c, r)
    ensures forall k :: n <= k < (if r < 0 then |data| else r) ==> !IsUnescaped(data, c, k)
    decreases |data| - n
  {
    if n >= |data| then -1
    else if IsUnescaped(data, c, n) then n
    else FirstUnescaped(data, c, n + 1)
  }

  /** What `FirstUnescaped` returns is the only value with its properties. */
  lemma {:induction false} FirstUnescapedIs(data: Bytes, c: Byte, r: int)
    requires -1 <= r < |data|
    requires r >= 0 ==> IsUnescaped(data, c, r)
    requires forall k :: 0 <= k < (if r < 0 then |data| else r) ==> !IsUnescaped(data, c, k)
    ensures FirstUnescaped(data, c, 0) == r
  {
  }

  method ScanUntil(data: Bytes, c: Byte) returns (n: int)
    ensures n == FirstUnescaped(data, c, 0)
  {
    n := 0;
    while true
      invariant 0 <= n <= |data|
      invariant forall k :: 0 <= k < n ==> !IsUnescaped(data, c, k)
      decreases |data| - n
    {
      var i := IndexByte(data[n..], c);
      assert forall k :: n <= k < (if i == -1 then |data| else n + i) ==>
        data[k] == data[n..][k - n] && data[k] != c by {
        forall k | n <= k < (if i == -1 then |data| else n + i)
          ensures data[k] == data[n..][k - n] && data[k] != c
        {
          if i >= 0 {
            assert data[n..][..i][k - n] == data[k];
          }
        }
      }
      if i == -1 {
        FirstUnescapedIs(data, c, -1);
        return -1;
      }
      n := n + i;
      if n == 0 || data[n - 1] != BACKSLASH {
        break;
      }
      n := n + 1;
    }
    FirstUnescapedIs(data, c, n);
  }

  // ---------- comments ----------

  function CountByte(p: Bytes, c: Byte): nat {
    if p == [] then 0 else (if p[0] == c then 1 else 0) + CountByte(p[1..], c)
  }

  lemma {:induction false} CountByteSkip(p: Bytes, c: Byte, j: nat)
    requires j < |p| && p[j] == c && c !in p[..j]
    ensures CountByte(p, c) == 1 + CountByte(p[j + 1..], c)
  {
    if j > 0 {
      assert p[0] in p[..j];
      assert c !in p[1..][..j - 1] by {
        assert p[..j] == [p[0]] + p[1..][..j - 1];
      }
      CountByteSkip(p[1..], c, j - 1);
      assert p[1..][j..] == p[j + 1..];
    }
  }

  lemma {:induction false} CountByteNone(p: Bytes, c: Byte)
    requires c !in p
    ensures CountByte(p, c) == 0
  {
    if p != [] {
      CountByteNone(p[1..], c);
    }
  }

  /**
  Where the comment that starts before `data` ends, scanning from `n` with
  `pairs` pairs open.  The opening bytes are counted in `data[n..i]`, where `i` is
  the offset of the next closing byte FROM `n`, as in the source.
  */
  function PairEnd(data: Bytes, open: Byte, close: Byte, n: nat, pairs: int): (r: int)
    requires n <= |data|
    ensures -1 <= r < |data|
    ensures r >= 0 ==> n <= r && data[r] == close
    decreases |data| - n
  {
    var i := IndexByte(data[n..], close);
    if i == -1 then -1
    else
      var now := PairsAt(data, open, close, n, i, pairs);
      if now == 0 then n + i else PairEnd(data, open, close, n + i + 1, now)
  }

  function PairsAt(data: Bytes, open: Byte, close: Byte, n: nat, i: nat, pairs: int): int
    requires n + i < |data|
  {
    var left := if IsUnescaped(data, close, n + i) then pairs - 1 else pairs;
    left + (if n < i then CountByte(data[n..i], open) else 0)
  }

  /** The inner loop of `ScanPairGreedy`: hops from one opening byte of `data` to the next. */
  method CountOpening(data: Bytes, open: Byte) returns (count: nat)
    ensures count == CountByte(data, open)
  {
    count := 0;
    var m := 0;
    while m < |data|
      invariant 0 <= m <= |data|
      invariant count + CountByte(data[m..], open) == CountByte(data, open)
    {
      var j := IndexByte(data[m..], open);
      if j == -1 {
        CountByteNone(data[m..], open);
        return;
      }
      CountByteSkip(data[m..], open, j);
      assert data[m..][j + 1..] == data[m + j + 1..];
      m := m + j + 1;
      count := count + 1;
    }
  }

  method ScanPairGreedy(data: Bytes, open: Byte, close: Byte) returns (n: int)
    ensures n == PairEnd(data, open, close, 0, 1)
  {
    hide IndexByte, CountByte;
    n := 0;
    var pairs: int := 1;
    while true
      invariant 0 <= n <= |data|
      invariant PairEnd(data, open, close, n, pairs) == PairEnd(data, open, close, 0, 1)
      decreases |data| - n
    {
      var m := n;
      ghost var before := pairs;
      var i := IndexByte(data[n..], close);
      if i == -1 {
        return -1;
      }
      assert data[n + i] == data[n..][i];
      n := n + i;
      if n == 0 || data[n - 1] != BACKSLASH {
        pairs := pairs - 1;
      }
      if m < i {
        var count := CountOpening(data[m..i], open);
        pairs := pairs + count;
      }
      assert pairs == PairsAt(data, open, close, m, i, before);
      if pairs == 0 {
        break;
      }
      n := n + 1;
    }
  }

  // ---------- removing escapes ----------

  /** `data` without any `c`. */
  function Without(data: Bytes, c: Byte): (r: Bytes)
    ensures c !in r
    ensures |r| <= |data|
    ensures c in data ==> |r| < |data|
  {
    if data == [] then []
    else if data[0] == c then Without(data[1..], c)
    else [data[0]] + Without(data[1..], c)
  }

  lemma {:induction false} WithoutConcat(a: Bytes, b: Bytes, c: Byte)
    ensures Without(a + b, c) == Without(a, c) + Without(b, c)
  {
    if a == [] {
      assert a + b == b;
    } else {
      assert (a + b)[1..] == a[1..] + b;
      WithoutConcat(a[1..], b, c);
    }
  }

  lemma {:induction false} WithoutNone(a: Bytes, c: Byte)
    requires c !in a
    ensures Without(a, c) == a
  {
    if a != [] {
      WithoutNone(a[1..], c);
    }
  }

  /** The byte that `RemoveByte` loses beside `c`: the last, when `c` stands right before it. */
  predicate LosesLast(data: Bytes, c: Byte) {
    |data| >= 2 && data[|data| - 2] == c
  }

  function Removed(data: Bytes, c: Byte): Bytes {
    Without(if LosesLast(data, c) then data[..|data| - 1] else data, c)
  }

  /** A stretch free of `c` and what follows it. */
  lemma {:induction false} WithoutStretch(data: Bytes, c: Byte, i: nat, k: nat)
    requires i <= k <= |data| && c !in data[i..k]
    ensures Without(data[..k], c) == Without(data[..i], c) + data[i..k]
    ensures k < |data| && data[k] == c ==> Without(data[..k + 1], c) == Without(data[..k], c)
  {
    assert data[..k] == data[..i] + data[i..k];
    WithoutConcat(data[..i], data[i..k], c);
    WithoutNone(data[i..k], c);
    if k < |data| && data[k] == c {
      assert data[..k + 1] == data[..k] + [c];
      WithoutConcat(data[..k], [c], c);
      assert Without([c], c) == [];
    }
  }

  /** The stretch behind the last occurrence, when it is at least two bytes long. */
  lemma {:induction false} RemovalOfRest(data: Bytes, c: Byte, i: nat)
    requires 0 < i < |data| - 1 && c !in data[i..]
    ensures Removed(data, c) == Without(data[..i], c) + data[i..]
  {
    hide Without;
    assert data[i..|data|] == data[i..] && data[..|data|] == data;
    WithoutStretch(data, c, i, |data|);
    assert data[|data| - 2] == data[i..][|data| - 2 - i];
  }

  /** The loop ends at the last byte or behind it. */
  lemma {:induction false} RemovalAtEnd(data: Bytes, c: Byte, i: nat)
    requires |data| - 1 <= i <= |data| && i > 0 && data[i - 1] == c
    ensures Removed(data, c) == Without(data[..i], c)
  {
    hide Without;
    assert data[..|data|] == data;
    if i == |data| && LosesLast(data, c) {
      assert data[|data| - 1..|data| - 1] == [];
      WithoutStretch(data, c, |data| - 1, |data| - 1);
    }
  }

  /**
  Copies the stretches between occurrences of `c`, until the position reaches the
  last byte; the buffer of `|data| - 1` bytes is never exceeded.
  */
  method RemoveByte(data: Bytes, c: Byte) returns (result: Bytes)
    ensures result == Removed(data, c)
  {
    hide Without, IndexByte, Removed;
    var j := IndexByte(data, c);
    if j == -1 {
      NothingRemoved(data, c);
      return data;
    }
    var n := |data| - 1;
    result := data[..j];
    var i := j + 1;
    assert data[0..j] == data[..j];
    WithoutStretch(data, c, 0, j);
    while i < n
      invariant 0 < i <= n + 1 && data[i - 1] == c
      invariant result == Without(data[..i], c) && |result| < i
    {
      j := IndexByte(data[i..], c);
      if j != -1 {
        assert data[i..i + j] == data[i..][..j];
        WithoutStretch(data, c, i, i + j);
        result := result + data[i..i + j];
        i := i + j + 1;
      } else {
        RemovalOfRest(data, c, i);
        result := result + data[i..];
        return;
      }
    }
    assert |result| <= n;
    RemovalAtEnd(data, c, i);
  }

  lemma {:induction false} NothingRemoved(data: Bytes, c: Byte)
    requires c !in data
    ensures Removed(data, c) == data
  {
    hide Without;
    WithoutNone(data, c);
  }

  /**
  `RemoveByte` is documented to return the data without `c`.  It does, except
  exactly when `c` is the second to last byte and some other byte follows it.
  */
  lemma {:induction false} RemoveByteIsExact(data: Bytes, c: Byte)
    ensures Removed(data, c) == Without(data, c)
      <==> !(LosesLast(data, c) && data[|data| - 1] != c)
  {
    if LosesLast(data, c) {
      var n := |data| - 1;
      assert data == data[..n] + [data[n]];
      WithoutConcat(data[..n], [data[n]], c);
      if data[n] != c {
        assert Without([data[n]], c) == [data[n]];
      }
    }
  }

  // ---------- white space and tokens ----------

  function SkipLen(p: Bytes): (n: nat)
    ensures n <= |p|
    ensures n < |p| ==> !IsSpace(p[n])
  {
    if p == [] then 0
    else if |p| >= 3 && p[0] == CR && p[1] == LF && IsSpace(p[2]) then 3 + SkipLen(p[3..])
    else if IsSpace(p[0]) then 1 + SkipLen(p[1..])
    else 0
  }

  /** A space, or a line break that a space continues. */
  function BlankUnit(p: Bytes): nat {
    if |p| >= 3 && p[0] == CR && p[1] == LF && IsSpace(p[2]) then 3 else if p != [] && IsSpace(p[0]) then 1 else 0
  }

  predicate Blank(b: Bytes) {
    b == [] || (BlankUnit(b) > 0 && Blank(b[BlankUnit(b)..]))
  }

  /** What is skipped is the one run of such units with none behind it. */
  lemma {:induction false} SkipLenIs(p: Bytes, n: nat)
    requires n <= |p| && Blank(p[..n]) && BlankUnit(p[n..]) == 0
    ensures SkipLen(p) == n
    decreases n
  {
    if n > 0 {
      var k := BlankUnit(p[..n]);
      assert p[..n][k..] == p[k..][..n - k] && p[k..][n - k..] == p[n..];
      SkipLenIs(p[k..], n - k);
    } else {
      assert p[0..] == p;
    }
  }

  method SkipSpace(data: Bytes) returns (n: nat)
    ensures n == SkipLen(data)
  {
    var p := data;
    n := 0;
    while |p| > 0
      invariant n + SkipLen(p) == SkipLen(data)
      decreases |p|
    {
      if |p| >= 3 && p[0] == CR && p[1] == LF && IsSpace(p[2]) {
        p := p[3..];
        n := n + 3;
      } else if IsSpace(p[0]) {
        p := p[1..];
        n := n + 1;
      } else {
        return;
      }
    }
  }

  /** The length of the longest run of token octets at the head of `p`. */
  function TokenRun(p: Bytes): (n: nat)
    ensures n <= |p|
    ensures AllTokens(p[..n])
    ensures n < |p| ==> !IsToken(p[n])
  {
    if p == [] || !IsToken(p[0]) then 0
    else
      var n := 1 + TokenRun(p[1..]);
      assert p[..n] == [p[0]] + p[1..][..n - 1];
      n
  }

  lemma {:induction false} TokenRunIs(p: Bytes, n: nat)
    requires n <= |p| && AllTokens(p[..n]) && (n < |p| ==> !IsToken(p[n]))
    ensures TokenRun(p) == n
  {
    if n > 0 {
      assert p[..n][0] == p[0];
      assert p[..n][1..] == p[1..][..n - 1];
      TokenRunIs(p[1..], n - 1);
    }
  }

  function TokenSpec(p: Bytes): (r: (int, ItemType))
    ensures -1 <= r.0 <= |p|
  {
    if p == [] then (0 as int, Undef)
    else if IsSeparator(p[0]) then (1 as int, Separator)
    else if IsToken(p[0]) then (TokenRun(p) as int, Token)
    else (-1, Undef)
  }

  method ScanToken(p: Bytes) returns (n: int, t: ItemType)
    ensures (n, t) == TokenSpec(p)
  {
    if |p| == 0 {
      return 0, Undef;
    }
    if IsSeparator(p[0]) {
      return 1, Separator;
    } else if IsToken(p[0]) {
      n := 1;
      while n < |p|
        invariant 1 <= n <= |p|
        invariant AllTokens(p[..n])
      {
        if !IsToken(p[n]) {
          break;
        }
        n := n + 1;
      }
      TokenRunIs(p, n);
      return n, Token;
    } else {
      return -1, Undef;
    }
  }

  // ---------- the scanner ----------

  /** What one `Next` finds at the head of the remaining bytes; it moves `n` bytes on. */
  datatype Lexed = Lexed(ok: bool, err: bool, kind: ItemType, item: Bytes, n: nat)

  function Failed(n: nat): Lexed { Lexed(false, true, Undef, [], n) }

  function LexNext(rest: Bytes): (l: Lexed)
    ensures l.n <= |rest|
    ensures l.ok ==> l.n > 0 && !l.err && l.kind in {Token, Separator, String, Comment}
    ensures !l.ok ==> l.kind == Undef && l.item == []
    ensures l.ok && l.kind == Token ==> IsTokenWord(l.item)
    ensures l.ok && l.kind == String ==> BACKSLASH !in l.item
    ensures !l.ok && !l.err ==> l.n == |rest|
  {
    var s := SkipLen(rest);
    var p := rest[s..];
    if p == [] then Lexed(false, false, Undef, [], s)
    else if p[0] == QUOTE then
      var n := FirstUnescaped(p[1..], QUOTE, 0);
      if n == -1 then Failed(s + 1)
      else Lexed(true, false, String, Removed(p[1..1 + n], BACKSLASH), s + 1 + n + 1)
    else if p[0] == OPEN then
      var n := PairEnd(p[1..], OPEN, CLOSE, 0, 1);
      if n == -1 then Failed(s + 1)
      else Lexed(true, false, Comment, Removed(p[1..1 + n], BACKSLASH), s + 1 + n + 1)
    else if p[0] == BACKSLASH || p[0] == CLOSE then Failed(s)
    else
      var (n, t) := TokenSpec(p);
      if n == -1 then Failed(s)
      else Lexed(true, false, t, p[..n], s + n)
  }

  /** White space in front never matters. */
  lemma {:induction false} BlankInFront(blank: Bytes, p: Bytes)
    requires Blank(blank) && BlankUnit(p) == 0
    ensures LexNext(blank + p) == LexNext(p).(n := |blank| + LexNext(p).n)
  {
    hide SkipLen, TokenSpec, PairEnd, FirstUnescaped, Removed, Blank, BlankUnit;
    assert (blank + p)[..|blank|] == blank && (blank + p)[|blank|..] == p;
    SkipLenIs(blank + p, |blank|);
    NoBlank(p);
    assert p[0..] == p;
  }

  lemma {:induction false} NoBlank(p: Bytes)
    requires BlankUnit(p) == 0
    ensures SkipLen(p) == 0
  {
    assert p[..0] == [] && p[0..] == p;
    SkipLenIs(p, 0);
  }

  /**
  Where the lexer stops with an error: an unclosed string or comment, a stray backslash or closing
  parenthesis, or an octet that is neither a separator nor a token.
  */
  lemma {:induction false} NextFails(p: Bytes)
    requires BlankUnit(p) == 0
    ensures
      LexNext(p).err <==>
        && p != []
        && if p[0] == QUOTE then forall k :: !IsUnescaped(p[1..], QUOTE, k)
           else if p[0] == OPEN then PairEnd(p[1..], OPEN, CLOSE, 0, 1) == -1
           else p[0] == BACKSLASH || p[0] == CLOSE || (!IsSeparator(p[0]) && !IsToken(p[0]))
  {
    hide SkipLen, PairEnd, FirstUnescaped, Removed, BlankUnit, TokenRun;
    NoBlank(p);
    assert p[0..] == p;
  }

  /** The bytes left after `SkipEscaped(c)`. */
  function SkipPast(rest: Bytes, c: Byte): (r: Bytes)
    ensures |r| <= |rest|
  {
    var i := FirstUnescaped(rest, c, 0);
    if i == -1 then [] else rest[i + 1..]
  }

  class Scanner {
    const data: Bytes
    var pos: nat
    var itemType: ItemType
    var itemBytes: Bytes
    var err: bool

    constructor (data: Bytes)
      ensures this.data == data && pos == 0 && itemType == Undef && itemBytes == [] && !err
    {
      this.data := data;
      pos, itemType, itemBytes, err := 0, Undef, [], false;
    }

    predicate Valid() reads this { pos <= |data| }

    function Rest(): Bytes
      requires Valid()
      reads this
    {
      data[pos..]
    }

    method ResetItem()
      modifies this`itemType, this`itemBytes
      ensures itemType == Undef && itemBytes == []
    {
      itemType := Undef;
      itemBytes := [];
    }

    method NextChar() returns (c: Byte, ok: bool)
      requires Valid()
      modifies this`itemType, this`itemBytes, this`pos
      ensures Valid() && itemType == Undef && itemBytes == []
      ensures err ==> !ok && pos == old(pos)
      ensures !err ==> pos == old(pos) + SkipLen(old(Rest()))
      ensures !err ==> (ok <==> Rest() != [])
      ensures ok ==> c == Rest()[0]
    {
      ResetItem();
      if err {
        return 0, false;
      }
      var n := SkipSpace(data[pos..]);
      pos := pos + n;
      if pos == |data| {
        return 0, false;
      }
      return data[pos], true;
    }

    /**
    Scans one item.  A set error stays set and fails every later call; a successful
    call moves strictly forward and never beyond the data.
    */
    method Next() returns (ok: bool)
      requires Valid()
      modifies this`itemType, this`itemBytes, this`pos, this`err
      ensures Valid()
      ensures old(err) ==> !ok && err && pos == old(pos) && itemType == Undef && itemBytes == []
      ensures !old(err) ==>
        var l := LexNext(old(Rest()));
        pos == old(pos) + l.n && Lexed(ok, err, itemType, itemBytes, pos - old(pos)) == l
    {
      var c;
      ghost var rest := Rest();
      c, ok := NextChar();
      if !ok {
        return;
      }
      ghost var p := rest[SkipLen(rest)..];
      assert Rest() == p;
      if c == QUOTE {
        ok := FetchQuotedString();
      } else if c == OPEN {
        ok := FetchComment();
      } else if c == BACKSLASH || c == CLOSE {
        err := true;
        ok := false;
      } else {
        ok := FetchToken();
      }
    }

    method FetchToken() returns (ok: bool)
      requires Valid() && !err && itemType == Undef && itemBytes == []
      modifies this`itemType, this`itemBytes, this`pos, this`err
      ensures Valid()
      ensures
        var (n, t) := TokenSpec(old(Rest()));
        if n == -1 then !ok && err && itemType == Undef && itemBytes == [] && pos == old(pos)
        else ok && !err && itemType == t && itemBytes == old(Rest())[..n] && pos == old(pos) + n
    {
      var n, t := ScanToken(data[pos..]);
      if n == -1 {
        err := true;
        return false;
      }
      itemType := t;
      itemBytes := data[pos..pos + n];
      assert itemBytes == data[pos..][..n];
      pos := pos + n;
      return true;
    }

    method FetchQuotedString() returns (ok: bool)
      requires Valid() && Rest() != [] && !err && itemType == Undef && itemBytes == []
      modifies this`itemType, this`itemBytes, this`pos, this`err
      ensures Valid()
      ensures
        var p := old(Rest());
        var n := FirstUnescaped(p[1..], QUOTE, 0);
        if n == -1 then (!ok && err && itemType == Undef && itemBytes == [] && pos == old(pos) + 1)
        else (ok && !err && itemType == String && itemBytes == Removed(p[1..1 + n], BACKSLASH)
              && pos == old(pos) + 1 + n + 1)
    {
      ghost var p := Rest();
      pos := pos + 1;
      assert data[pos..] == p[1..];
      var n := ScanUntil(data[pos..], QUOTE);
      if n == -1 {
        err := true;
        return false;
      }
      itemType := String;
      assert data[pos..pos + n] == p[1..1 + n];
      itemBytes := RemoveByte(data[pos..pos + n], BACKSLASH);
      pos := pos + n + 1;
      return true;
    }

    method FetchComment() returns (ok: bool)
      requires Valid() && Rest() != [] && !err && itemType == Undef && itemBytes == []
      modifies this`itemType, this`itemBytes, this`pos, this`err
      ensures Valid()
      ensures
        var p := old(Rest());
        var n := PairEnd(p[1..], OPEN, CLOSE, 0, 1);
        if n == -1 then (!ok && err && itemType == Undef && itemBytes == [] && pos == old(pos) + 1)
        else (ok && !err && itemType == Comment && itemBytes == Removed(p[1..1 + n], BACKSLASH)
              && pos == old(pos) + 1 + n + 1)
    {
      ghost var p := Rest();
      pos := pos + 1;
      assert data[pos..] == p[1..];
      var n := ScanPairGreedy(data[pos..], OPEN, CLOSE);
      if n == -1 {
        err := true;
        return false;
      }
      itemType := Comment;
      assert data[pos..pos + n] == p[1..1 + n];
      itemBytes := RemoveByte(data[pos..pos + n], BACKSLASH);
      pos := pos + n + 1;
      return true;
    }

    method SkipEscaped(c: Byte)
      requires Valid()
      modifies this`itemType, this`itemBytes, this`pos
      ensures Valid() && pos >= old(pos)
      ensures err ==> pos == old(pos)
      ensures !err ==> Rest() == SkipPast(old(Rest()), c)
    {
      if err {
        return;
      }
      ResetItem();
      var i := ScanUntil(data[pos..], c);
      if i == -1 {
        pos := |data|;
      } else {
        pos := pos + i + 1;
      }
    }

    // The operations the cookie scanner uses.

    method Buffered() returns (n: nat)
      requires Valid()
      ensures n == |Rest()|
    {
      n := |data| - pos;
    }

    method Peek2() returns (a: Byte, b: Byte)
      requires Valid()
      ensures a == if |Rest()| > 0 then Rest()[0] else 0
      ensures b == if |Rest()| > 1 then Rest()[1] else 0
    {
      if pos == |data| {
        return 0, 0;
      }
      if pos + 1 == |data| {
        return data[pos], 0;
      }
      return data[pos], data[pos + 1];
    }

    method Advance(n: nat) returns (ok: bool)
      requires Valid()
      modifies this`pos
      ensures Valid()
      ensures ok <==> n <= |old(Rest())|
      ensures Rest() == if ok then old(Rest())[n..] else []
    {
      pos := pos + n;
      if pos > |data| {
        pos := |data|;
        return false;
      }
      return true;
    }

    method FetchUntil(c: Byte) returns (ok: bool)
      requires Valid()
      modifies this`itemType, this`itemBytes, this`pos
      ensures Valid()
      ensures ok <==> old(Rest()) != []
      ensures ok ==> itemType == Octet && old(Rest()) == itemBytes + Rest()
      ensures ok ==> c !in itemBytes && (Rest() == [] || Rest()[0] == c)
    {
      ResetItem();
      if pos == |data| {
        return false;
      }
      ok := FetchOctet(c);
    }

    method FetchOctet(c: Byte) returns (ok: bool)
      requires Valid()
      modifies this`itemType, this`itemBytes, this`pos
      ensures Valid()
      ensures ok && itemType == Octet && old(Rest()) == itemBytes + Rest()
      ensures c !in itemBytes && (Rest() == [] || Rest()[0] == c)
    {
      var i := pos;
      var j := IndexByte(data[pos..], c);
      if j == -1 {
        pos := |data|;
      } else {
        pos := pos + j;
      }
      itemType := Octet;
      itemBytes := data[i..pos];
      assert j >= 0 ==> data[i..pos] == data[i..][..j];
      assert j < 0 ==> data[i..pos] == data[i..];
      return true;
    }
  }
}

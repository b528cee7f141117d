/**
`OptionSelector.Select` with `SelectUnique`, which is meant to keep the first option of each
name.  A repeated option is skipped by going to the next comma: that is the start of the
next option, unless the call that found the repetition was made at the comma already (the
next option is swallowed), or a quoted value holds a comma (the scan resumes inside it).
`Trouble` finds the first of these; `SelectUniqueMeans` and `SelectUniqueExactly` say that
the selection is the documented one when there is none, and only then.
*/
module UniqueSelection {
  import opened Octets
  import opened Optional
  import opened Lexer
  import opened Options
  import opened Writer
  import opened RoundTrip

  type Check = Opt -> bool

  // ---------- what is meant, and what stands in the way ----------

  /** The first option of each name that passes the check. */
  function Firsts(check: Check, done: seq<Opt>, options: seq<Opt>): seq<Opt>
    decreases |options|
  {
    if options == [] then done
    else
      var o := options[0];
      Firsts(check, if !NameTaken(done, o.name) && check(o) then done + [o] else done, options[1..])
  }

  /** The only call for the option is made at the comma behind it, or at the end. */
  predicate Late(o: Opt) { o.params == [] || (|o.params| == 1 && o.params[0].value == []) }

  predicate HoldsComma(ps: seq<Pair>) { exists i :: 0 <= i < |ps| && COMMA in ps[i].value }

  /** The first repeated option whose skip goes wrong, in what way, and what follows. */
  datatype Trouble = NoTrouble | InsideValue | Swallowed(lost: Opt, rest: seq<Opt>)

  function FirstTrouble(check: Check, done: seq<Opt>, options: seq<Opt>): Trouble
    decreases |options|
  {
    if options == [] then NoTrouble
    else
      var o, more := options[0], options[1..];
      if !NameTaken(done, o.name) then FirstTrouble(check, if check(o) then done + [o] else done, more)
      else if !Late(o) then
        if HoldsComma(o.params[1..]) then InsideValue else FirstTrouble(check, done, more)
      else if more == [] then NoTrouble
      else if HoldsComma(more[0].params) then InsideValue
      else if !NameTaken(done, more[0].name) && check(more[0]) then Swallowed(more[0], more[1..])
      else FirstTrouble(check, done, more[1..])
  }

  /** What is selected; nothing is said once the scan resumes inside a quoted value. */
  function Outcome(check: Check, done: seq<Opt>, options: seq<Opt>): Option<seq<Opt>>
    decreases |options|
  {
    if options == [] then Some(done)
    else
      var o, more := options[0], options[1..];
      if !NameTaken(done, o.name) then Outcome(check, if check(o) then done + [o] else done, more)
      else if !Late(o) then
        if HoldsComma(o.params[1..]) then None else Outcome(check, done, more)
      else if more == [] then Some(done)
      else if HoldsComma(more[0].params) then None
      else Outcome(check, done, more[1..])
  }

  // ---------- skipping to a comma ----------

  lemma {:induction false} SkipOver(a: Bytes, b: Bytes)
    requires COMMA !in a && (a == [] || a[|a| - 1] != BACKSLASH)
    ensures SkipPast(a + b, COMMA) == SkipPast(b, COMMA)
  {
    var i := FirstUnescaped(b, COMMA, 0);
    var t := a + b;
    forall k | 0 <= k < (if i < 0 then |t| else |a| + i)
      ensures !IsUnescaped(t, COMMA, k)
    {
      if k >= |a| {
        assert !IsUnescaped(b, COMMA, k - |a|);
      } else {
        assert t[k] == a[k];
      }
    }
    FirstUnescapedIs(t, COMMA, if i < 0 then -1 else |a| + i);
    if i >= 0 {
      assert t[|a| + i + 1..] == b[i + 1..];
    }
  }

  lemma {:induction false} SkipComma(b: Bytes)
    ensures SkipPast([COMMA] + b, COMMA) == b
  {
    FirstUnescapedIs([COMMA] + b, COMMA, 0);
    assert ([COMMA] + b)[1..] == b;
  }

  lemma {:induction false} SkipNothing()
    ensures SkipPast([], COMMA) == []
  {
  }

  /** Without a backslash in the value, no comma of its text is escaped and its end is no backslash. */
  lemma {:induction false} EscapedCommas(v: Bytes)
    requires BACKSLASH !in v
    ensures COMMA in Escaped(v) <==> COMMA in v
    ensures v != [] ==> Escaped(v) != [] && Escaped(v)[|Escaped(v)| - 1] == v[|v| - 1]
  {
    if v != [] {
      EscapedCommas(v[1..]);
      assert v == [v[0]] + v[1..];
    }
  }

  lemma {:induction false} EscapedHolds(v: Bytes, c: Byte)
    requires c != BACKSLASH && c !in v
    ensures c !in Escaped(v)
  {
    if v != [] {
      assert forall k :: 0 <= k < |v[1..]| ==> v[1..][k] == v[k + 1];
      EscapedHolds(v[1..], c);
    }
  }

  predicate IsWritten(ps: seq<Pair>) {
    forall i :: 0 <= i < |ps| ==> IsTokenWord(ps[i].key) && WritableValue(ps[i].value)
  }

  /** The text of a parameter before its value. */
  function Head(par: Pair): Bytes { [SEMICOLON] + par.key + [EQUALITY] }

  lemma {:induction false} HeadText(par: Pair)
    requires IsTokenWord(par.key)
    ensures COMMA !in Head(par) && Head(par)[|Head(par)| - 1] != BACKSLASH
    ensures par.value != [] ==> EncodeParam(par) == Head(par) + Sanitized(par.value)
  {
    assert forall i :: 0 <= i < |par.key| ==> IsToken(par.key[i]) && par.key[i] != COMMA;
    hide Classify, Escaped;
    assert Sanitized(par.key) == par.key;
    assert par.value != [] ==> EncodeParam(par) == [SEMICOLON] + par.key + ([EQUALITY] + Sanitized(par.value));
  }

  lemma {:induction false} SkipValue(v: Bytes, rest: Bytes)
    requires WritableValue(v) && v != [] && COMMA !in v
    ensures SkipPast(Sanitized(v) + rest, COMMA) == SkipPast(rest, COMMA)
  {
    EscapedCommas(v);
    SkipOver(Sanitized(v), rest);
  }

  lemma {:induction false} SkipParam(par: Pair, rest: Bytes)
    requires IsTokenWord(par.key) && WritableValue(par.value) && COMMA !in par.value
    ensures SkipPast(EncodeParam(par) + rest, COMMA) == SkipPast(rest, COMMA)
  {
    assert forall i :: 0 <= i < |par.key| ==> IsToken(par.key[i]);
    if par.value == [] {
      assert EncodeParam(par) == [SEMICOLON] + par.key;
      SkipOver([SEMICOLON] + par.key, rest);
    } else {
      Assoc(Head(par), Sanitized(par.value), rest);
      assert EncodeParam(par) == Head(par) + Sanitized(par.value);
      SkipOver(Head(par), Sanitized(par.value) + rest);
      SkipValue(par.value, rest);
    }
  }

  /** Parameters without a comma are skipped to what follows them. */
  lemma {:induction false} SkipParams(ps: seq<Pair>, rest: Bytes)
    requires IsWritten(ps) && !HoldsComma(ps)
    ensures SkipPast(EncodeParams(ps) + rest, COMMA) == SkipPast(rest, COMMA)
    decreases |ps|
  {
    if ps == [] {
      assert [] + rest == rest;
    } else {
      assert COMMA !in ps[0].value;
      Assoc(EncodeParam(ps[0]), EncodeParams(ps[1..]), rest);
      SkipParam(ps[0], EncodeParams(ps[1..]) + rest);
      SkipParams(ps[1..], rest);
    }
  }

  /** A value with a comma is a quoted text around its first comma. */
  lemma {:induction false} QuotedText(u: Bytes, w: Bytes)
    ensures Sanitized(u + [COMMA] + w) == [QUOTE] + Escaped(u) + ([COMMA] + (Escaped(w) + [QUOTE]))
  {
    var v := u + [COMMA] + w;
    EscapedConcat(u + [COMMA], w);
    EscapedConcat(u, [COMMA]);
    assert Escaped([COMMA]) == [COMMA] by {
      assert [COMMA][1..] == [];
    }
    assert v[|u|] == COMMA && !IsToken(v[|u|]);
    assert [QUOTE] + (Escaped(u) + [COMMA] + Escaped(w)) + [QUOTE]
        == [QUOTE] + Escaped(u) + ([COMMA] + (Escaped(w) + [QUOTE]));
  }

  /** A skip into a value with a comma ends inside its quotes. */
  lemma {:induction false} SkipIntoQuoted(u: Bytes, w: Bytes, rest: Bytes)
    requires BACKSLASH !in u && COMMA !in u
    ensures SkipPast(Sanitized(u + [COMMA] + w) + rest, COMMA) == Escaped(w) + [QUOTE] + rest
  {
    QuotedText(u, w);
    var a, b := [QUOTE] + Escaped(u), Escaped(w) + [QUOTE];
    Assoc(a, [COMMA] + b, rest);
    Assoc([COMMA], b, rest);
    EscapedCommas(u);
    SkipOver(a, [COMMA] + (b + rest));
    SkipComma(b + rest);
  }

  lemma {:induction false} SkipIntoValue(v: Bytes, rest: Bytes) returns (w: Bytes)
    requires WritableValue(v) && COMMA in v
    ensures BACKSLASH !in w && (Plain(v) ==> PlainRest(w))
    ensures SkipPast(Sanitized(v) + rest, COMMA) == Escaped(w) + [QUOTE] + rest
  {
    var i := IndexByte(v, COMMA);
    var u := v[..i];
    w := v[i + 1..];
    assert v == u + [COMMA] + w;
    assert forall k :: 0 <= k < |w| ==> w[k] == v[i + 1 + k];
    SkipIntoQuoted(u, w, rest);
  }

  /** Nothing in the value leads on once the scan resumes behind its first comma. */
  predicate Plain(v: Bytes) {
    forall i, j :: 0 <= i < j < |v| && v[i] == COMMA ==> v[j] != COMMA && v[j] != SEMICOLON
  }

  predicate PlainRest(w: Bytes) { COMMA !in w && SEMICOLON !in w }

  lemma {:induction false} SkipIntoParam(par: Pair, rest: Bytes) returns (w: Bytes)
    requires IsTokenWord(par.key) && WritableValue(par.value) && COMMA in par.value
    ensures BACKSLASH !in w && (Plain(par.value) ==> PlainRest(w))
    ensures SkipPast(EncodeParam(par) + rest, COMMA) == Escaped(w) + [QUOTE] + rest
  {
    hide SkipPast, Escaped, WritableValue, Plain;
    HeadText(par);
    Assoc(Head(par), Sanitized(par.value), rest);
    SkipOver(Head(par), Sanitized(par.value) + rest);
    w := SkipIntoValue(par.value, rest);
  }

  /** Parameters with a comma are skipped into one of their values. */
  lemma {:induction false} SkipIntoParams(ps: seq<Pair>, rest: Bytes) returns (w: Bytes, tail: Bytes)
    requires IsWritten(ps) && HoldsComma(ps)
    ensures BACKSLASH !in w && ((forall i :: 0 <= i < |ps| ==> Plain(ps[i].value)) ==> PlainRest(w))
    ensures SkipPast(EncodeParams(ps) + rest, COMMA) == Escaped(w) + [QUOTE] + tail && |tail| >= |rest|
    decreases |ps|
  {
    Assoc(EncodeParam(ps[0]), EncodeParams(ps[1..]), rest);
    tail := EncodeParams(ps[1..]) + rest;
    if COMMA in ps[0].value {
      w := SkipIntoParam(ps[0], tail);
    } else {
      SkipParam(ps[0], tail);
      w, tail := SkipIntoParams(ps[1..], rest);
    }
  }

  // ---------- one skip ----------

  /** Between two options. */
  predicate AtStart(p: Parser) { p.phase == Key && p.param == [] && p.value == [] && !p.mustCall }

  /** The first call that an option leads to. */
  function FirstCall(o: Opt, index: nat): Call {
    if o.params == [] then Call(index, o.name, [], []) else Call(index, o.name, o.params[0].key, o.params[0].value)
  }

  /** The text of the option behind the item at which that call is made. */
  function Left(o: Opt): Bytes
    requires !Late(o)
  {
    if o.params[0].value != [] then EncodeParams(o.params[1..]) else EncodeParams(o.params[1..])[1..]
  }

  predicate NoToken(rest: Bytes) { rest == [] || !IsToken(rest[0]) }

  lemma {:induction false} NoTokenBehind(ps: seq<Pair>, rest: Bytes)
    requires NoToken(rest)
    ensures NoToken(EncodeParams(ps) + rest)
  {
  }

  /** Up to the item behind the key of the first parameter: no call. */
  lemma {:induction false} ToFirstKey<S>(name: Bytes, key: Bytes, rest: Bytes, p: Parser, s: S, it: Callback<S>)
    returns (q: Parser)
    requires AtStart(p) && IsTokenWord(name) && IsTokenWord(key) && NoToken(rest)
    ensures Scan(name + ([SEMICOLON] + key + rest), p, s, it) == Scan(rest, q, s, it)
    ensures q == p.(phase := ParamBeforeValue, key := name, param := key, mustCall := true)
  {
    hide Scan;
    hide LexNext;
    Assoc([SEMICOLON], key, rest);
    LexToken(name, [SEMICOLON] + (key + rest));
    var t;
    q, t := Consume(name, [SEMICOLON] + (key + rest), p, s, it);
    LexSeparator(SEMICOLON, key + rest);
    q, t := Consume([SEMICOLON], key + rest, q, t, it);
    LexToken(key, rest);
    q, t := Consume(key, rest, q, t, it);
  }

  /** An item whose call is answered by Skip. */
  lemma {:induction false} SkipAt<S>(head: Bytes, rest: Bytes, p: Parser, s: S, it: Callback<S>) returns (q: Parser)
    requires
      var l := LexNext(head + rest);
      var a := React(p, l.kind, l.item);
      l.ok && l.n == |head| && a.Accept? && a.call && it(s, a.next.Args()).1 == Skip
    ensures
      var l := LexNext(head + rest);
      var a := React(p, l.kind, l.item);
      && q == a.next.(phase := Key).Called(a.grow)
      && Scan(head + rest, p, s, it) == Scan(SkipPast(rest, COMMA), q, it(s, a.next.Args()).0, it)
  {
    var l := LexNext(head + rest);
    assert (head + rest)[l.n..] == rest;
    var Accept(next, call, grow) := React(p, l.kind, l.item);
    q := next.(phase := Key).Called(grow);
  }

  /** Whether the scan starts over, with what index. */
  ghost predicate Resumed(p: Parser, q: Parser, grow: nat) {
    AtStart(q) && q.ok && q.index == p.index + grow
  }

  /** The text of an option whose first parameter has a value. */
  lemma {:induction false} ValueText(o: Opt, rest: Bytes)
    requires WritableOption(o) && o.params != [] && o.params[0].value != []
    ensures
      var par, behind := o.params[0], EncodeParams(o.params[1..]) + rest;
      EncodeOption(o) + rest == o.name + ([SEMICOLON] + par.key + ([EQUALITY] + (Sanitized(par.value) + behind)))
  {
    var key, w, more := o.params[0].key, Sanitized(o.params[0].value), EncodeParams(o.params[1..]);
    assert EncodeOption(o) == o.name + (([SEMICOLON] + key + ([EQUALITY] + w)) + more);
    FiveParts(o.name, [SEMICOLON] + key, [EQUALITY], w, more, rest);
  }

  lemma {:induction false} FiveParts(a: Bytes, b: Bytes, c: Bytes, d: Bytes, e: Bytes, f: Bytes)
    ensures a + ((b + (c + d)) + e) + f == a + (b + (c + (d + (e + f))))
  {
  }

  lemma {:induction false} BareHead(o: Opt)
    requires WritableOption(o) && |o.params| > 1 && o.params[0].value == []
    ensures EncodeOption(o) == o.name + (([SEMICOLON] + o.params[0].key) + EncodeParams(o.params[1..]))
    ensures EncodeParams(o.params[1..]) == [SEMICOLON] + Left(o)
  {
    KeyText(o.name);
    KeyText(o.params[0].key);
    assert EncodeParam(o.params[0]) == [SEMICOLON] + o.params[0].key;
  }

  /** The text of an option whose first parameter has none, and is not the last. */
  lemma {:induction false} BareText(o: Opt, rest: Bytes)
    requires WritableOption(o) && |o.params| > 1 && o.params[0].value == []
    ensures
      EncodeOption(o) + rest == o.name + ([SEMICOLON] + o.params[0].key + ([SEMICOLON] + (Left(o) + rest)))
  {
    hide EncodeOption, EncodeParams, Left, WritableOption;
    BareHead(o);
    RegroupBare(o.name, [SEMICOLON] + o.params[0].key, [SEMICOLON], Left(o), rest);
  }

  lemma {:induction false} RegroupBare(a: Bytes, b: Bytes, c: Bytes, d: Bytes, e: Bytes)
    ensures (a + (b + (c + d))) + e == a + (b + (c + (d + e)))
  {
  }

  lemma {:induction false} SkipAtValue<S>(o: Opt, rest: Bytes, p: Parser, s: S, it: Callback<S>) returns (q: Parser)
    requires AtStart(p) && WritableOption(o) && o.params != [] && o.params[0].value != [] && NoToken(rest)
    requires it(s, FirstCall(o, p.index)).1 == Skip
    ensures Resumed(p, q, 0)
    ensures Scan(EncodeOption(o) + rest, p, s, it)
         == Scan(SkipPast(EncodeParams(o.params[1..]) + rest, COMMA), q, it(s, FirstCall(o, p.index)).0, it)
  {
    hide Scan, LexNext, SkipPast, EncodeOption, EncodeParams, Sanitized, TokenSpec;
    var par, behind := o.params[0], EncodeParams(o.params[1..]) + rest;
    var w := Sanitized(par.value);
    NoTokenBehind(o.params[1..], rest);
    ValueText(o, rest);
    q := ToFirstKey(o.name, par.key, [EQUALITY] + (w + behind), p, s, it);
    LexSeparator(EQUALITY, w + behind);
    var t;
    q, t := Consume([EQUALITY], w + behind, q, s, it);
    LexValue(par.value, behind);
    KeptIsSame(par.value);
    q := SkipAt(w, behind, q, s, it);
  }

  lemma {:induction false} SkipAtSemicolon<S>(o: Opt, rest: Bytes, p: Parser, s: S, it: Callback<S>)
    returns (q: Parser)
    requires AtStart(p) && WritableOption(o) && |o.params| > 1 && o.params[0].value == []
    requires it(s, FirstCall(o, p.index)).1 == Skip
    ensures Resumed(p, q, 0)
    ensures Scan(EncodeOption(o) + rest, p, s, it)
         == Scan(SkipPast(Left(o) + rest, COMMA), q, it(s, FirstCall(o, p.index)).0, it)
  {
    hide Scan, LexNext, SkipPast, EncodeOption, EncodeParams, Sanitized, TokenSpec, Left;
    BareText(o, rest);
    var behind := Left(o) + rest;
    q := ToFirstKey(o.name, o.params[0].key, [SEMICOLON] + behind, p, s, it);
    LexSeparator(SEMICOLON, behind);
    q := SkipAt([SEMICOLON], behind, q, s, it);
  }

  /** A skip from a call that is made before the comma behind the option. */
  lemma {:induction false} SkipEarly<S>(o: Opt, rest: Bytes, p: Parser, s: S, it: Callback<S>) returns (q: Parser)
    requires AtStart(p) && WritableOption(o) && !Late(o) && NoToken(rest)
    requires it(s, FirstCall(o, p.index)).1 == Skip
    ensures Resumed(p, q, 0)
    ensures Scan(EncodeOption(o) + rest, p, s, it)
         == Scan(SkipPast(Left(o) + rest, COMMA), q, it(s, FirstCall(o, p.index)).0, it)
  {
    hide Scan, EncodeOption, EncodeParams;
    if o.params[0].value != [] {
      q := SkipAtValue(o, rest, p, s, it);
    } else {
      q := SkipAtSemicolon(o, rest, p, s, it);
    }
  }

  /** Up to the comma behind an option that leads to one call only: no call yet. */
  lemma {:induction false} ToComma<S>(o: Opt, rest: Bytes, p: Parser, s: S, it: Callback<S>) returns (q: Parser)
    requires AtStart(p) && WritableOption(o) && Late(o) && NoToken(rest)
    ensures Scan(EncodeOption(o) + rest, p, s, it) == Scan(rest, q, s, it)
    ensures q.mustCall && q.Args() == FirstCall(o, p.index) && q.index == p.index
    ensures q.phase == (if o.params == [] then ParamBeforeName else ParamBeforeValue)
  {
    hide Scan;
    hide LexNext;
    if o.params == [] {
      assert EncodeOption(o) + rest == o.name + rest;
      LexToken(o.name, rest);
      var t;
      q, t := Consume(o.name, rest, p, s, it);
    } else {
      var key := o.params[0].key;
      assert EncodeParams(o.params) == [SEMICOLON] + key by {
        assert EncodeParams(o.params[1..]) == [] && EncodeParam(o.params[0]) == [SEMICOLON] + key;
      }
      assert EncodeOption(o) + rest == o.name + ([SEMICOLON] + key + rest);
      q := ToFirstKey(o.name, key, rest, p, s, it);
    }
  }

  /** A skip from a call that is made at the comma. */
  lemma {:induction false} SkipLate<S>(o: Opt, next: Bytes, p: Parser, s: S, it: Callback<S>) returns (q: Parser)
    requires AtStart(p) && WritableOption(o) && Late(o) && it(s, FirstCall(o, p.index)).1 == Skip
    ensures Resumed(p, q, 1)
    ensures Scan(EncodeOption(o) + ([COMMA] + next), p, s, it)
         == Scan(SkipPast(next, COMMA), q, it(s, FirstCall(o, p.index)).0, it)
  {
    hide Scan;
    hide LexNext;
    hide SkipPast;
    q := ToComma(o, [COMMA] + next, p, s, it);
    LexSeparator(COMMA, next);
    q := SkipAt([COMMA], next, q, s, it);
  }

  /** The call at the end of the text; its answer does not matter. */
  lemma {:induction false} LateAtEnd<S>(o: Opt, p: Parser, s: S, it: Callback<S>)
    requires AtStart(p) && WritableOption(o) && Late(o)
    ensures Scan(EncodeOption(o), p, s, it) == (it(s, FirstCall(o, p.index)).0, true)
  {
    var q := ToComma(o, [], p, s, it);
    assert EncodeOption(o) + [] == EncodeOption(o);
    assert LexNext([]) == Lexed(false, false, Undef, [], 0);
  }

  // ---------- a new option ----------

  /** With `o` read so far, no call made yet or all of them. */
  ghost predicate Base(sel: Selector, index: nat, s: SelectVars, done: seq<Opt>, o: Opt) {
    s == SelectVars(done, o, true, index) || (s.index < index && Flush(sel, s) == done && o.params == [])
  }

  lemma {:induction false} CallOnBase(sel: Selector, s: SelectVars, done: seq<Opt>, o: Opt, c: Call)
    requires Base(sel, c.index, s, done, o) && o.name == c.key && !NameTaken(done, c.key)
    ensures SelectCall(sel, s, c) == (SelectVars(done, WithParam(o, c), true, c.index), Continue)
  {
  }

  /** Between two parts of a new option, with `o` read so far, a call perhaps still owed. */
  ghost predicate Adding(sel: Selector, p: Parser, s: SelectVars, done: seq<Opt>, o: Opt) {
    && p.key == o.name && !NameTaken(done, o.name) && p.value == []
    && match p.phase
       case ParamBeforeName =>
         && p.param == []
         && if p.mustCall then Base(sel, p.index, s, done, o) && o.params == []
            else p.ok && s == SelectVars(done, o, true, p.index)
       case ParamBeforeValue =>
         && p.mustCall && p.param != [] && o.params != [] && o.params[|o.params| - 1] == Pair(p.param, [])
         && Base(sel, p.index, s, done, o.(params := o.params[..|o.params| - 1]))
       case _ => false
  }

  /** Making the call that is owed. */
  lemma {:induction false} CallOwed(sel: Selector, p: Parser, s: SelectVars, done: seq<Opt>, o: Opt)
    requires Adding(sel, p, s, done, o) && p.mustCall
    ensures SelectCall(sel, s, p.Args()) == (SelectVars(done, o, true, p.index), Continue)
  {
    if p.phase == ParamBeforeValue {
      var o0 := o.(params := o.params[..|o.params| - 1]);
      CallOnBase(sel, s, done, o0, p.Args());
      assert o0.params + [Pair(p.param, [])] == o.params;
    } else {
      CallOnBase(sel, s, done, o, p.Args());
    }
  }

  lemma {:induction false} AddKey(sel: Selector, key: Bytes, rest: Bytes, p: Parser, s: SelectVars,
      done: seq<Opt>, o: Opt)
    returns (q: Parser, t: SelectVars)
    requires Adding(sel, p, s, done, o) && IsTokenWord(key) && NoToken(rest)
    ensures Scan([SEMICOLON] + key + rest, p, s, SelectStep(sel)) == Scan(rest, q, t, SelectStep(sel))
    ensures q.phase == ParamBeforeValue && q.param == key && q.value == [] && q.mustCall && q.index == p.index
    ensures q.key == o.name && Base(sel, q.index, t, done, o)
  {
    hide Scan, LexNext, SelectCall;
    Assoc([SEMICOLON], key, rest);
    LexSeparator(SEMICOLON, key + rest);
    if p.mustCall {
      CallOwed(sel, p, s, done, o);
    }
    q, t := Consume([SEMICOLON], key + rest, p, s, SelectStep(sel));
    LexToken(key, rest);
    q, t := Consume(key, rest, q, t, SelectStep(sel));
  }

  lemma {:induction false} AddValue(sel: Selector, v: Bytes, rest: Bytes, p: Parser, s: SelectVars,
      done: seq<Opt>, o: Opt)
    returns (q: Parser, t: SelectVars)
    requires p.phase == ParamBeforeValue && p.param != [] && p.key == o.name && !NameTaken(done, o.name)
    requires Base(sel, p.index, s, done, o) && WritableValue(v) && v != [] && NoToken(rest)
    ensures Scan([EQUALITY] + (Sanitized(v) + rest), p, s, SelectStep(sel)) == Scan(rest, q, t, SelectStep(sel))
    ensures Adding(sel, q, t, done, o.(params := o.params + [Pair(p.param, v)])) && q.index == p.index
  {
    hide Scan, LexNext, SelectCall, Sanitized;
    LexSeparator(EQUALITY, Sanitized(v) + rest);
    q, t := Consume([EQUALITY], Sanitized(v) + rest, p, s, SelectStep(sel));
    LexValue(v, rest);
    KeptIsSame(v);
    CallOnBase(sel, s, done, o, q.(value := v).Args());
    q, t := Consume(Sanitized(v), rest, q, t, SelectStep(sel));
  }

  lemma {:induction false} AddOneParam(sel: Selector, par: Pair, rest: Bytes, p: Parser, s: SelectVars,
      done: seq<Opt>, o: Opt)
    returns (q: Parser, t: SelectVars)
    requires Adding(sel, p, s, done, o) && IsTokenWord(par.key) && WritableValue(par.value) && NoToken(rest)
    ensures Scan(EncodeParam(par) + rest, p, s, SelectStep(sel)) == Scan(rest, q, t, SelectStep(sel))
    ensures Adding(sel, q, t, done, o.(params := o.params + [par])) && q.index == p.index
  {
    hide Scan, SelectCall, Sanitized;
    if par.value == [] {
      assert EncodeParam(par) == [SEMICOLON] + par.key by {
        KeyText(par.key);
      }
      q, t := AddKey(sel, par.key, rest, p, s, done, o);
      assert (o.params + [par])[..|o.params|] == o.params;
    } else {
      var w := Sanitized(par.value);
      KeyText(par.key);
      FourParts([SEMICOLON] + par.key, [EQUALITY], w, rest);
      q, t := AddKey(sel, par.key, [EQUALITY] + (w + rest), p, s, done, o);
      q, t := AddValue(sel, par.value, rest, q, t, done, o);
    }
  }

  lemma {:induction false} KeyText(key: Bytes)
    requires IsTokenWord(key)
    ensures Sanitized(key) == key
  {
  }

  lemma {:induction false} FourParts(a: Bytes, b: Bytes, c: Bytes, d: Bytes)
    ensures a + (b + c) + d == a + (b + (c + d))
  {
  }

  lemma {:induction false} AddAllParams(sel: Selector, ps: seq<Pair>, rest: Bytes, p: Parser, s: SelectVars,
      done: seq<Opt>, o: Opt)
    returns (q: Parser, t: SelectVars)
    requires Adding(sel, p, s, done, o) && IsWritten(ps) && NoToken(rest)
    ensures Scan(EncodeParams(ps) + rest, p, s, SelectStep(sel)) == Scan(rest, q, t, SelectStep(sel))
    ensures Adding(sel, q, t, done, o.(params := o.params + ps)) && q.index == p.index
    decreases |ps|
  {
    hide Scan, Adding, EncodeParam, SelectStep, WritableValue;
    if ps == [] {
      assert [] + rest == rest && o.params + [] == o.params;
      q, t := p, s;
    } else {
      var tail := EncodeParams(ps[1..]) + rest;
      Assoc(EncodeParam(ps[0]), EncodeParams(ps[1..]), rest);
      NoTokenBehind(ps[1..], rest);
      q, t := AddOneParam(sel, ps[0], tail, p, s, done, o);
      var o1 := o.(params := o.params + [ps[0]]);
      q, t := AddAllParams(sel, ps[1..], rest, q, t, done, o1);
      assert o1.params + ps[1..] == o.params + ps;
    }
  }

  /** All of a new option is read. */
  lemma {:induction false} AddNew(sel: Selector, o: Opt, rest: Bytes, p: Parser, s: SelectVars, done: seq<Opt>)
    returns (q: Parser, t: SelectVars)
    requires AtStart(p) && s.index < p.index && Flush(sel, s) == done && !NameTaken(done, o.name)
    requires WritableOption(o) && NoToken(rest)
    ensures Scan(EncodeOption(o) + rest, p, s, SelectStep(sel)) == Scan(rest, q, t, SelectStep(sel))
    ensures Adding(sel, q, t, done, o) && q.index == p.index
  {
    hide Scan, LexNext, EncodeParams, SelectCall;
    var tail := EncodeParams(o.params) + rest;
    KeyText(o.name);
    Assoc(o.name, EncodeParams(o.params), rest);
    NoTokenBehind(o.params, rest);
    LexToken(o.name, tail);
    q, t := Consume(o.name, tail, p, s, SelectStep(sel));
    q, t := AddAllParams(sel, o.params, rest, q, t, done, Opt(o.name, []));
    assert [] + o.params == o.params;
  }

  function Added(check: Check, done: seq<Opt>, o: Opt): seq<Opt> { if check(o) then done + [o] else done }

  lemma {:induction false} CloseWithComma(sel: Selector, next: Bytes, p: Parser, s: SelectVars, done: seq<Opt>, o: Opt)
    returns (q: Parser, t: SelectVars)
    requires Adding(sel, p, s, done, o)
    ensures Scan([COMMA] + next, p, s, SelectStep(sel)) == Scan(next, q, t, SelectStep(sel))
    ensures Resumed(p, q, 1) && t.index < q.index && Flush(sel, t) == Added(sel.check, done, o)
  {
    hide Scan, LexNext, SelectCall;
    LexSeparator(COMMA, next);
    if p.mustCall {
      CallOwed(sel, p, s, done, o);
    }
    q, t := Consume([COMMA], next, p, s, SelectStep(sel));
  }

  lemma {:induction false} CloseAtEnd(sel: Selector, p: Parser, s: SelectVars, done: seq<Opt>, o: Opt)
    requires Adding(sel, p, s, done, o)
    ensures
      var (t, ok) := Scan([], p, s, SelectStep(sel));
      ok && Flush(sel, t) == Added(sel.check, done, o)
  {
    assert LexNext([]) == Lexed(false, false, Undef, [], 0);
    hide SelectCall;
    if p.mustCall {
      CallOwed(sel, p, s, done, o);
    }
  }

  // ---------- inside a quoted value ----------

  lemma {:induction false} SpacesBefore(e: Bytes, tail: Bytes)
    ensures SkipLen(e + [QUOTE] + tail) <= |e|
    decreases |e|
  {
    var t := e + [QUOTE] + tail;
    if |e| >= 3 && t[0] == CR && t[1] == LF && IsSpace(t[2]) {
      assert t[3..] == e[3..] + [QUOTE] + tail;
      SpacesBefore(e[3..], tail);
    } else if |e| >= 1 && IsSpace(t[0]) {
      assert t[1..] == e[1..] + [QUOTE] + tail;
      SpacesBefore(e[1..], tail);
    }
  }

  lemma {:induction false} TokenEnds(p: Bytes, k: nat)
    requires k < |p| && p[k] == QUOTE
    ensures TokenRun(p) <= k
  {
    assert TokenRun(p) > k ==> IsToken(p[..TokenRun(p)][k]);
  }

  /** The next item of text without comma and semicolon, up to a quote. */
  lemma {:induction false} LexUpToQuote(e: Bytes, tail: Bytes)
    requires COMMA !in e && SEMICOLON !in e
    ensures
      var l := LexNext(e + [QUOTE] + tail);
      && (!l.ok ==> l.err)
      && (l.ok && l.kind == Token ==> l.n <= |e|)
      && (l.ok && l.kind == Separator ==> l.item != [COMMA] && l.item != [SEMICOLON])
  {
    hide SkipLen, FirstUnescaped, PairEnd, Removed, Classify, TokenRun;
    var t := e + [QUOTE] + tail;
    var n := SkipLen(t);
    SpacesBefore(e, tail);
    var p := t[n..];
    assert p[0] == (if n < |e| then e[n] else QUOTE) && p[|e| - n] == QUOTE;
    TokenEnds(p, |e| - n);
  }

  /** Text without comma and semicolon, up to a quote: the scan fails, whatever the callback. */
  lemma {:induction false} StuckAtQuote<S>(e: Bytes, tail: Bytes, p: Parser, s: S, it: Callback<S>)
    requires COMMA !in e && SEMICOLON !in e && (p.phase == Key || p.phase == ParamBeforeName)
    ensures !Scan(e + [QUOTE] + tail, p, s, it).1
    decreases |e|
  {
    hide LexNext;
    var t := e + [QUOTE] + tail;
    var l := LexNext(t);
    LexUpToQuote(e, tail);
    if l.ok && l.kind == Token {
      assert t[l.n..] == e[l.n..] + [QUOTE] + tail;
      assert forall k :: 0 <= k < |e[l.n..]| ==> e[l.n..][k] == e[l.n + k];
      StuckAtQuote(e[l.n..], tail, React(p, l.kind, l.item).next, s, it);
    }
  }

  lemma {:induction false} StuckInValue<S>(w: Bytes, tail: Bytes, p: Parser, s: S, it: Callback<S>)
    requires BACKSLASH !in w && PlainRest(w) && AtStart(p)
    ensures !Scan(Escaped(w) + [QUOTE] + tail, p, s, it).1
  {
    EscapedHolds(w, COMMA);
    EscapedHolds(w, SEMICOLON);
    StuckAtQuote(Escaped(w), tail, p, s, it);
  }

  // ---------- the whole list ----------

  predicate AllWritable(options: seq<Opt>) { forall i :: 0 <= i < |options| ==> WritableOption(options[i]) }

  predicate AllPlain(options: seq<Opt>) {
    forall i, j :: 0 <= i < |options| && 0 <= j < |options[i].params| ==> Plain(options[i].params[j].value)
  }

  /** What a scan that ended with `s` and `ok` must be for the outcome. */
  ghost predicate Agrees(sel: Selector, outcome: Option<seq<Opt>>, plain: bool, result: (SelectVars, bool)) {
    match outcome
    case Some(selected) => result.1 && Flush(sel, result.0) == selected
    case None => plain ==> !result.1
  }

  /** The first call for a repeated option is answered by Skip, and selects nothing. */
  lemma {:induction false} RepeatedIsSkipped(sel: Selector, s: SelectVars, c: Call)
    requires sel.unique && s.index < c.index && NameTaken(Flush(sel, s), c.key)
    ensures
      var (t, control) := SelectCall(sel, s, c);
      control == Skip && t.index == s.index && Flush(sel, t) == Flush(sel, s)
  {
  }

  lemma {:induction false} TextOfList(options: seq<Opt>)
    requires options != []
    ensures Encode(options) == EncodeOption(options[0])
      + (if |options| == 1 then [] else [COMMA] + Encode(options[1..]))
  {
    if |options| > 1 {
      var more := options[1..];
      Assoc([COMMA], EncodeOption(more[0]), EncodeRest(more[1..]));
    }
  }

  /** An option with a comma is skipped into one of its values. */
  lemma {:induction false} SkipIntoOption(o: Opt, rest: Bytes) returns (w: Bytes, tail: Bytes)
    requires WritableOption(o) && HoldsComma(o.params)
    ensures BACKSLASH !in w && ((forall i :: 0 <= i < |o.params| ==> Plain(o.params[i].value)) ==> PlainRest(w))
    ensures SkipPast(EncodeOption(o) + rest, COMMA) == Escaped(w) + [QUOTE] + tail && |tail| >= |rest|
  {
    SkipName(o, rest);
    w, tail := SkipIntoParams(o.params, rest);
  }

  lemma {:induction false} SkipName(o: Opt, rest: Bytes)
    requires WritableOption(o)
    ensures SkipPast(EncodeOption(o) + rest, COMMA) == SkipPast(EncodeParams(o.params) + rest, COMMA)
  {
    assert forall i :: 0 <= i < |o.name| ==> IsToken(o.name[i]);
    KeyText(o.name);
    Assoc(o.name, EncodeParams(o.params), rest);
    SkipOver(o.name, EncodeParams(o.params) + rest);
  }

  lemma {:induction false} TailIsWritten(o: Opt)
    requires WritableOption(o) && o.params != []
    ensures IsWritten(o.params[1..])
  {
  }

  /** What is left of an option is skipped like its parameters after the first. */
  lemma {:induction false} SkipLeft(o: Opt, rest: Bytes)
    requires WritableOption(o) && !Late(o)
    ensures SkipPast(Left(o) + rest, COMMA) == SkipPast(EncodeParams(o.params[1..]) + rest, COMMA)
  {
    if o.params[0].value == [] {
      var more := EncodeParams(o.params[1..]);
      assert more + rest == [SEMICOLON] + (more[1..] + rest);
      SkipOver([SEMICOLON], more[1..] + rest);
    }
  }

  /**
  One skip.  The scan goes on at the start of the next option (or at the end of the text)
  if and only if the call was not made at the comma and no comma is left in the option.
  */
  lemma {:induction false} SkipIsExact(o: Opt, more: seq<Opt>)
    requires WritableOption(o) && AllWritable(more)
    ensures !Late(o) ==>
      var rest := if more == [] then [] else [COMMA] + Encode(more);
      SkipPast(Left(o) + rest, COMMA) == Encode(more) <==> !HoldsComma(o.params[1..])
    ensures more != [] ==> SkipPast(Encode(more), COMMA) != Encode(more)
  {
    if !Late(o) {
      var rest := if more == [] then [] else [COMMA] + Encode(more);
      SkipLeft(o, rest);
      if HoldsComma(o.params[1..]) {
        var w, tail := SkipIntoParams(o.params[1..], rest);
      } else {
        SkipParams(o.params[1..], rest);
        SkipComma(Encode(more));
        SkipNothing();
      }
    }
    if more != [] {
      assert WritableOption(more[0]);
      TextOfList(more);
    }
  }

  lemma {:induction false} ChooseAll(sel: Selector, options: seq<Opt>, p: Parser, s: SelectVars)
    requires sel.unique && AtStart(p) && s.index < p.index && (options == [] ==> p.ok) && AllWritable(options)
    ensures Agrees(sel, Outcome(sel.check, Flush(sel, s), options), AllPlain(options),
                   Scan(Encode(options), p, s, SelectStep(sel)))
    decreases |options|
  {
    if options == [] {
      assert LexNext([]) == Lexed(false, false, Undef, [], 0);
    } else {
      hide Scan;
      var o, done := options[0], Flush(sel, s);
      assert WritableOption(o);
      TextOfList(options);
      if !NameTaken(done, o.name) {
        ChooseNew(sel, options, p, s);
      } else if Late(o) {
        RepeatedIsSkipped(sel, s, FirstCall(o, p.index));
        ChooseLate(sel, options, p, s);
      } else {
        RepeatedIsSkipped(sel, s, FirstCall(o, p.index));
        ChooseEarly(sel, options, p, s);
      }
    }
  }

  lemma {:induction false} ChooseNew(sel: Selector, options: seq<Opt>, p: Parser, s: SelectVars)
    requires sel.unique && AtStart(p) && s.index < p.index && options != [] && AllWritable(options)
    requires !NameTaken(Flush(sel, s), options[0].name)
    ensures Agrees(sel, Outcome(sel.check, Flush(sel, s), options), AllPlain(options),
                   Scan(Encode(options), p, s, SelectStep(sel)))
    decreases |options|, 0
  {
    hide Scan, Encode, EncodeOption, SelectStep, Flush, Adding, WritableOption;
    var o, more, done := options[0], options[1..], Flush(sel, s);
    TextOfList(options);
    if more == [] {
      assert EncodeOption(o) + [] == EncodeOption(o);
      var q, t := AddNew(sel, o, [], p, s, done);
      CloseAtEnd(sel, q, t, done, o);
      assert Outcome(sel.check, Added(sel.check, done, o), []) == Some(Added(sel.check, done, o));
    } else {
      var q, t := AddNew(sel, o, [COMMA] + Encode(more), p, s, done);
      q, t := CloseWithComma(sel, Encode(more), q, t, done, o);
      ChooseAll(sel, more, q, t);
      PlainTail(options, 1);
    }
  }

  lemma {:induction false} PlainTail(options: seq<Opt>, k: nat)
    requires k <= |options|
    ensures AllPlain(options) ==> AllPlain(options[k..])
  {
  }

  lemma {:induction false} ChooseLate(sel: Selector, options: seq<Opt>, p: Parser, s: SelectVars)
    requires sel.unique && AtStart(p) && s.index < p.index && options != [] && AllWritable(options)
    requires NameTaken(Flush(sel, s), options[0].name) && Late(options[0])
    ensures Agrees(sel, Outcome(sel.check, Flush(sel, s), options), AllPlain(options),
                   Scan(Encode(options), p, s, SelectStep(sel)))
    decreases |options|, 0
  {
    hide Scan, Encode, EncodeOption, EncodeParams, SelectCall, Flush, WritableOption, SkipPast;
    var o, more := options[0], options[1..];
    var c := FirstCall(o, p.index);
    RepeatedIsSkipped(sel, s, c);
    TextOfList(options);
    if more == [] {
      assert EncodeOption(o) + [] == EncodeOption(o);
      LateAtEnd(o, p, s, SelectStep(sel));
    } else {
      var t := SelectCall(sel, s, c).0;
      var q := SkipLate(o, Encode(more), p, s, SelectStep(sel));
      var x, rest := more[0], if |more| == 1 then [] else [COMMA] + Encode(more[1..]);
      TextOfList(more);
      if HoldsComma(x.params) {
        var w, tail := SkipIntoOption(x, rest);
        if AllPlain(options) {
          StuckInValue(w, tail, q, t, SelectStep(sel));
        }
      } else {
        SkipOption(x, more[1..]);
        ChooseAll(sel, more[1..], q, t);
        assert options[2..] == more[1..];
        PlainTail(options, 2);
      }
    }
  }

  lemma {:induction false} SkipOption(x: Opt, more: seq<Opt>)
    requires WritableOption(x) && !HoldsComma(x.params)
    ensures SkipPast(EncodeOption(x) + (if more == [] then [] else [COMMA] + Encode(more)), COMMA) == Encode(more)
  {
    var rest := if more == [] then [] else [COMMA] + Encode(more);
    SkipName(x, rest);
    SkipParams(x.params, rest);
    SkipComma(Encode(more));
    SkipNothing();
  }

  lemma {:induction false} ChooseEarly(sel: Selector, options: seq<Opt>, p: Parser, s: SelectVars)
    requires sel.unique && AtStart(p) && s.index < p.index && options != [] && AllWritable(options)
    requires NameTaken(Flush(sel, s), options[0].name) && !Late(options[0])
    ensures Agrees(sel, Outcome(sel.check, Flush(sel, s), options), AllPlain(options),
                   Scan(Encode(options), p, s, SelectStep(sel)))
    decreases |options|, 0
  {
    hide Scan, Encode, EncodeOption, EncodeParams, SelectCall, Flush, WritableOption, SkipPast, Left;
    var o, more := options[0], options[1..];
    var c := FirstCall(o, p.index);
    RepeatedIsSkipped(sel, s, c);
    TextOfList(options);
    var rest := if more == [] then [] else [COMMA] + Encode(more);
    assert EncodeOption(o) + [] == EncodeOption(o);
    var t := SelectCall(sel, s, c).0;
    var q := SkipEarly(o, rest, p, s, SelectStep(sel));
    if HoldsComma(o.params[1..]) {
      SkipLeft(o, rest);
      TailIsWritten(o);
      var w, tail := SkipIntoParams(o.params[1..], rest);
      if AllPlain(options) {
        StuckInValue(w, tail, q, t, SelectStep(sel));
      }
    } else {
      SkipIsExact(o, more);
      ChooseAll(sel, more, q, t);
      PlainTail(options, 1);
    }
  }

  // ---------- the theorems ----------

  function Unique(check: Check, data: Bytes, before: seq<Opt>): (seq<Opt>, bool) {
    Selected(Selector(check, true), data, before)
  }

  /**
  What `SelectUnique` makes of a written list.  When the scan resumes inside a value that
  has no further comma or semicolon, the header is called malformed.
  */
  lemma {:induction false} SelectUniqueOutcome(check: Check, before: seq<Opt>, options: seq<Opt>)
    requires Writable(options)
    ensures
      match Outcome(check, before, options)
      case Some(selected) => Unique(check, Encode(options), before) == (selected, true)
      case None => AllPlain(options) ==> !Unique(check, Encode(options), before).1
  {
    ChooseAll(Selector(check, true), options, START, SelectVars(before, Opt([], []), false, -1));
  }

  lemma {:induction false} NoTroubleMeans(check: Check, done: seq<Opt>, options: seq<Opt>)
    requires FirstTrouble(check, done, options) == NoTrouble
    ensures Outcome(check, done, options) == Some(Firsts(check, done, options))
    decreases |options|
  {
    if options != [] {
      var o, more := options[0], options[1..];
      if !NameTaken(done, o.name) {
        NoTroubleMeans(check, Added(check, done, o), more);
      } else if !Late(o) || more == [] {
        NoTroubleMeans(check, done, more);
      } else {
        NoTroubleMeans(check, done, more[1..]);
      }
    }
  }

  /**
  On every written list, whatever was selected before and whatever the check, the
  selection is the first option of each name that passes, if no skip goes wrong.
  */
  lemma {:induction false} SelectUniqueMeans(check: Check, before: seq<Opt>, options: seq<Opt>)
    requires Writable(options) && FirstTrouble(check, before, options) == NoTrouble
    ensures Unique(check, Encode(options), before) == (Firsts(check, before, options), true)
  {
    SelectUniqueOutcome(check, before, options);
    NoTroubleMeans(check, before, options);
  }

  /** The names of an outcome are those there were and those of the list. */
  lemma {:induction false} OutcomeNames(check: Check, done: seq<Opt>, options: seq<Opt>, name: Bytes)
    requires Outcome(check, done, options).Some? && !NameTaken(done, name) && !NameTaken(options, name)
    ensures !NameTaken(Outcome(check, done, options).value, name)
    decreases |options|
  {
    if options != [] {
      var o, more := options[0], options[1..];
      assert forall i :: 0 <= i < |more| ==> more[i] == options[i + 1];
      if !NameTaken(done, o.name) {
        OutcomeNames(check, Added(check, done, o), more, name);
      } else if !Late(o) {
        OutcomeNames(check, done, more, name);
      } else if more != [] {
        assert forall i :: 0 <= i < |more[1..]| ==> more[1..][i] == options[i + 2];
        OutcomeNames(check, done, more[1..], name);
      }
    }
  }

  lemma {:induction false} FirstsKeep(check: Check, done: seq<Opt>, options: seq<Opt>, name: Bytes)
    requires NameTaken(done, name)
    ensures NameTaken(Firsts(check, done, options), name)
    decreases |options|
  {
    if options != [] {
      var o := options[0];
      var i :| 0 <= i < |done| && done[i].name == name;
      assert (done + [o])[i].name == name;
      FirstsKeep(check, if !NameTaken(done, o.name) && check(o) then done + [o] else done, options[1..], name);
    }
  }

  /** A name that was swallowed, and does not come again, is missing. */
  lemma {:induction false} SwallowedIsMissing(check: Check, done: seq<Opt>, options: seq<Opt>)
    requires FirstTrouble(check, done, options).Swallowed?
    requires
      var trouble := FirstTrouble(check, done, options);
      !NameTaken(trouble.rest, trouble.lost.name)
    ensures Outcome(check, done, options) != Some(Firsts(check, done, options))
    decreases |options|
  {
    var o, more := options[0], options[1..];
    if !NameTaken(done, o.name) {
      SwallowedIsMissing(check, Added(check, done, o), more);
    } else if !Late(o) {
      SwallowedIsMissing(check, done, more);
    } else if !NameTaken(done, more[0].name) && check(more[0]) {
      var x, rest := more[0], more[1..];
      assert (done + [x])[|done|].name == x.name;
      FirstsKeep(check, done + [x], rest, x.name);
      assert Firsts(check, done, options) == Firsts(check, done + [x], rest);
      if Outcome(check, done, rest).Some? {
        OutcomeNames(check, done, rest, x.name);
      }
    } else {
      SwallowedIsMissing(check, done, more[1..]);
    }
  }

  lemma {:induction false} InsideValueMeans(check: Check, done: seq<Opt>, options: seq<Opt>)
    requires FirstTrouble(check, done, options).InsideValue?
    ensures Outcome(check, done, options).None?
    decreases |options|
  {
    var o, more := options[0], options[1..];
    if !NameTaken(done, o.name) {
      InsideValueMeans(check, Added(check, done, o), more);
    } else if !Late(o) {
      if !HoldsComma(o.params[1..]) {
        InsideValueMeans(check, done, more);
      }
    } else if !HoldsComma(more[0].params) {
      InsideValueMeans(check, done, more[1..]);
    }
  }

  /** An option that is swallowed does not come again. */
  predicate LostForGood(trouble: Trouble) { trouble.Swallowed? ==> !NameTaken(trouble.rest, trouble.lost.name) }

  /**
  The selection is the documented one if and only if no skip goes wrong.  Two kinds of
  list are not covered, since there a second accident can mend the first: a swallowed
  option that comes again (`SwallowedButFoundAgain`), and a value in which the scan can
  go on behind a comma (`MendedByLuck`).
  */
  lemma {:induction false} SelectUniqueExactly(check: Check, before: seq<Opt>, options: seq<Opt>)
    requires Writable(options) && AllPlain(options) && LostForGood(FirstTrouble(check, before, options))
    ensures Unique(check, Encode(options), before) == (Firsts(check, before, options), true)
      <==> FirstTrouble(check, before, options) == NoTrouble
  {
    SelectUniqueOutcome(check, before, options);
    match FirstTrouble(check, before, options)
    case NoTrouble => SelectUniqueMeans(check, before, options);
    case Swallowed(_, _) => SwallowedIsMissing(check, before, options);
    case InsideValue => InsideValueMeans(check, before, options);
  }

  // ---------- conditions on the list as it stands ----------

  /** Each repeated option is called for before its comma, or is the last, and holds no comma behind its first value. */
  predicate RepeatedAreSafe(before: seq<Opt>, options: seq<Opt>) {
    forall i :: 0 <= i < |options| && NameTaken(before + options[..i], options[i].name) ==>
      if Late(options[i]) then i == |options| - 1 else !HoldsComma(options[i].params[1..])
  }

  lemma {:induction false} SafeMeansNoTrouble(check: Check, done: seq<Opt>, before: seq<Opt>, options: seq<Opt>)
    requires RepeatedAreSafe(before, options)
    requires forall o :: o in done ==> o in before
    ensures FirstTrouble(check, done, options) == NoTrouble
    decreases |options|
  {
    if options != [] {
      var o, more := options[0], options[1..];
      if NameTaken(done, o.name) {
        var i :| 0 <= i < |done| && done[i].name == o.name;
        assert done[i] in before + options[..0];
      }
      SafeTail(before, options);
      SafeMeansNoTrouble(check, if NameTaken(done, o.name) then done else Added(check, done, o), before + [o], more);
    }
  }

  lemma {:induction false} SafeTail(before: seq<Opt>, options: seq<Opt>)
    requires RepeatedAreSafe(before, options) && options != []
    ensures RepeatedAreSafe(before + [options[0]], options[1..])
  {
    var o, more := options[0], options[1..];
    forall i | 0 <= i < |more| && NameTaken(before + [o] + more[..i], more[i].name)
      ensures if Late(more[i]) then i == |more| - 1 else !HoldsComma(more[i].params[1..])
    {
      assert before + [o] + more[..i] == before + options[..i + 1] && options[i + 1] == more[i];
    }
  }

  /** Safe lists, however many options are repeated, come out as documented. */
  lemma {:induction false} SelectUniqueOfSafe(check: Check, before: seq<Opt>, options: seq<Opt>)
    requires Writable(options) && RepeatedAreSafe(before, options)
    ensures Unique(check, Encode(options), before) == (Firsts(check, before, options), true)
  {
    SafeMeansNoTrouble(check, before, before, options);
    SelectUniqueMeans(check, before, options);
  }

  /** One option repeats a name, the others are new. */
  predicate OnlyRepeated(before: seq<Opt>, options: seq<Opt>, r: nat) {
    r < |options| && forall i :: 0 <= i < |options| ==>
      (NameTaken(before + options[..i], options[i].name) <==> i == r)
  }

  lemma {:induction false} SingleTrouble(before: seq<Opt>, options: seq<Opt>, r: nat)
    requires OnlyRepeated(before, options, r)
    ensures LostForGood(FirstTrouble(DEFAULT_CHECK, before, options))
    ensures FirstTrouble(DEFAULT_CHECK, before, options) == NoTrouble ==> RepeatedAreSafe(before, options)
    decreases |options|
  {
    var o, more := options[0], options[1..];
    assert before + options[..0] == before;
    if r > 0 {
      forall i | 0 <= i < |more|
        ensures NameTaken(before + [o] + more[..i], more[i].name) <==> i == r - 1
      {
        assert before + [o] + more[..i] == before + options[..i + 1] && options[i + 1] == more[i];
      }
      SingleTrouble(before + [o], more, r - 1);
      if FirstTrouble(DEFAULT_CHECK, before, options) == NoTrouble {
        SafeHead(before, options);
      }
    } else {
      OthersAreSafe(before, options);
      if !Late(o) {
        SafeMeansNoTrouble(DEFAULT_CHECK, before, before + [o], more);
      } else if more != [] {
        FollowerIsNew(before, options);
      }
    }
  }

  lemma {:induction false} OthersAreSafe(before: seq<Opt>, options: seq<Opt>)
    requires OnlyRepeated(before, options, 0)
    ensures RepeatedAreSafe(before + [options[0]], options[1..])
  {
    var o, more := options[0], options[1..];
    forall i | 0 <= i < |more|
      ensures !NameTaken(before + [o] + more[..i], more[i].name)
    {
      assert before + [o] + more[..i] == before + options[..i + 1] && options[i + 1] == more[i];
    }
  }

  lemma {:induction false} FollowerIsNew(before: seq<Opt>, options: seq<Opt>)
    requires OnlyRepeated(before, options, 0) && |options| > 1
    ensures !NameTaken(before, options[1].name) && !NameTaken(options[2..], options[1].name)
  {
    var x, rest := options[1], options[2..];
    assert before + options[..1] == before + [options[0]];
    assert forall i :: 0 <= i < |before| ==> before[i] == (before + [options[0]])[i];
    forall j | 0 <= j < |rest|
      ensures rest[j].name != x.name
    {
      assert options[j + 2] == rest[j] && (before + options[..j + 2])[|before| + 1] == x;
    }
  }

  lemma {:induction false} SafeHead(before: seq<Opt>, options: seq<Opt>)
    requires options != [] && RepeatedAreSafe(before + [options[0]], options[1..])
    requires !NameTaken(before, options[0].name)
    ensures RepeatedAreSafe(before, options)
  {
    var o, more := options[0], options[1..];
    assert before + options[..0] == before;
    forall i | 0 <= i < |options| && NameTaken(before + options[..i], options[i].name)
      ensures if Late(options[i]) then i == |options| - 1 else !HoldsComma(options[i].params[1..])
    {
      assert i > 0 && before + [o] + more[..i - 1] == before + options[..i] && options[i] == more[i - 1];
    }
  }

  /** With one repetition: as documented if and only if that option is safe. */
  lemma {:induction false} SelectUniqueSingle(before: seq<Opt>, options: seq<Opt>, r: nat)
    requires Writable(options) && AllPlain(options) && OnlyRepeated(before, options, r)
    ensures Unique(DEFAULT_CHECK, Encode(options), before) == (Firsts(DEFAULT_CHECK, before, options), true)
      <==> if Late(options[r]) then r == |options| - 1 else !HoldsComma(options[r].params[1..])
  {
    SingleTrouble(before, options, r);
    SelectUniqueExactly(DEFAULT_CHECK, before, options);
    if RepeatedAreSafe(before, options) {
      SafeMeansNoTrouble(DEFAULT_CHECK, before, before, options);
    }
  }

  // ---------- inputs ----------

  /** `a,a,b`: the comma behind the second name is consumed already, and `b` is lost. */
  lemma {:induction false} SelectUniqueLosesNeighbour(a: Bytes, b: Bytes)
    requires IsTokenWord(a) && IsTokenWord(b) && a != b
    ensures
      var options := [Opt(a, []), Opt(a, []), Opt(b, [])];
      && Unique(DEFAULT_CHECK, Encode(options), []) == ([Opt(a, [])], true)
      && Parsed(Encode(options), []) == (options, true)
  {
    var x, y := Opt(a, []), Opt(b, []);
    var options := [x, x, y];
    RoundTripExactly([], options);
    assert [] + options == options && options[1..] == [x, y] && [x, y][1..] == [y] && [y][1..] == [];
    SelectUniqueOutcome(DEFAULT_CHECK, [], options);
    assert [x][0].name == a && NameTaken([x], a) && [] + [x] == [x];
    assert Outcome(DEFAULT_CHECK, [x], [x, y]) == Some([x]);
  }

  /** `a,a,b,b`: the swallowed `b` comes again, and all is as documented after all. */
  lemma {:induction false} SwallowedButFoundAgain(a: Bytes, b: Bytes)
    requires IsTokenWord(a) && IsTokenWord(b) && a != b
    ensures
      var x, y := Opt(a, []), Opt(b, []);
      && FirstTrouble(DEFAULT_CHECK, [], [x, x, y, y]) == Swallowed(y, [y])
      && Unique(DEFAULT_CHECK, Encode([x, x, y, y]), []) == (Firsts(DEFAULT_CHECK, [], [x, x, y, y]), true)
  {
    var x, y := Opt(a, []), Opt(b, []);
    var options := [x, x, y, y];
    assert options[1..] == [x, y, y] && [x, y, y][1..] == [y, y] && [y, y][1..] == [y] && [y][1..] == [];
    SelectUniqueOutcome(DEFAULT_CHECK, [], options);
    assert [x][0].name == a && NameTaken([x], a) && !NameTaken([x], b) && [] + [x] == [x];
    assert [x, y][1].name == b && NameTaken([x, y], b) && [x, y][0].name == a && NameTaken([x, y], a);
    assert [x] + [y] == [x, y];
    assert FirstTrouble(DEFAULT_CHECK, [x], [x, y, y]) == Swallowed(y, [y]);
    assert Outcome(DEFAULT_CHECK, [x], [x, y, y]) == Outcome(DEFAULT_CHECK, [x], [y]) == Some([x, y]);
    assert Firsts(DEFAULT_CHECK, [x, y], [y]) == [x, y];
    assert Firsts(DEFAULT_CHECK, [x], [y, y]) == [x, y];
    assert Firsts(DEFAULT_CHECK, [x], [x, y, y]) == [x, y];
  }

  lemma {:induction false} NameText(b: Bytes)
    requires IsTokenWord(b)
    ensures Encode([Opt(b, [])]) == b
  {
    assert [Opt(b, [])][1..] == [];
    KeyText(b);
  }

  lemma {:induction false} TokenIsWritable(u: Bytes)
    requires IsTokenWord(u)
    ensures WritableValue(u) && COMMA !in u && QUOTE !in u
  {
    assert forall k :: 0 <= k < |u| ==> IsToken(u[k]);
  }

  lemma {:induction false} ValueBehind(m: Bytes, u: Bytes, w: Bytes, rest: Bytes)
    requires IsTokenWord(m) && BACKSLASH !in u && COMMA !in u
    ensures
      SkipPast(EncodeParams([Pair(m, u + [COMMA] + w)]) + rest, COMMA) == Escaped(w) + [QUOTE] + rest
  {
    var par := Pair(m, u + [COMMA] + w);
    assert [par][1..] == [];
    assert forall i :: 0 <= i < |m| ==> IsToken(m[i]);
    KeyText(m);
    assert EncodeParams([par]) == Head(par) + Sanitized(par.value);
    Assoc(Head(par), Sanitized(par.value), rest);
    SkipOver(Head(par), Sanitized(par.value) + rest);
    SkipIntoQuoted(u, w, rest);
  }

  /** The second option is skipped into its second value, at a comma that is its first. */
  lemma {:induction false} IntoSecondValue(a: Bytes, k: Bytes, u: Bytes, m: Bytes, v: Bytes, b: Bytes, w: Bytes)
    returns (q: Parser, t: SelectVars)
    requires IsTokenWord(a) && IsTokenWord(k) && IsTokenWord(u) && IsTokenWord(m) && IsTokenWord(b) && a != b
    requires WritableValue(v + [COMMA] + w) && COMMA !in v
    ensures
      var options := [Opt(a, []), Opt(a, [Pair(k, u), Pair(m, v + [COMMA] + w)]), Opt(b, [])];
      Scan(Encode(options), START, SelectVars([], Opt([], []), false, -1), SelectStep(Selector(DEFAULT_CHECK, true)))
        == Scan(Escaped(w) + [QUOTE] + ([COMMA] + b), q, t, SelectStep(Selector(DEFAULT_CHECK, true)))
    ensures AtStart(q) && q.ok && t.index < q.index
    ensures t.options == [Opt(a, [])] && !t.has
  {
    hide Scan, LexNext, EncodeParams, EncodeOption, SkipPast;
    var sel := Selector(DEFAULT_CHECK, true);
    var value := v + [COMMA] + w;
    var first, second, third := Opt(a, []), Opt(a, [Pair(k, u), Pair(m, value)]), Opt(b, []);
    var options, s := [first, second, third], SelectVars([], Opt([], []), false, -1);
    assert options[1..] == [second, third] && [second, third][1..] == [third] && [third][1..] == [];
    TextOfList(options);
    TextOfList([second, third]);
    TextOfList([third]);
    TokenIsWritable(u);
    assert WritableOption(second);
    q, t := AddNew(sel, first, [COMMA] + Encode([second, third]), START, s, []);
    q, t := CloseWithComma(sel, Encode([second, third]), q, t, [], first);
    assert [] + [first] == [first] && [first][0].name == a;
    assert Flush(sel, t) == [first] && NameTaken([first], a);
    RepeatedIsSkipped(sel, t, FirstCall(second, q.index));
    ghost var rest := [COMMA] + Encode([third]);
    assert Encode([third]) == b by { NameText(b); }
    var t1 := SelectCall(sel, t, FirstCall(second, q.index)).0;
    q := SkipEarly(second, rest, q, t, SelectStep(sel));
    SkipLeft(second, rest);
    assert second.params[1..] == [Pair(m, value)];
    ValueBehind(m, v, w, rest);
    t := t1;
  }

  /**
  `a,a;k=u;m="v,y",b`: the scan resumes inside the quotes.  An option `y` that the header
  does not hold is selected, `b` is lost, and a well-formed header is called malformed.
  */
  lemma {:induction false} QuotedCommaInvents(a: Bytes, k: Bytes, u: Bytes, m: Bytes, v: Bytes, y: Bytes, b: Bytes)
    requires IsTokenWord(a) && IsTokenWord(k) && IsTokenWord(u) && IsTokenWord(m) && IsTokenWord(v) && IsTokenWord(y)
    requires IsTokenWord(b) && a != b && a != y
    ensures
      var options := [Opt(a, []), Opt(a, [Pair(k, u), Pair(m, v + [COMMA] + y)]), Opt(b, [])];
      && Unique(DEFAULT_CHECK, Encode(options), []) == ([Opt(a, []), Opt(y, [])], false)
      && Parsed(Encode(options), []) == (options, true)
  {
    hide Scan, LexNext, Encode, Classify;
    var options := [Opt(a, []), Opt(a, [Pair(k, u), Pair(m, v + [COMMA] + y)]), Opt(b, [])];
    TokenIsWritable(v);
    TokenIsWritable(y);
    TokenIsWritable(b);
    QuotedIsWritable(v, y);
    TokenIsWritable(u);
    assert WritableOption(options[1]) && Writable(options) && [] + options == options;
    RoundTripExactly([], options);
    var q, t := IntoSecondValue(a, k, u, m, v, b, y);
    assert Escaped(y) == y by { TokenIsPlainText(y); }
    UnclosedQuote(y, [COMMA] + b, q, t);
    assert [Opt(a, [])] + [Opt(y, [])] == [Opt(a, []), Opt(y, [])];
  }

  lemma {:induction false} QuotedIsWritable(v: Bytes, w: Bytes)
    requires IsTokenWord(v) && BACKSLASH !in w && w != [] && w[|w| - 1] != QUOTE && w[|w| - 1] != DEL
    ensures WritableValue(v + [COMMA] + w)
  {
    TokenIsWritable(v);
  }

  lemma {:induction false} TokenIsPlainText(y: Bytes)
    requires AllTokens(y)
    ensures Escaped(y) == y
  {
    if y != [] {
      assert IsToken(y[0]) && forall k :: 0 <= k < |y[1..]| ==> y[1..][k] == y[k + 1];
      TokenIsPlainText(y[1..]);
    }
  }

  /** A name in front of a quote that is never closed. */
  lemma {:induction false} UnclosedQuote(y: Bytes, tail: Bytes, p: Parser, s: SelectVars)
    requires IsTokenWord(y) && QUOTE !in tail && AtStart(p) && s.index < p.index && !s.has
    requires !NameTaken(s.options, y)
    ensures
      var (t, ok) := Scan(y + [QUOTE] + tail, p, s, SelectStep(Selector(DEFAULT_CHECK, true)));
      !ok && Flush(Selector(DEFAULT_CHECK, true), t) == s.options + [Opt(y, [])]
  {
    Assoc(y, [QUOTE], tail);
    LexToken(y, [QUOTE] + tail);
    var q, t := Consume(y, [QUOTE] + tail, p, s, SelectStep(Selector(DEFAULT_CHECK, true)));
    var text := [QUOTE] + tail;
    assert SkipLen(text) == 0 && text[0..] == text && text[1..] == tail;
    assert FirstUnescaped(tail, QUOTE, 0) == -1;
    assert !LexNext(text).ok && LexNext(text).err;
  }

  /**
  `a,a;k=u;m="v,a;j=w",b`: the scan resumes inside the quotes at something that looks
  like the option once more, and the skip from there ends at `b`: all is as documented.
  */
  lemma {:induction false} MendedByLuck(a: Bytes, k: Bytes, u: Bytes, m: Bytes, v: Bytes, j: Bytes, w: Bytes, b: Bytes)
    requires IsTokenWord(a) && IsTokenWord(k) && IsTokenWord(u) && IsTokenWord(m) && IsTokenWord(v) && IsTokenWord(j)
    requires IsTokenWord(w) && IsTokenWord(b) && a != b
    ensures
      var value := v + [COMMA] + EncodeOption(Opt(a, [Pair(j, w)]));
      var options := [Opt(a, []), Opt(a, [Pair(k, u), Pair(m, value)]), Opt(b, [])];
      && FirstTrouble(DEFAULT_CHECK, [], options) == InsideValue
      && Unique(DEFAULT_CHECK, Encode(options), []) == (Firsts(DEFAULT_CHECK, [], options), true)
      && Firsts(DEFAULT_CHECK, [], options) == [Opt(a, []), Opt(b, [])]
  {
    hide Scan, LexNext, EncodeOption, EncodeParams, FirstTrouble, Firsts, Encode, SkipPast, Classify;
    var again := Opt(a, [Pair(j, w)]);
    var text := EncodeOption(again);
    var first, second, third := Opt(a, []), Opt(a, [Pair(k, u), Pair(m, v + [COMMA] + text)]), Opt(b, []);
    var options := [first, second, third];
    OptionText(a, j, w);
    TokenIsWritable(v);
    QuotedIsWritable(v, text);
    var sel := Selector(DEFAULT_CHECK, true);
    var q, t := IntoSecondValue(a, k, u, m, v, b, text);
    assert t.options[0].name == a;
    LuckySkip(again, b, q, t);
    assert [Opt(a, [])] + [Opt(b, [])] == [first, third];
    LuckyList(first, second, third);
  }

  /** The text of an option with one token value needs no escape. */
  lemma {:induction false} OptionText(a: Bytes, j: Bytes, w: Bytes)
    requires IsTokenWord(a) && IsTokenWord(j) && IsTokenWord(w)
    ensures
      var text := EncodeOption(Opt(a, [Pair(j, w)]));
      Escaped(text) == text && BACKSLASH !in text && text != [] && IsToken(text[|text| - 1])
      && text[|text| - 1] != QUOTE && text[|text| - 1] != DEL && WritableOption(Opt(a, [Pair(j, w)]))
  {
    KeyText(a);
    KeyText(j);
    KeyText(w);
    TokenIsWritable(w);
    var ps := [Pair(j, w)];
    assert ps[1..] == [];
    var text := a + (([SEMICOLON] + j + ([EQUALITY] + w)) + []);
    assert EncodeParam(ps[0]) == [SEMICOLON] + j + ([EQUALITY] + w) && EncodeParams([]) == [];
    assert EncodeParams(ps) == EncodeParam(ps[0]) + EncodeParams(ps[1..]);
    assert EncodeOption(Opt(a, ps)) == text;
    assert text == a + [SEMICOLON] + j + [EQUALITY] + w;
    assert forall k :: 0 <= k < |a| ==> IsToken(a[k]);
    assert forall k :: 0 <= k < |j| ==> IsToken(j[k]);
    assert forall k :: 0 <= k < |w| ==> IsToken(w[k]);
    assert forall k :: 0 <= k < |text| ==> text[k] == SEMICOLON || text[k] == EQUALITY || IsToken(text[k]);
    EscapedNone(text);
  }

  lemma {:induction false} LuckySkip(again: Opt, b: Bytes, p: Parser, s: SelectVars)
    requires WritableOption(again) && |again.params| == 1 && again.params[0].value != [] && IsTokenWord(b)
    requires AtStart(p) && p.ok && s.index < p.index && s.options == [Opt(again.name, [])] && !s.has && b != again.name
    ensures
      var sel := Selector(DEFAULT_CHECK, true);
      var (t, ok) := Scan(EncodeOption(again) + [QUOTE] + ([COMMA] + b), p, s, SelectStep(sel));
      ok && Flush(sel, t) == s.options + [Opt(b, [])]
  {
    hide Scan, EncodeOption, SkipPast;
    var sel := Selector(DEFAULT_CHECK, true);
    var rest := [QUOTE] + ([COMMA] + b);
    Assoc(EncodeOption(again), [QUOTE], [COMMA] + b);
    assert s.options[0].name == again.name;
    RepeatedIsSkipped(sel, s, FirstCall(again, p.index));
    var t := SelectCall(sel, s, FirstCall(again, p.index)).0;
    var q := SkipEarly(again, rest, p, s, SelectStep(sel));
    assert Left(again) == [] && [] + rest == rest;
    SkipOver([QUOTE], [COMMA] + b);
    SkipComma(b);
    NameText(b);
    ChooseAll(sel, [Opt(b, [])], q, t);
    assert Outcome(DEFAULT_CHECK, s.options, [Opt(b, [])]) == Some(s.options + [Opt(b, [])]) by {
      assert [Opt(b, [])][1..] == [];
    }
  }

  lemma {:induction false} LuckyList(first: Opt, second: Opt, third: Opt)
    requires first.name == second.name != third.name && first.params == [] && |second.params| == 2
    requires COMMA in second.params[1].value && second.params[0].value != []
    ensures FirstTrouble(DEFAULT_CHECK, [], [first, second, third]) == InsideValue
    ensures Firsts(DEFAULT_CHECK, [], [first, second, third]) == [first, third]
  {
    var options := [first, second, third];
    assert options[1..] == [second, third] && [second, third][1..] == [third] && [third][1..] == [];
    assert [first][0].name == second.name && NameTaken([first], second.name) && !NameTaken([first], third.name);
    assert [] + [first] == [first] && [first] + [third] == [first, third];
    assert second.params[1..][0].value == second.params[1].value;
    assert FirstTrouble(DEFAULT_CHECK, [first], [second, third]) == InsideValue;
    assert Firsts(DEFAULT_CHECK, [first], [second, third]) == Firsts(DEFAULT_CHECK, [first], [third]) == [first, third];
  }
}

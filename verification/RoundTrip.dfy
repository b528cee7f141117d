/**
Reading back what `WriteOptions` writes.  A value survives unless it holds a
backslash (written bare, removed on reading) or ends in an octet that is written
escaped (`RemoveByte` then loses it).  `RoundTripExactly` turns this into an
if-and-only-if over all option lists.
*/
module RoundTrip {
  import opened Octets
  import opened Lexer
  import opened Options
  import opened Writer

  // ---------- which lists survive ----------

  predicate WritableValue(v: Bytes) {
    BACKSLASH !in v && (v != [] ==> v[|v| - 1] != QUOTE && v[|v| - 1] != DEL)
  }

  predicate WritableOption(o: Opt) {
    IsTokenWord(o.name) && forall i :: 0 <= i < |o.params| ==>
      IsTokenWord(o.params[i].key) && WritableValue(o.params[i].value)
  }

  predicate Writable(options: seq<Opt>) {
    options != [] && forall i :: 0 <= i < |options| ==> WritableOption(options[i])
  }

  /** What a value without backslash comes back as. */
  function Kept(v: Bytes): Bytes {
    if v != [] && MustEscape(v[|v| - 1]) then v[..|v| - 1] else v
  }

  predicate ReadableParams(ps: seq<Pair>) {
    forall i :: 0 <= i < |ps| ==> IsTokenWord(ps[i].key) && BACKSLASH !in ps[i].value
  }

  predicate ReadableOption(o: Opt) { IsTokenWord(o.name) && ReadableParams(o.params) }

  predicate Readable(options: seq<Opt>) {
    forall i :: 0 <= i < |options| ==> ReadableOption(options[i])
  }

  function KeptParams(ps: seq<Pair>): (r: seq<Pair>)
    ensures |r| == |ps| && forall i :: 0 <= i < |ps| ==> r[i] == Pair(ps[i].key, Kept(ps[i].value))
  {
    seq(|ps|, i requires 0 <= i < |ps| => Pair(ps[i].key, Kept(ps[i].value)))
  }

  function KeptOptions(options: seq<Opt>): (r: seq<Opt>)
    ensures |r| == |options|
    ensures forall i :: 0 <= i < |options| ==> r[i] == Opt(options[i].name, KeptParams(options[i].params))
  {
    seq(|options|, i requires 0 <= i < |options| => Opt(options[i].name, KeptParams(options[i].params)))
  }

  // ---------- lexing what was written ----------

  lemma {:induction false} LexSeparator(c: Byte, rest: Bytes)
    requires c in {COMMA, SEMICOLON, EQUALITY}
    ensures LexNext([c] + rest) == Lexed(true, false, Separator, [c], 1)
  {
    var p := [c] + rest;
    assert p[0] == c && SkipLen(p) == 0 && p[0..] == p;
    assert TokenSpec(p) == (1, Separator) && p[..1] == [c];
  }

  lemma {:induction false} LexToken(w: Bytes, rest: Bytes)
    requires IsTokenWord(w) && (rest == [] || !IsToken(rest[0]))
    ensures LexNext(w + rest) == Lexed(true, false, Token, w, |w|)
  {
    var p := w + rest;
    assert p[0] == w[0] && IsToken(w[0]);
    assert SkipLen(p) == 0 && p[0..] == p;
    assert p[..|w|] == w;
    TokenRunIs(p, |w|);
  }

  /** Every quote stands right after a backslash. */
  predicate QuotesEscaped(e: Bytes) {
    forall k :: 0 <= k < |e| && e[k] == QUOTE ==> k > 0 && e[k - 1] == BACKSLASH
  }

  lemma {:induction false} QuotesEscapedConcat(a: Bytes, b: Bytes)
    requires QuotesEscaped(a) && QuotesEscaped(b)
    ensures QuotesEscaped(a + b)
  {
    var e := a + b;
    forall k | 0 <= k < |e| && e[k] == QUOTE
      ensures k > 0 && e[k - 1] == BACKSLASH
    {
      if k >= |a| {
        assert b[k - |a|] == QUOTE;
      }
    }
  }

  function EscapedOne(c: Byte): Bytes {
    if MustEscape(c) then [BACKSLASH, c] else [c]
  }

  lemma {:induction false} WithoutEscape(c: Byte)
    requires c != BACKSLASH
    ensures Without(EscapedOne(c), BACKSLASH) == [c]
    ensures QuotesEscaped(EscapedOne(c))
  {
    if MustEscape(c) {
      assert [BACKSLASH, c][1..] == [c];
    }
    assert [c][1..] == [];
  }

  lemma {:induction false} EscapedShape(v: Bytes)
    requires BACKSLASH !in v
    ensures Without(Escaped(v), BACKSLASH) == v && QuotesEscaped(Escaped(v))
  {
    if v != [] {
      EscapedShape(v[1..]);
      WithoutConcat(EscapedOne(v[0]), Escaped(v[1..]), BACKSLASH);
      assert v[0] in v;
      WithoutEscape(v[0]);
      QuotesEscapedConcat(EscapedOne(v[0]), Escaped(v[1..]));
      assert v == [v[0]] + v[1..];
    }
  }

  lemma {:induction false} EscapedLast(v: Bytes)
    requires v != []
    ensures Escaped(v) == Escaped(v[..|v| - 1]) + EscapedOne(v[|v| - 1])
  {
    var n := |v| - 1;
    assert v == v[..n] + [v[n]];
    EscapedConcat(v[..n], [v[n]]);
    assert [v[n]][1..] == [];
  }

  lemma {:induction false} RemovedTail(a: Bytes, c: Byte)
    requires c != BACKSLASH
    ensures Removed(a + [BACKSLASH, c], BACKSLASH) == Without(a, BACKSLASH)
    ensures a == [] || a[|a| - 1] != BACKSLASH ==> Removed(a + [c], BACKSLASH) == Without(a, BACKSLASH) + [c]
  {
    var e := a + [BACKSLASH, c];
    assert e[..|e| - 1] == a + [BACKSLASH];
    WithoutConcat(a, [BACKSLASH], BACKSLASH);
    assert Without([BACKSLASH], BACKSLASH) == [];
    WithoutConcat(a, [c], BACKSLASH);
    WithoutNone([c], BACKSLASH);
  }

  /** Removing the escapes gives the value back, but for a last octet that was escaped. */
  lemma {:induction false} UnescapeKeeps(v: Bytes)
    requires BACKSLASH !in v && v != []
    ensures Removed(Escaped(v), BACKSLASH) == Kept(v)
  {
    var n := |v| - 1;
    assert v[n] in v && v == v[..n] + [v[n]];
    EscapedLast(v);
    EscapedShape(v[..n]);
    if n > 0 {
      EscapedLast(v[..n]);
      assert v[n - 1] in v;
    }
    RemovedTail(Escaped(v[..n]), v[n]);
  }

  lemma {:induction false} LexQuotedText(e: Bytes, rest: Bytes)
    requires QuotesEscaped(e) && e != [] && e[|e| - 1] != BACKSLASH
    ensures LexNext([QUOTE] + e + [QUOTE] + rest)
         == Lexed(true, false, String, Removed(e, BACKSLASH), |e| + 2)
  {
    var p := [QUOTE] + e + [QUOTE] + rest;
    assert SkipLen(p) == 0 && p[0..] == p;
    var q := p[1..];
    assert forall k :: 0 <= k < |e| ==> q[k] == e[k];
    FirstUnescapedIs(q, QUOTE, |e|);
    assert p[1..1 + |e|] == e;
  }

  lemma {:induction false} LexQuoted(v: Bytes, rest: Bytes)
    requires BACKSLASH !in v && v != []
    ensures LexNext([QUOTE] + Escaped(v) + [QUOTE] + rest)
         == Lexed(true, false, String, Kept(v), |Escaped(v)| + 2)
  {
    EscapedShape(v);
    EscapedLast(v);
    assert v[|v| - 1] in v;
    UnescapeKeeps(v);
    LexQuotedText(Escaped(v), rest);
  }

  /** A written value is read back as one item, token or string. */
  lemma {:induction false} LexValue(v: Bytes, rest: Bytes)
    requires v != [] && BACKSLASH !in v && (rest == [] || !IsToken(rest[0]))
    ensures
      var l := LexNext(Sanitized(v) + rest);
      l.ok && !l.err && l.kind in {Token, String} && l.item == Kept(v) && l.n == |Sanitized(v)|
  {
    if AllTokens(v) {
      LexToken(v, rest);
      assert IsToken(v[|v| - 1]);
    } else {
      LexQuoted(v, rest);
    }
  }

  // ---------- the parser on what was written ----------

  function Go(rest: Bytes, p: Parser, s: ParseVars): (ParseVars, bool) { Scan(rest, p, s, ParseStep) }

  /** One item consumed, when the call it may lead to is answered by Continue. */
  lemma {:induction false} Consume<S>(head: Bytes, rest: Bytes, p: Parser, s: S, it: Callback<S>)
    returns (q: Parser, t: S)
    requires
      var l := LexNext(head + rest);
      var a := React(p, l.kind, l.item);
      l.ok && l.n == |head| && a.Accept? && (a.call ==> it(s, a.next.Args()).1 == Continue)
    ensures
      var l := LexNext(head + rest);
      var a := React(p, l.kind, l.item);
      && q == (if a.call then a.next.Called(a.grow) else a.next)
      && t == (if a.call then it(s, a.next.Args()).0 else s)
    ensures Scan(head + rest, p, s, it) == Scan(rest, q, t, it)
  {
    var l := LexNext(head + rest);
    assert (head + rest)[l.n..] == rest;
    var Accept(next, call, grow) := React(p, l.kind, l.item);
    if call {
      q, t := next.Called(grow), it(s, next.Args()).0;
    } else {
      q, t := next, s;
    }
  }

  lemma {:induction false} Step(head: Bytes, rest: Bytes, p: Parser, s: ParseVars) returns (q: Parser, t: ParseVars)
    requires
      var l := LexNext(head + rest);
      l.ok && l.n == |head| && React(p, l.kind, l.item).Accept?
    ensures
      var l := LexNext(head + rest);
      var a := React(p, l.kind, l.item);
      && q == (if a.call then a.next.Called(a.grow) else a.next)
      && t == (if a.call then ParseStep(s, a.next.Args()).0 else s)
    ensures Go(head + rest, p, s) == Go(rest, q, t)
  {
    q, t := Consume(head, rest, p, s, ParseStep);
  }

  /** The list once the call still owed has been made. */
  function Flushed(p: Parser, s: ParseVars): seq<Opt> {
    if p.mustCall then ParseStep(s, p.Args()).0.options else s.options
  }

  /** Between two parts of an option, with `done` the list read so far. */
  ghost predicate InOption(p: Parser, s: ParseVars, done: seq<Opt>) {
    && p.value == [] && done != []
    && (p.phase == ParamBeforeName || p.phase == ParamBeforeValue)
    && (p.phase == ParamBeforeName ==> p.param == [])
    && (p.phase == ParamBeforeValue ==> p.mustCall && p.param != [])
    && (!p.mustCall ==> p.ok && s.index == p.index)
    && s.index <= p.index && (s.index == p.index ==> s.options != [] && s.i == |s.options| - 1)
    && Flushed(p, s) == done
  }

  function AddParam(done: seq<Opt>, par: Pair): (r: seq<Opt>)
    requires done != []
    ensures r != [] && |r| == |done|
  {
    var n := |done| - 1;
    done[..n] + [done[n].(params := done[n].params + [par])]
  }

  function AddParams(done: seq<Opt>, ps: seq<Pair>): seq<Opt>
    requires done != []
  {
    var n := |done| - 1;
    done[..n] + [done[n].(params := done[n].params + ps)]
  }

  lemma {:induction false} ReadKey(par: Pair, rest: Bytes, p: Parser, s: ParseVars, done: seq<Opt>)
    returns (q: Parser, t: ParseVars)
    requires InOption(p, s, done) && IsTokenWord(par.key) && (rest == [] || !IsToken(rest[0]))
    ensures Go([SEMICOLON] + par.key + rest, p, s) == Go(rest, q, t)
    ensures q.phase == ParamBeforeValue && q.param == par.key && q.value == [] && q.mustCall && q.index == p.index
    ensures t.index <= q.index && (t.index == q.index ==> t.options != [] && t.i == |t.options| - 1)
    ensures (if t.index == q.index then t.options else t.options + [Opt(q.key, [])]) == done
  {
    hide Go;
    hide LexNext;
    assert [SEMICOLON] + par.key + rest == [SEMICOLON] + (par.key + rest);
    LexSeparator(SEMICOLON, par.key + rest);
    var q1, t1 := Step([SEMICOLON], par.key + rest, p, s);
    LexToken(par.key, rest);
    q, t := Step(par.key, rest, q1, t1);
  }

  lemma {:induction false} ReadValue(w: Bytes, item: Bytes, rest: Bytes, p: Parser, s: ParseVars)
    returns (q: Parser, t: ParseVars)
    requires p.phase == ParamBeforeValue
    requires
      var l := LexNext(w + rest);
      l.ok && l.kind in {Token, String} && l.item == item && l.n == |w|
    ensures Go([EQUALITY] + w + rest, p, s) == Go(rest, q, t)
    ensures q == p.(value := item, phase := ParamBeforeName).Called(0)
    ensures t == ParseStep(s, p.(value := item).Args()).0
  {
    hide Go, LexNext, ParseStep;
    Assoc([EQUALITY], w, rest);
    LexSeparator(EQUALITY, w + rest);
    var q1, t1 := Step([EQUALITY], w + rest, p, s);
    q, t := Step(w, rest, q1, t1);
  }

  lemma {:induction false} ReadParam(par: Pair, rest: Bytes, p: Parser, s: ParseVars, done: seq<Opt>)
    returns (q: Parser, t: ParseVars)
    requires InOption(p, s, done) && IsTokenWord(par.key) && BACKSLASH !in par.value
    requires rest == [] || !IsToken(rest[0])
    ensures Go(EncodeParam(par) + rest, p, s) == Go(rest, q, t) && q.index == p.index
    ensures InOption(q, t, AddParam(done, Pair(par.key, Kept(par.value))))
  {
    hide Go;
    hide LexNext;
    hide ParseStep;
    if par.value == [] {
      assert EncodeParam(par) == [SEMICOLON] + par.key;
      q, t := ReadKey(par, rest, p, s, done);
      OwedParam(q, t, done);
    } else {
      var w := Sanitized(par.value);
      var tail := [EQUALITY] + w + rest;
      Assoc([SEMICOLON] + par.key, [EQUALITY] + w, rest);
      assert tail[0] == EQUALITY;
      var q1, t1 := ReadKey(par, tail, p, s, done);
      LexValue(par.value, rest);
      q, t := ReadValue(w, Kept(par.value), rest, q1, t1);
      OwedParam(q1.(value := Kept(par.value)), t1, done);
    }
  }

  /** Making the call that is owed adds the parameter to the option being read. */
  lemma {:induction false} OwedParam(q: Parser, t: ParseVars, done: seq<Opt>)
    requires done != [] && q.param != []
    requires t.index == q.index ==> t.options != [] && t.i == |t.options| - 1
    requires (if t.index == q.index then t.options else t.options + [Opt(q.key, [])]) == done
    ensures ParseStep(t, q.Args()).0.options == AddParam(done, Pair(q.param, q.value))
    ensures ParseStep(t, q.Args()).0.i == |done| - 1 && ParseStep(t, q.Args()).0.index == q.index
  {
    var n := |done| - 1;
    var o := done[n].(params := done[n].params + [Pair(q.param, q.value)]);
    assert done[n := o] == done[..n] + [o];
  }

  /** Text after a written option: nothing, or a comma. */
  predicate AtBoundary(rest: Bytes) { rest == [] || rest[0] == COMMA }

  lemma {:induction false} ReadParams(ps: seq<Pair>, rest: Bytes, p: Parser, s: ParseVars, done: seq<Opt>)
    returns (q: Parser, t: ParseVars)
    requires InOption(p, s, done) && ReadableParams(ps) && AtBoundary(rest)
    ensures Go(EncodeParams(ps) + rest, p, s) == Go(rest, q, t) && q.index == p.index
    ensures InOption(q, t, AddParams(done, KeptParams(ps)))
    decreases |ps|
  {
    if ps == [] {
      assert [] + rest == rest;
      KeptParamsNone(done);
      q, t := p, s;
    } else {
      var tail := EncodeParams(ps[1..]) + rest;
      Assoc(EncodeParam(ps[0]), EncodeParams(ps[1..]), rest);
      ParamsBegin(ps[1..], rest);
      var q1, t1 := ReadParam(ps[0], tail, p, s, done);
      var par := Pair(ps[0].key, Kept(ps[0].value));
      q, t := ReadParams(ps[1..], rest, q1, t1, AddParam(done, par));
      KeptParamsMore(done, ps);
    }
  }

  lemma {:induction false} ParamsBegin(ps: seq<Pair>, rest: Bytes)
    requires AtBoundary(rest)
    ensures EncodeParams(ps) + rest == [] || !IsToken((EncodeParams(ps) + rest)[0])
  {
  }

  lemma {:induction false} KeptParamsNone(done: seq<Opt>)
    requires done != []
    ensures AddParams(done, KeptParams([])) == done
  {
    var o := done[|done| - 1];
    assert o.params + [] == o.params;
  }

  lemma {:induction false} KeptParamsMore(done: seq<Opt>, ps: seq<Pair>)
    requires done != [] && ps != []
    ensures AddParams(AddParam(done, Pair(ps[0].key, Kept(ps[0].value))), KeptParams(ps[1..]))
         == AddParams(done, KeptParams(ps))
  {
    var n := |done| - 1;
    var par := Pair(ps[0].key, Kept(ps[0].value));
    assert done[n].params + [par] + KeptParams(ps[1..]) == done[n].params + KeptParams(ps);
    assert AddParam(done, par)[..n] == done[..n];
  }

  /** An option read from the start of one. */
  lemma {:induction false} ReadOption(o: Opt, rest: Bytes, p: Parser, s: ParseVars) returns (q: Parser, t: ParseVars)
    requires p.phase == Key && p.param == [] && p.value == [] && s.index < p.index
    requires ReadableOption(o) && AtBoundary(rest)
    ensures Go(EncodeOption(o) + rest, p, s) == Go(rest, q, t) && q.index == p.index
    ensures InOption(q, t, s.options + [Opt(o.name, KeptParams(o.params))])
  {
    hide Go, LexNext, EncodeParams, KeptParams;
    var tail := EncodeParams(o.params) + rest;
    Assoc(o.name, EncodeParams(o.params), rest);
    ParamsBegin(o.params, rest);
    LexToken(o.name, tail);
    var q1, t1 := Step(o.name, tail, p, s);
    var begun := s.options + [Opt(o.name, [])];
    assert InOption(q1, t1, begun);
    q, t := ReadParams(o.params, rest, q1, t1, begun);
    assert begun[..|begun| - 1] == s.options && [] + KeptParams(o.params) == KeptParams(o.params);
  }

  lemma {:induction false} KeptOptionsMore(done: seq<Opt>, options: seq<Opt>)
    requires options != []
    ensures done + [Opt(options[0].name, KeptParams(options[0].params))] + KeptOptions(options[1..])
         == done + KeptOptions(options)
  {
  }

  lemma {:induction false} ReadRest(options: seq<Opt>, p: Parser, s: ParseVars, done: seq<Opt>)
    requires InOption(p, s, done) && Readable(options)
    ensures Go(EncodeRest(options), p, s).0.options == done + KeptOptions(options)
    ensures Go(EncodeRest(options), p, s).1
    decreases |options|
  {
    if options == [] {
      assert LexNext([]) == Lexed(false, false, Undef, [], 0);
      assert done + [] == done;
    } else {
      var tail := EncodeRest(options[1..]);
      var text := EncodeOption(options[0]) + tail;
      Assoc([COMMA], EncodeOption(options[0]), tail);
      LexSeparator(COMMA, text);
      var q, t := Step([COMMA], text, p, s);
      assert t.options == done;
      q, t := ReadOption(options[0], tail, q, t);
      var o := Opt(options[0].name, KeptParams(options[0].params));
      ReadRest(options[1..], q, t, done + [o]);
      KeptOptionsMore(done, options);
    }
  }

  /** Any list with token names and keys and no backslash comes back with its values kept. */
  lemma {:induction false} ParseWritten(before: seq<Opt>, options: seq<Opt>)
    requires options != [] && Readable(options)
    ensures Parsed(Encode(options), before) == (before + KeptOptions(options), true)
  {
    var s := ParseVars(before, 0, -1);
    var q, t := ReadOption(options[0], EncodeRest(options[1..]), START, s);
    var o := Opt(options[0].name, KeptParams(options[0].params));
    ReadRest(options[1..], q, t, before + [o]);
    KeptOptionsMore(before, options);
  }

  // ---------- what can be parsed at all ----------

  ghost predicate SoundVars(p: Parser) {
    && (p.phase != Key || p.mustCall ==> IsTokenWord(p.key))
    && (p.param != [] ==> IsTokenWord(p.param)) && BACKSLASH !in p.value
  }

  ghost predicate ReadableFrom(options: seq<Opt>, k: nat) {
    k <= |options| && forall i :: k <= i < |options| ==> ReadableOption(options[i])
  }

  lemma {:induction false} StepKeepsReadable(p: Parser, s: ParseVars, k: nat)
    requires IsTokenWord(p.key) && SoundVars(p) && ReadableFrom(s.options, k)
    requires s.index < 0 || s.i >= k
    requires p.index >= 0
    ensures
      var t := ParseStep(s, p.Args()).0;
      ReadableFrom(t.options, k) && t.i >= k && t.index >= 0 && t.options[..k] == s.options[..k]
  {
  }

  lemma {:induction false} ScanKeepsReadable(rest: Bytes, p: Parser, s: ParseVars, k: nat)
    requires SoundVars(p) && ReadableFrom(s.options, k) && (s.index < 0 || s.i >= k)
    ensures ReadableFrom(Go(rest, p, s).0.options, k) && Go(rest, p, s).0.options[..k] == s.options[..k]
    decreases |rest|
  {
    var l := LexNext(rest);
    if !l.ok {
      if p.mustCall {
        StepKeepsReadable(p, s, k);
      }
    } else if React(p, l.kind, l.item).Accept? {
      var Accept(q, call, grow) := React(p, l.kind, l.item);
      ReactIsSound(p, l.kind, l.item);
      if call {
        StepKeepsReadable(q, s, k);
        ScanKeepsReadable(rest[l.n..], q.Called(grow), ParseStep(s, q.Args()).0, k);
      } else {
        ScanKeepsReadable(rest[l.n..], q, s, k);
      }
    }
  }

  lemma {:induction false} ReactIsSound(p: Parser, kind: ItemType, v: Bytes)
    requires SoundVars(p) && React(p, kind, v).Accept?
    requires kind == Token ==> IsTokenWord(v)
    requires kind == String ==> BACKSLASH !in v
    ensures
      var a := React(p, kind, v);
      SoundVars(a.next) && (a.call ==> IsTokenWord(a.next.key))
  {
    if kind == Token {
      assert forall i :: 0 <= i < |v| ==> v[i] != BACKSLASH;
    }
  }

  /** On every input, what is parsed has token names and keys and values without backslash. */
  lemma {:induction false} ParsedIsReadable(data: Bytes, before: seq<Opt>)
    ensures ReadableFrom(Parsed(data, before).0, |before|)
    ensures Parsed(data, before).0[..|before|] == before
  {
    ScanKeepsReadable(data, START, ParseVars(before, 0, -1), |before|);
    assert before[..|before|] == before;
  }

  // ---------- the theorem ----------

  lemma {:induction false} Cancel<T>(a: seq<T>, b: seq<T>, c: seq<T>)
    ensures a + b == a + c <==> b == c
  {
    assert (a + b)[|a|..] == b && (a + c)[|a|..] == c;
  }

  lemma {:induction false} KeptIsSame(v: Bytes)
    requires BACKSLASH !in v
    ensures Kept(v) == v <==> WritableValue(v)
  {
  }

  lemma {:induction false} ParseEmpty(before: seq<Opt>)
    ensures Parsed([], before) == (before, false)
  {
    assert LexNext([]) == Lexed(false, false, Undef, [], 0);
  }

  /**
  Writing a list and parsing the text appends exactly that list and succeeds, if and
  only if the list is not empty, its names and keys are tokens, no value holds a
  backslash and no value ends in a quote or DEL.
  */
  lemma {:induction false} RoundTripExactly(before: seq<Opt>, options: seq<Opt>)
    ensures Parsed(Encode(options), before) == (before + options, true) <==> Writable(options)
  {
    if options == [] {
      ParseEmpty(before);
    } else if Readable(options) {
      ParseWritten(before, options);
      var kept := KeptOptions(options);
      forall i, j | 0 <= i < |options| && 0 <= j < |options[i].params|
        ensures kept[i].params[j].value == options[i].params[j].value
            <==> WritableValue(options[i].params[j].value)
      {
        KeptIsSame(options[i].params[j].value);
      }
      if Writable(options) {
        forall i | 0 <= i < |options|
          ensures kept[i] == options[i]
        {
          assert WritableOption(options[i]);
          assert kept[i].params == options[i].params;
        }
        assert kept == options;
      } else {
        Cancel(before, kept, options);
      }
    } else {
      ParsedIsReadable(Encode(options), before);
      if Parsed(Encode(options), before) == (before + options, true) {
        forall i | 0 <= i < |options|
          ensures ReadableOption(options[i])
        {
          assert (before + options)[|before| + i] == options[i];
        }
      }
    }
  }

  /** The same for the methods: any writer that reports no error, any list already there. */
  method WriteThenParse(options: seq<Opt>, before: seq<Opt>, dest: Destination)
    returns (result: seq<Opt>, ok: bool, err: bool)
    requires dest.written == []
    modifies dest
    ensures !err ==> (ok && result == before + options <==> Writable(options))
    ensures !dest.flaky && old(dest.room) >= |Encode(options)| ==> !err
  {
    var n;
    n, err := WriteOptions(dest, options);
    result, ok := ParseOptions(dest.written, before);
    RoundTripExactly(before, options);
  }

  /** A value that is one quote is written as a quoted string and read back empty. */
  lemma {:induction false} QuoteIsLost(name: Bytes, key: Bytes)
    requires IsTokenWord(name) && IsTokenWord(key)
    ensures
      var options := [Opt(name, [Pair(key, [QUOTE])])];
      !Writable(options) && Parsed(Encode(options), []) == ([Opt(name, [Pair(key, [])])], true)
  {
    var options := [Opt(name, [Pair(key, [QUOTE])])];
    assert !WritableValue(options[0].params[0].value) && !WritableOption(options[0]);
    ParseWritten([], options);
    assert KeptParams(options[0].params) == [Pair(key, [])];
    assert [] + KeptOptions(options) == [Opt(name, [Pair(key, [])])];
  }
}

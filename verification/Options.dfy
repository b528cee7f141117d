/**
httphead/httphead.go: the option parser and the functions that feed on it.

A callback of the source is a closure over variables it updates; here it is a
function from the captured state and one call to the new state and the answer.
A nil slice is the empty sequence: tokens are never empty, so `attr != nil` reads
`param != []`.
*/
module Options {
  import opened Octets
  import opened Lexer

  datatype Control = Continue | Break | Skip

  /** The arguments of one callback call. */
  datatype Call = Call(index: nat, key: Bytes, param: Bytes, value: Bytes)

  type Callback<!S> = (S, Call) -> (S, Control)

  datatype Phase = Key | ParamBeforeName | ParamName | ParamBeforeValue | ParamValue

  /** The local variables of `ScanOptions`. */
  datatype Parser = Parser(phase: Phase, index: nat, key: Bytes, param: Bytes, value: Bytes,
                           mustCall: bool, ok: bool)
  {
    function Args(): Call { Call(index, key, param, value) }

    /** The variables after a call was made. */
    function Called(grow: nat): Parser {
      this.(ok := true, param := [], value := [], mustCall := false, index := index + grow)
    }
  }

  const START := Parser(Key, 0, [], [], [], false, false)

  /** What one item does to the variables, and whether a call follows. */
  datatype Reaction = Malformed | Accept(next: Parser, call: bool, grow: nat)

  function React(p: Parser, kind: ItemType, v: Bytes): Reaction {
    match kind
    case Token =>
      (match p.phase
       case Key => Accept(p.(key := v, phase := ParamBeforeName, mustCall := true), false, 0)
       case ParamBeforeName => Accept(p.(key := v, phase := ParamBeforeName, mustCall := true), false, 0)
       case ParamName => Accept(p.(param := v, phase := ParamBeforeValue, mustCall := true), false, 0)
       case ParamValue => Accept(p.(value := v, phase := ParamBeforeName), true, 0)
       case ParamBeforeValue => Malformed)
    case String =>
      if p.phase == ParamValue then Accept(p.(value := v, phase := ParamBeforeName), true, 0) else Malformed
    case Separator =>
      if v == [COMMA] && p.phase == Key then Accept(p, false, 0)
      else if v == [COMMA] && p.phase == ParamBeforeName then
        if p.mustCall then Accept(p.(phase := Key), true, 1)
        else Accept(p.(phase := Key, index := p.index + 1), false, 0)
      else if v == [COMMA] && p.phase == ParamBeforeValue then Accept(p.(phase := Key), true, 1)
      else if v == [SEMICOLON] && p.phase == ParamBeforeName then Accept(p.(phase := ParamName), false, 0)
      else if v == [SEMICOLON] && p.phase == ParamBeforeValue then Accept(p.(phase := ParamName), true, 0)
      else if v == [EQUALITY] && p.phase == ParamBeforeValue then Accept(p.(phase := ParamValue), false, 0)
      else Malformed
    case _ => Malformed
  }

  /** The captured state and the verdict when scanning goes on from `rest` and `p`. */
  function Scan<S>(rest: Bytes, p: Parser, s: S, it: Callback<S>): (S, bool)
    decreases |rest|
  {
    var l := LexNext(rest);
    if !l.ok then
      if p.mustCall then (it(s, p.Args()).0, !l.err) else (s, p.ok && !l.err)
    else
      match React(p, l.kind, l.item)
      case Malformed => (s, false)
      case Accept(q, call, grow) =>
        if !call then Scan(rest[l.n..], q, s, it)
        else
          var (t, control) := it(s, q.Args());
          match control
          case Break => (t, true)
          case Skip => Scan(SkipPast(rest[l.n..], COMMA), q.(phase := Key).Called(grow), t, it)
          case Continue => Scan(rest[l.n..], q.Called(grow), t, it)
  }

  /** The switch of the loop in `ScanOptions`. */
  method Dispatch(p: Parser, t: ItemType, v: Bytes) returns (accepted: bool, q: Parser, call: bool, grow: nat)
    ensures React(p, t, v) == if accepted then Accept(q, call, grow) else Malformed
  {
    q, call, grow, accepted := p, false, 0, true;
    if t == Token {
      if p.phase == Key || p.phase == ParamBeforeName {
        q := q.(key := v, phase := ParamBeforeName, mustCall := true);
      } else if p.phase == ParamName {
        q := q.(param := v, phase := ParamBeforeValue, mustCall := true);
      } else if p.phase == ParamValue {
        q, call := q.(value := v, phase := ParamBeforeName), true;
      } else {
        accepted := false;
      }
    } else if t == String {
      if p.phase != ParamValue {
        accepted := false;
      } else {
        q, call := q.(value := v, phase := ParamBeforeName), true;
      }
    } else if t == Separator {
      if v == [COMMA] && p.phase == Key {
      } else if v == [COMMA] && p.phase == ParamBeforeName {
        q := q.(phase := Key);
        call := p.mustCall;
        if !call {
          q := q.(index := q.index + 1);
        } else {
          grow := 1;
        }
      } else if v == [COMMA] && p.phase == ParamBeforeValue {
        q, grow, call := q.(phase := Key), 1, true;
      } else if v == [SEMICOLON] && p.phase == ParamBeforeName {
        q := q.(phase := ParamName);
      } else if v == [SEMICOLON] && p.phase == ParamBeforeValue {
        q, call := q.(phase := ParamName), true;
      } else if v == [EQUALITY] && p.phase == ParamBeforeValue {
        q := q.(phase := ParamValue);
      } else {
        accepted := false;
      }
    } else {
      accepted := false;
    }
  }

  /** Terminates on every input, whatever the callback answers. */
  method ScanOptions<S>(data: Bytes, it: Callback<S>, captured: S) returns (s: S, result: bool)
    ensures (s, result) == Scan(data, START, captured, it)
  {
    var lexer := new Scanner(data);
    s := captured;
    var p := START;
    ghost var goal := Scan(data, START, captured, it);
    assert lexer.Rest() == data;
    while true
      invariant lexer.Valid() && !lexer.err && fresh(lexer)
      invariant goal == Scan(lexer.Rest(), p, s, it)
      decreases |lexer.Rest()|
    {
      ghost var rest := lexer.Rest();
      var more := lexer.Next();
      if !more {
        break;
      }
      assert lexer.Rest() == rest[LexNext(rest).n..];
      var accepted, q, call, grow := Dispatch(p, lexer.itemType, lexer.itemBytes);
      if !accepted {
        return s, false;
      }
      p := q;
      if call {
        var (after, control) := it(s, p.Args());
        s := after;
        if control == Break {
          return s, true;
        } else if control == Skip {
          p := p.(phase := Key);
          lexer.SkipEscaped(COMMA);
        }
        p := p.Called(grow);
      }
    }
    if p.mustCall {
      var (after, _) := it(s, p.Args());
      return after, !lexer.err;
    }
    return s, p.ok && !lexer.err;
  }

  // ---------- ParseOptions ----------

  datatype Pair = Pair(key: Bytes, value: Bytes)

  /** An option, its `Parameters` read as the list they represent (see module `OptionParameters`). */
  datatype Opt = Opt(name: Bytes, params: seq<Pair>)

  /** The variables the closure of `ParseOptions` captures. */
  datatype ParseVars = ParseVars(options: seq<Opt>, i: nat, index: int)

  function ParseStep(s: ParseVars, c: Call): (ParseVars, Control) {
    var s1 :=
      if c.index != s.index then ParseVars(s.options + [Opt(c.key, [])], |s.options|, c.index) else s;
    var s2 :=
      if c.param != [] && s1.i < |s1.options| then
        var o := s1.options[s1.i];
        s1.(options := s1.options[s1.i := o.(params := o.params + [Pair(c.param, c.value)])])
      else s1;
    (s2, Continue)
  }

  function Parsed(data: Bytes, options: seq<Opt>): (seq<Opt>, bool) {
    var (s, ok) := Scan(data, START, ParseVars(options, 0, -1), ParseStep);
    (s.options, ok)
  }

  method ParseOptions(data: Bytes, options: seq<Opt>) returns (result: seq<Opt>, ok: bool)
    ensures (result, ok) == Parsed(data, options)
  {
    var s;
    s, ok := ScanOptions(data, ParseStep, ParseVars(options, 0, -1));
    result := s.options;
  }

  // ---------- OptionSelector.Select ----------

  /** The selector; `SelectCopy` and `Alloc` do not change the bytes and are not part of it. */
  datatype Selector = Selector(check: Opt -> bool, unique: bool)

  const DEFAULT_CHECK: Opt -> bool := (_: Opt) => true

  datatype SelectVars = SelectVars(options: seq<Opt>, current: Opt, has: bool, index: int)

  predicate NameTaken(options: seq<Opt>, name: Bytes) {
    exists i :: 0 <= i < |options| && options[i].name == name
  }

  function SelectCall(sel: Selector, s: SelectVars, c: Call): (SelectVars, Control) {
    if c.index != s.index then
      var s1 :=
        if s.has && sel.check(s.current) then s.(options := s.options + [s.current], has := false) else s;
      if sel.unique && NameTaken(s1.options, c.key) then (s1, Skip)
      else (SelectVars(s1.options, WithParam(Opt(c.key, []), c), true, c.index), Continue)
    else (s.(current := WithParam(s.current, c)), Continue)
  }

  function SelectStep(sel: Selector): Callback<SelectVars> {
    (s: SelectVars, c: Call) => SelectCall(sel, s, c)
  }

  function WithParam(o: Opt, c: Call): Opt {
    if c.param != [] then o.(params := o.params + [Pair(c.param, c.value)]) else o
  }

  function Flush(sel: Selector, s: SelectVars): seq<Opt> {
    if s.has && sel.check(s.current) then s.options + [s.current] else s.options
  }

  function Selected(sel: Selector, data: Bytes, options: seq<Opt>): (seq<Opt>, bool) {
    var (s, ok) := Scan(data, START, SelectVars(options, Opt([], []), false, -1), SelectStep(sel));
    (Flush(sel, s), ok)
  }

  method Select(sel: Selector, data: Bytes, options: seq<Opt>) returns (result: seq<Opt>, ok: bool)
    ensures (result, ok) == Selected(sel, data, options)
  {
    var s;
    s, ok := ScanOptions(data, SelectStep(sel), SelectVars(options, Opt([], []), false, -1));
    result := s.options;
    if s.has && sel.check(s.current) {
      result := result + [s.current];
    }
  }

  /** The two closures agree: the selector only delays the last option. */
  ghost predicate SameSoFar(parse: ParseVars, select: SelectVars, p: Parser) {
    && parse.index == select.index <= p.index
    && parse.options == select.options + (if select.has then [select.current] else [])
    && (select.index >= 0 ==> select.has && parse.i == |parse.options| - 1)
  }

  lemma {:induction false} ScansAgree(sel: Selector, rest: Bytes, p: Parser, parse: ParseVars, select: SelectVars)
    requires sel == Selector(DEFAULT_CHECK, false) && SameSoFar(parse, select, p)
    ensures
      var (s, ok) := Scan(rest, p, select, SelectStep(sel));
      Scan(rest, p, parse, ParseStep).0.options == Flush(sel, s) && Scan(rest, p, parse, ParseStep).1 == ok
    decreases |rest|
  {
    var l := LexNext(rest);
    if !l.ok {
      StepsAgree(sel, p, 0, parse, select);
    } else if React(p, l.kind, l.item).Accept? {
      var Accept(q, call, grow) := React(p, l.kind, l.item);
      if call {
        StepsAgree(sel, q, grow, parse, select);
        ScansAgree(sel, rest[l.n..], q.Called(grow), ParseStep(parse, q.Args()).0, SelectCall(sel, select, q.Args()).0);
      } else {
        ScansAgree(sel, rest[l.n..], q, parse, select);
      }
    }
  }

  lemma {:induction false} StepsAgree(sel: Selector, q: Parser, grow: nat, parse: ParseVars, select: SelectVars)
    requires sel == Selector(DEFAULT_CHECK, false) && SameSoFar(parse, select, q)
    ensures
      var (s, c) := SelectCall(sel, select, q.Args());
      c == Continue && SameSoFar(ParseStep(parse, q.Args()).0, s, q.Called(grow))
  {
  }

  /** With no check and no flag, selecting is parsing, on well-formed and malformed input alike. */
  lemma {:induction false} SelectAllIsParse(data: Bytes, options: seq<Opt>)
    ensures Selected(Selector(DEFAULT_CHECK, false), data, options) == Parsed(data, options)
  {
    ScansAgree(Selector(DEFAULT_CHECK, false), data, START,
               ParseVars(options, 0, -1), SelectVars(options, Opt([], []), false, -1));
  }

  // ---------- SelectUnique ----------

  predicate DistinctNames(options: seq<Opt>) {
    forall i, j :: 0 <= i < j < |options| ==> options[i].name != options[j].name
  }

  /** What every callback call keeps under `SelectUnique`. */
  ghost predicate UniqueSoFar(s: SelectVars) {
    DistinctNames(s.options) && (s.has ==> !NameTaken(s.options, s.current.name))
  }

  lemma {:induction false} ScanKeepsUnique(sel: Selector, rest: Bytes, p: Parser, s: SelectVars)
    requires sel.unique && UniqueSoFar(s)
    ensures UniqueSoFar(Scan(rest, p, s, SelectStep(sel)).0)
    decreases |rest|
  {
    var l := LexNext(rest);
    if !l.ok {
      StepKeepsUnique(sel, s, p.Args());
    } else if React(p, l.kind, l.item).Accept? {
      var Accept(q, call, grow) := React(p, l.kind, l.item);
      if call {
        StepKeepsUnique(sel, s, q.Args());
        var (t, control) := SelectCall(sel, s, q.Args());
        if control == Skip {
          ScanKeepsUnique(sel, SkipPast(rest[l.n..], COMMA), q.(phase := Key).Called(grow), t);
        } else {
          ScanKeepsUnique(sel, rest[l.n..], q.Called(grow), t);
        }
      } else {
        ScanKeepsUnique(sel, rest[l.n..], q, s);
      }
    }
  }

  lemma {:induction false} StepKeepsUnique(sel: Selector, s: SelectVars, c: Call)
    requires sel.unique && UniqueSoFar(s)
    ensures UniqueSoFar(SelectCall(sel, s, c).0)
    ensures SelectCall(sel, s, c).1 != Break
  {
  }

  /** `SelectUnique` never yields two options of one name, whatever the check and the input. */
  lemma {:induction false} SelectUniqueIsDistinct(sel: Selector, data: Bytes, options: seq<Opt>)
    requires sel.unique && DistinctNames(options)
    ensures DistinctNames(Selected(sel, data, options).0)
  {
    ScanKeepsUnique(sel, data, START, SelectVars(options, Opt([], []), false, -1));
  }

  // ---------- ScanTokens ----------

  /** A callback of `ScanTokens`: false stops the scan. */
  type TokenCallback<!S> = (S, Bytes) -> (S, bool)

  function Tokens<S>(rest: Bytes, seen: bool, s: S, it: TokenCallback<S>): (S, bool)
    decreases |rest|
  {
    var l := LexNext(rest);
    if !l.ok then (s, seen && !l.err)
    else if l.kind == Token then
      var (t, go) := it(s, l.item);
      if !go then (t, true) else Tokens(rest[l.n..], true, t, it)
    else if l.kind == Separator && l.item == [COMMA] then Tokens(rest[l.n..], seen, s, it)
    else (s, false)
  }

  method ScanTokens<S>(data: Bytes, it: TokenCallback<S>, captured: S) returns (s: S, result: bool)
    ensures (s, result) == Tokens(data, false, captured, it)
  {
    var lexer := new Scanner(data);
    s := captured;
    var ok := false;
    assert lexer.Rest() == data;
    while true
      invariant lexer.Valid() && !lexer.err && fresh(lexer)
      invariant Tokens(data, false, captured, it) == Tokens(lexer.Rest(), ok, s, it)
      decreases |lexer.Rest()|
    {
      ghost var rest := lexer.Rest();
      var more := lexer.Next();
      if !more {
        break;
      }
      assert lexer.Rest() == rest[LexNext(rest).n..];
      if lexer.itemType == Token {
        ok := true;
        var (after, go) := it(s, lexer.itemBytes);
        s := after;
        if !go {
          return s, true;
        }
      } else if lexer.itemType == Separator {
        if lexer.itemBytes != [COMMA] {
          return s, false;
        }
      } else {
        return s, false;
      }
    }
    return s, ok && !lexer.err;
  }
}

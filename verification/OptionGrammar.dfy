/**
What `ParseOptions` and `Select` make of a header, on every input: the options by a grammar
over the lexer's items, the verdict by which items may stand next to which, and the selection
as a filter.
*/
module OptionGrammar {
  import opened Octets
  import opened Lexer
  import opened Options

  // ---------- selecting is filtering ----------

  function Passing(check: Opt -> bool, options: seq<Opt>): seq<Opt> {
    if options == [] then []
    else
      var n := |options| - 1;
      Passing(check, options[..n]) + if check(options[n]) then [options[n]] else []
  }

  lemma {:induction false} PassingOneMore(check: Opt -> bool, options: seq<Opt>, o: Opt)
    ensures Passing(check, options + [o]) == Passing(check, options) + if check(o) then [o] else []
  {
    assert (options + [o])[..|options|] == options;
  }

  lemma {:induction false} AllPassing(options: seq<Opt>)
    ensures Passing(DEFAULT_CHECK, options) == options
  {
    if options != [] {
      AllPassing(options[..|options| - 1]);
    }
  }

  /** The selector is one option behind, and has dropped what does not pass. */
  ghost predicate Filtering(check: Opt -> bool, before: seq<Opt>, parse: ParseVars, select: SelectVars, p: Parser) {
    && parse.index == select.index <= p.index
    && if parse.index < 0 then parse.options == [] && !select.has && select.options == before
       else
         && select.has && parse.options != [] && parse.i == |parse.options| - 1
         && select.current == parse.options[parse.i]
         && select.options == before + Passing(check, parse.options[..parse.i])
  }

  lemma {:induction false} StepFilters(
      check: Opt -> bool, before: seq<Opt>, q: Parser, grow: nat, parse: ParseVars, select: SelectVars)
    requires Filtering(check, before, parse, select, q)
    ensures
      var (s, c) := SelectCall(Selector(check, false), select, q.Args());
      c == Continue && Filtering(check, before, ParseStep(parse, q.Args()).0, s, q.Called(grow))
  {
    var next := ParseStep(parse, q.Args()).0;
    if parse.index >= 0 {
      PassingOneMore(check, parse.options[..parse.i], parse.options[parse.i]);
      assert parse.options[..parse.i] + [parse.options[parse.i]] == parse.options;
      assert q.index == parse.index ==> next.options[..next.i] == parse.options[..parse.i];
    }
    assert q.index != parse.index ==> next.options[..next.i] == parse.options;
  }

  lemma {:induction false} FlushFilters(
      check: Opt -> bool, before: seq<Opt>, parse: ParseVars, select: SelectVars, p: Parser)
    requires Filtering(check, before, parse, select, p)
    ensures Flush(Selector(check, false), select) == before + Passing(check, parse.options)
  {
    if parse.index >= 0 {
      PassingOneMore(check, parse.options[..parse.i], parse.options[parse.i]);
      assert parse.options[..parse.i] + [parse.options[parse.i]] == parse.options;
    }
  }

  lemma {:induction false} ScanFilters(
      check: Opt -> bool, before: seq<Opt>, rest: Bytes, p: Parser, parse: ParseVars, select: SelectVars)
    requires Filtering(check, before, parse, select, p)
    ensures
      var (s, ok) := Scan(rest, p, select, SelectStep(Selector(check, false)));
      var (t, accepted) := Scan(rest, p, parse, ParseStep);
      Flush(Selector(check, false), s) == before + Passing(check, t.options) && ok == accepted
    decreases |rest|
  {
    hide LexNext, Filtering, Flush;
    var sel := Selector(check, false);
    var l := LexNext(rest);
    FlushFilters(check, before, parse, select, p);
    if !l.ok {
      StepFilters(check, before, p, 0, parse, select);
      FlushFilters(check, before, ParseStep(parse, p.Args()).0, SelectCall(sel, select, p.Args()).0, p.Called(0));
    } else if React(p, l.kind, l.item).Accept? {
      var Accept(q, call, grow) := React(p, l.kind, l.item);
      StillFiltering(check, before, parse, select, p, l.kind, l.item);
      if call {
        StepFilters(check, before, q, grow, parse, select);
        var next, chosen := ParseStep(parse, q.Args()).0, SelectCall(sel, select, q.Args()).0;
        ScanFilters(check, before, rest[l.n..], q.Called(grow), next, chosen);
      } else {
        ScanFilters(check, before, rest[l.n..], q, parse, select);
      }
    }
  }

  lemma {:induction false} StillFiltering(
      check: Opt -> bool, before: seq<Opt>, parse: ParseVars, select: SelectVars, p: Parser, kind: ItemType, v: Bytes)
    requires Filtering(check, before, parse, select, p) && React(p, kind, v).Accept?
    ensures Filtering(check, before, parse, select, React(p, kind, v).next)
  {
  }

  /**
  Without the unique flag, whatever the check and the input: the options that parsing yields and that
  pass, in order, behind those there before, with the verdict of parsing.
  */
  lemma {:induction false} SelectFilters(check: Opt -> bool, data: Bytes, before: seq<Opt>)
    ensures
      var (options, ok) := Parsed(data, []);
      Selected(Selector(check, false), data, before) == (before + Passing(check, options), ok)
  {
    var select := SelectVars(before, Opt([], []), false, -1);
    ScanFilters(check, before, data, START, ParseVars([], 0, -1), select);
  }

  /** Parsing only adds behind the options there before. */
  lemma {:induction false} ParseAppends(data: Bytes, before: seq<Opt>)
    ensures Parsed(data, before) == (before + Parsed(data, []).0, Parsed(data, []).1)
  {
    SelectFilters(DEFAULT_CHECK, data, before);
    SelectAllIsParse(data, before);
    AllPassing(Parsed(data, []).0);
  }

  // ---------- whatever is selected passes ----------

  ghost predicate OnlyPassing(check: Opt -> bool, before: seq<Opt>, options: seq<Opt>) {
    before <= options && forall i :: |before| <= i < |options| ==> check(options[i])
  }

  lemma {:induction false} ScanSelectsPassing(sel: Selector, before: seq<Opt>, rest: Bytes, p: Parser, s: SelectVars)
    requires OnlyPassing(sel.check, before, s.options)
    ensures OnlyPassing(sel.check, before, Scan(rest, p, s, SelectStep(sel)).0.options)
    decreases |rest|
  {
    hide LexNext, React;
    var l := LexNext(rest);
    if l.ok && React(p, l.kind, l.item).Accept? {
      var Accept(q, call, grow) := React(p, l.kind, l.item);
      if call {
        var (t, control) := SelectCall(sel, s, q.Args());
        if control == Skip {
          ScanSelectsPassing(sel, before, SkipPast(rest[l.n..], COMMA), q.(phase := Key).Called(grow), t);
        } else {
          ScanSelectsPassing(sel, before, rest[l.n..], q.Called(grow), t);
        }
      } else {
        ScanSelectsPassing(sel, before, rest[l.n..], q, s);
      }
    }
  }

  /** With any flag, what is there before stays and all that is added passes the check. */
  lemma {:induction false} SelectedPass(sel: Selector, data: Bytes, before: seq<Opt>)
    ensures
      var options := Selected(sel, data, before).0;
      before <= options && forall i :: |before| <= i < |options| ==> sel.check(options[i])
  {
    ScanSelectsPassing(sel, before, data, START, SelectVars(before, Opt([], []), false, -1));
  }

  // ---------- the unique flag where nothing repeats ----------

  /** The names so far stay where they are. */
  lemma {:induction false} NamesStay(rest: Bytes, p: Parser, s: ParseVars)
    ensures
      var options := Scan(rest, p, s, ParseStep).0.options;
      |s.options| <= |options| && forall i :: 0 <= i < |s.options| ==> options[i].name == s.options[i].name
    decreases |rest|
  {
    hide LexNext, React;
    var l := LexNext(rest);
    if l.ok && React(p, l.kind, l.item).Accept? {
      var Accept(q, call, grow) := React(p, l.kind, l.item);
      if call {
        NamesStay(rest[l.n..], q.Called(grow), ParseStep(s, q.Args()).0);
      } else {
        NamesStay(rest[l.n..], q, s);
      }
    }
  }

  lemma {:induction false} PassingNames(check: Opt -> bool, options: seq<Opt>, name: Bytes)
    requires NameTaken(Passing(check, options), name)
    ensures NameTaken(options, name)
  {
    if options != [] {
      var init, last := options[..|options| - 1], options[|options| - 1];
      var i :| 0 <= i < |Passing(check, options)| && Passing(check, options)[i].name == name;
      if i < |Passing(check, init)| {
        PassingNames(check, init, name);
        var k :| 0 <= k < |init| && init[k].name == name;
        assert options[k].name == name;
      } else {
        assert options[|options| - 1].name == name;
      }
    }
  }

  /** A call for a name that is new in the parse is new in the selection. */
  lemma {:induction false} NewNameIsKept(
      check: Opt -> bool, before: seq<Opt>, q: Parser, parse: ParseVars, select: SelectVars)
    requires Filtering(check, before, parse, select, q)
    requires q.index != select.index ==> !NameTaken(before, q.key) && !NameTaken(parse.options, q.key)
    ensures SelectCall(Selector(check, true), select, q.Args()) == SelectCall(Selector(check, false), select, q.Args())
  {
    hide Passing;
    FlushFilters(check, before, parse, select, q);
    var options := Flush(Selector(check, false), select);
    if q.index != select.index && NameTaken(options, q.key) {
      var i :| 0 <= i < |options| && options[i].name == q.key;
      if i >= |before| {
        assert Passing(check, parse.options)[i - |before|].name == q.key;
        PassingNames(check, parse.options, q.key);
      }
    }
  }

  /** The names of the whole parse are new and distinct. */
  ghost predicate AllNew(before: seq<Opt>, options: seq<Opt>) {
    DistinctNames(options) && forall i :: 0 <= i < |options| ==> !NameTaken(before, options[i].name)
  }

  lemma {:induction false} NameIsNew(before: seq<Opt>, q: Parser, grow: nat, parse: ParseVars, rest: Bytes)
    requires AllNew(before, Scan(rest, q.Called(grow), ParseStep(parse, q.Args()).0, ParseStep).0.options)
    requires q.index != parse.index
    ensures !NameTaken(before, q.key) && !NameTaken(parse.options, q.key)
  {
    hide Scan;
    var next := ParseStep(parse, q.Args()).0;
    NamesStay(rest, q.Called(grow), next);
    var k := |parse.options|;
    assert next.options[k].name == q.key;
    assert forall i :: 0 <= i < k ==> next.options[i].name == parse.options[i].name;
  }

  lemma {:induction false} ScanUniqueAlike(
      check: Opt -> bool, before: seq<Opt>, rest: Bytes, p: Parser, parse: ParseVars, select: SelectVars)
    requires Filtering(check, before, parse, select, p)
    requires AllNew(before, Scan(rest, p, parse, ParseStep).0.options)
    ensures
      var (s, ok) := Scan(rest, p, select, SelectStep(Selector(check, true)));
      Flush(Selector(check, true), s) == before + Passing(check, Scan(rest, p, parse, ParseStep).0.options)
      && ok == Scan(rest, p, parse, ParseStep).1
    decreases |rest|
  {
    hide LexNext, Filtering, Flush, AllNew, ParseStep, SelectCall;
    var l := LexNext(rest);
    FlushIsAlike(check, select);
    FlushFilters(check, before, parse, select, p);
    if !l.ok {
      if p.mustCall {
        LastUniqueAlike(check, before, p, parse, select);
      }
    } else if React(p, l.kind, l.item).Accept? {
      var Accept(q, call, grow) := React(p, l.kind, l.item);
      StillFiltering(check, before, parse, select, p, l.kind, l.item);
      if call {
        GoesOn(parse, q.Args());
        StepFilters(check, before, q, grow, parse, select);
        SameIndex(check, before, parse, select, q);
        if q.index != parse.index {
          NameIsNew(before, q, grow, parse, rest[l.n..]);
        }
        NewNameIsKept(check, before, q, parse, select);
        var next, chosen := ParseStep(parse, q.Args()).0, SelectCall(Selector(check, true), select, q.Args()).0;
        ScanUniqueAlike(check, before, rest[l.n..], q.Called(grow), next, chosen);
      } else {
        ScanUniqueAlike(check, before, rest[l.n..], q, parse, select);
      }
    }
  }

  lemma {:induction false} GoesOn(parse: ParseVars, c: Call)
    ensures ParseStep(parse, c).1 == Continue
  {
  }

  lemma {:induction false} SameIndex(
      check: Opt -> bool, before: seq<Opt>, parse: ParseVars, select: SelectVars, q: Parser)
    requires Filtering(check, before, parse, select, q)
    ensures parse.index == select.index
  {
  }

  lemma {:induction false} FlushIsAlike(check: Opt -> bool, s: SelectVars)
    ensures Flush(Selector(check, true), s) == Flush(Selector(check, false), s)
  {
  }

  lemma {:induction false} LastUniqueAlike(
      check: Opt -> bool, before: seq<Opt>, p: Parser, parse: ParseVars, select: SelectVars)
    requires Filtering(check, before, parse, select, p)
    requires AllNew(before, ParseStep(parse, p.Args()).0.options)
    ensures
      Flush(Selector(check, true), SelectCall(Selector(check, true), select, p.Args()).0)
      == before + Passing(check, ParseStep(parse, p.Args()).0.options)
  {
    hide Passing, Flush, SelectCall;
    var next := ParseStep(parse, p.Args()).0;
    SameIndex(check, before, parse, select, p);
    if p.index != parse.index {
      assert next.options[|parse.options|].name == p.key;
      assert forall i :: 0 <= i < |parse.options| ==> next.options[i].name == parse.options[i].name;
    }
    NewNameIsKept(check, before, p, parse, select);
    StepFilters(check, before, p, 0, parse, select);
    var s := SelectCall(Selector(check, false), select, p.Args()).0;
    FlushFilters(check, before, next, s, p.Called(0));
    FlushIsAlike(check, s);
  }

  /** On any input whose names are new and all different, the unique flag makes no difference. */
  lemma {:induction false} SelectUniqueOfDistinct(check: Opt -> bool, data: Bytes, before: seq<Opt>)
    requires AllNew(before, Parsed(data, []).0)
    ensures Selected(Selector(check, true), data, before) == Selected(Selector(check, false), data, before)
  {
    hide Scan, AllNew;
    SelectFilters(check, data, before);
    var select := SelectVars(before, Opt([], []), false, -1);
    ScanUniqueAlike(check, before, data, START, ParseVars([], 0, -1), select);
  }

  // ---------- the items of a header ----------

  datatype Item = Item(kind: ItemType, text: Bytes)

  /** The items up to where the lexer stops, and whether it stops at an error. */
  function Items(rest: Bytes): (seq<Item>, bool)
    decreases |rest|
  {
    var l := LexNext(rest);
    if !l.ok then ([], l.err)
    else
      var (more, err) := Items(rest[l.n..]);
      ([Item(l.kind, l.item)] + more, err)
  }

  /** `Scan` on the items, for a callback that always goes on. */
  function ScanItems<S>(items: seq<Item>, err: bool, p: Parser, s: S, it: Callback<S>): (S, bool) {
    if items == [] then
      if p.mustCall then (it(s, p.Args()).0, !err) else (s, p.ok && !err)
    else
      match React(p, items[0].kind, items[0].text)
      case Malformed => (s, false)
      case Accept(q, call, grow) =>
        if call then ScanItems(items[1..], err, q.Called(grow), it(s, q.Args()).0, it)
        else ScanItems(items[1..], err, q, s, it)
  }

  lemma {:induction false} ScanIsOfItems<S(!new)>(rest: Bytes, p: Parser, s: S, it: Callback<S>)
    requires forall t, c :: it(t, c).1 == Continue
    ensures Scan(rest, p, s, it) == ScanItems(Items(rest).0, Items(rest).1, p, s, it)
    decreases |rest|
  {
    hide LexNext, React;
    var l := LexNext(rest);
    if l.ok && React(p, l.kind, l.item).Accept? {
      var items := Items(rest).0;
      assert items[0] == Item(l.kind, l.item) && items[1..] == Items(rest[l.n..]).0;
      var Accept(q, call, grow) := React(p, l.kind, l.item);
      if call {
        ScanIsOfItems(rest[l.n..], q.Called(grow), it(s, q.Args()).0, it);
      } else {
        ScanIsOfItems(rest[l.n..], q, s, it);
      }
    }
  }

  // ---------- the verdict ----------

  predicate Mark(item: Item, c: Byte) { item.kind == Separator && item.text == [c] }

  /** A parameter name: the token behind a semicolon. */
  predicate IsParamName(items: seq<Item>, k: int) {
    0 < k < |items| && items[k].kind == Token && Mark(items[k - 1], SEMICOLON)
  }

  /** Whether an item may stand behind those in front of it. */
  predicate WellPlaced(items: seq<Item>, k: nat)
    requires k < |items|
  {
    match items[k].kind
    case Token => !IsParamName(items, k - 1)
    case String => k > 0 && Mark(items[k - 1], EQUALITY)
    case Separator =>
      || (Mark(items[k], COMMA) && (k > 0 ==> !Mark(items[k - 1], SEMICOLON) && !Mark(items[k - 1], EQUALITY)))
      || (Mark(items[k], SEMICOLON) && k > 0 && (items[k - 1].kind == Token || items[k - 1].kind == String))
      || (Mark(items[k], EQUALITY) && IsParamName(items, k - 1))
    case _ => false
  }

  /** The state in front of item k, told from the one or two items before it. */
  function PhaseAt(items: seq<Item>, k: nat): Phase
    requires k <= |items|
  {
    if k == 0 || Mark(items[k - 1], COMMA) then Key
    else if Mark(items[k - 1], SEMICOLON) then ParamName
    else if Mark(items[k - 1], EQUALITY) then ParamValue
    else if IsParamName(items, k - 1) then ParamBeforeValue
    else ParamBeforeName
  }

  predicate AnyToken(items: seq<Item>) { exists k :: 0 <= k < |items| && items[k].kind == Token }

  lemma {:induction false} ReactsWhereWellPlaced(items: seq<Item>, k: nat, p: Parser)
    requires k < |items| && p.phase == PhaseAt(items, k) && (p.phase != Key ==> p.ok || p.mustCall)
    requires forall j :: 0 <= j < k ==> WellPlaced(items, j)
    ensures React(p, items[k].kind, items[k].text).Accept? <==> WellPlaced(items, k)
    ensures
      var r := React(p, items[k].kind, items[k].text);
      r.Accept? ==>
        && r.next.phase == PhaseAt(items, k + 1)
        && (r.next.phase != Key ==> r.call || r.next.mustCall || r.next.ok)
        && (r.call || r.next.mustCall || r.next.ok <==> p.ok || p.mustCall || items[k].kind == Token)
  {
    assert k > 0 ==> WellPlaced(items, k - 1);
  }

  lemma {:induction false} VerdictFrom<S>(items: seq<Item>, k: nat, err: bool, p: Parser, s: S, it: Callback<S>)
    requires k <= |items| && p.phase == PhaseAt(items, k) && (p.phase != Key ==> p.ok || p.mustCall)
    requires forall j :: 0 <= j < k ==> WellPlaced(items, j)
    requires p.ok || p.mustCall <==> AnyToken(items[..k])
    ensures
      ScanItems(items[k..], err, p, s, it).1
      <==> && !err && AnyToken(items)
           && forall j {:trigger WellPlaced(items, j)} :: k <= j < |items| ==> WellPlaced(items, j)
    decreases |items| - k
  {
    hide React, WellPlaced, PhaseAt;
    if k == |items| {
      assert items[k..] == [] && items[..k] == items;
    } else {
      ReactsWhereWellPlaced(items, k, p);
      assert items[k..][0] == items[k] && items[k..][1..] == items[k + 1..];
      var r := React(p, items[k].kind, items[k].text);
      if r.Accept? {
        TokensUpTo(items, k);
        if r.call {
          VerdictFrom(items, k + 1, err, r.next.Called(r.grow), it(s, r.next.Args()).0, it);
        } else {
          VerdictFrom(items, k + 1, err, r.next, s, it);
        }
      }
    }
  }

  lemma {:induction false} TokensUpTo(items: seq<Item>, k: nat)
    requires k < |items|
    ensures AnyToken(items[..k + 1]) <==> AnyToken(items[..k]) || items[k].kind == Token
  {
    if AnyToken(items[..k]) {
      var j :| 0 <= j < k && items[..k][j].kind == Token;
      assert items[..k + 1][j].kind == Token;
    }
    if items[k].kind == Token {
      assert items[..k + 1][k].kind == Token;
    }
    if AnyToken(items[..k + 1]) && items[k].kind != Token {
      var j :| 0 <= j < k + 1 && items[..k + 1][j].kind == Token;
      assert items[..k][j].kind == Token;
    }
  }

  /** The header is accepted: the lexer reads it to its end, every item may stand where it does, and one is a token. */
  ghost predicate Accepted(data: Bytes) {
    var (items, err) := Items(data);
    !err && AnyToken(items) && forall j {:trigger WellPlaced(items, j)} :: 0 <= j < |items| ==> WellPlaced(items, j)
  }

  /** The verdict of a scan whose callback always goes on. */
  lemma {:induction false} VerdictMeans<S(!new)>(data: Bytes, s: S, it: Callback<S>)
    requires forall t, c :: it(t, c).1 == Continue
    ensures Scan(data, START, s, it).1 <==> Accepted(data)
  {
    hide Scan, ScanItems, WellPlaced;
    ScanIsOfItems(data, START, s, it);
    var (items, err) := Items(data);
    assert items[0..] == items && items[..0] == [];
    VerdictFrom(items, 0, err, START, s, it);
  }

  // ---------- answering Break ----------

  /** Counts the calls and breaks at the one numbered `stop`, or never if that is 0. */
  function Counting(stop: nat): Callback<nat> {
    (n: nat, _: Call) => (n + 1, if n + 1 == stop then Break else Continue)
  }

  lemma {:induction false} BreakEarlyFrom(rest: Bytes, p: Parser, n: nat, stop: nat)
    requires n < stop <= Scan(rest, p, n, Counting(0)).0
    ensures
      var (all, ok) := Scan(rest, p, n, Counting(0));
      var (calls, verdict) := Scan(rest, p, n, Counting(stop));
      calls == stop && (stop < all || ok ==> verdict)
    decreases |rest|
  {
    hide LexNext, React;
    var l := LexNext(rest);
    if l.ok && React(p, l.kind, l.item).Accept? {
      var Accept(q, call, grow) := React(p, l.kind, l.item);
      if !call {
        BreakEarlyFrom(rest[l.n..], q, n, stop);
      } else if n + 1 < stop {
        BreakEarlyFrom(rest[l.n..], q.Called(grow), n + 1, stop);
      }
    }
  }

  /** A Break ends the scan at once; before the last call with true, whatever comes behind it. */
  lemma {:induction false} BreakIsTrue(data: Bytes, stop: nat)
    requires 0 < stop <= Scan(data, START, 0, Counting(0)).0
    ensures
      var (all, ok) := Scan(data, START, 0, Counting(0));
      var (calls, verdict) := Scan(data, START, 0, Counting(stop));
      calls == stop && (stop < all || ok ==> verdict)
  {
    BreakEarlyFrom(data, START, 0, stop);
  }

  // ---------- the grammar of options ----------

  /** The last token of a run, and what follows the run. */
  function NameAfter(name: Bytes, items: seq<Item>): (r: (Bytes, seq<Item>))
    ensures |r.1| <= |items| && (r.1 != [] ==> r.1[0].kind != Token)
    decreases |items|
  {
    if items != [] && items[0].kind == Token then NameAfter(items[0].text, items[1..]) else (name, items)
  }

  /**
  The parameters of one option: the pairs, the items behind them, and whether they broke off at an
  item that may not stand there.  Tokens between parameters are passed over; a parameter without a
  value, or with its value missing at the end, has an empty one.
  */
  function ParamsOf(items: seq<Item>): (r: (seq<Pair>, seq<Item>, bool))
    ensures |r.1| <= |items| && (r.2 ==> r.1 == [])
    decreases |items|
  {
    if items == [] || Mark(items[0], COMMA) then ([], items, false)
    else if items[0].kind == Token then ParamsOf(items[1..])
    else if !Mark(items[0], SEMICOLON) then ([], [], true)
    else if |items| == 1 then ([], [], false)
    else if items[1].kind != Token then ([], [], true)
    else if |items| == 2 then ([Pair(items[1].text, [])], [], false)
    else if Mark(items[2], COMMA) || Mark(items[2], SEMICOLON) then
      var (more, rest, broken) := ParamsOf(items[2..]);
      ([Pair(items[1].text, [])] + more, rest, broken)
    else if !Mark(items[2], EQUALITY) then ([], [], true)
    else if |items| == 3 then ([Pair(items[1].text, [])], [], false)
    else if items[3].kind == Token || items[3].kind == String then
      var (more, rest, broken) := ParamsOf(items[4..]);
      ([Pair(items[1].text, items[3].text)] + more, rest, broken)
    else ([], [], true)
  }

  /**
  The options: each its name, the last token of a run, and its parameters, up to a comma.  Where the
  items break off, the option at hand stays if it has a parameter that was complete.
  */
  function OptionsOf(items: seq<Item>): seq<Opt>
    decreases |items|
  {
    if items == [] then []
    else if Mark(items[0], COMMA) then OptionsOf(items[1..])
    else if items[0].kind != Token then []
    else
      var (name, tail) := NameAfter(items[0].text, items[1..]);
      var (params, rest, broken) := ParamsOf(tail);
      if broken then if params == [] then [] else [Opt(name, params)]
      else [Opt(name, params)] + OptionsOf(rest)
  }

  function Rest(items: seq<Item>, err: bool, p: Parser, s: ParseVars): seq<Opt> {
    ScanItems(items, err, p, s, ParseStep).0.options
  }

  /** Between two parameters of an option; `s.index < p.index` before its first call. */
  predicate Between(p: Parser, s: ParseVars) {
    && p.phase == ParamBeforeName && p.param == [] && p.value == []
    && if s.index == p.index then s.options != [] && s.i == |s.options| - 1 else s.index < p.index && p.mustCall
  }

  function WithMore(options: seq<Opt>, params: seq<Pair>): seq<Opt>
    requires options != []
  {
    var last := options[|options| - 1];
    options[..|options| - 1] + [last.(params := last.params + params)]
  }

  /** The options when that option gets these parameters. */
  function Grown(p: Parser, s: ParseVars, params: seq<Pair>): seq<Opt>
    requires Between(p, s)
  {
    if s.index == p.index then WithMore(s.options, params) else s.options + [Opt(p.key, params)]
  }

  /** A parameter with its call. */
  lemma {:induction false} OneParam(p: Parser, s: ParseVars, key: Bytes, value: Bytes, more: seq<Pair>)
    requires Between(p, s) && key != []
    ensures
      var t := ParseStep(s, Call(p.index, p.key, key, value)).0;
      t.index == p.index && t.options != [] && t.i == |t.options| - 1
      && WithMore(t.options, more) == Grown(p, s, [Pair(key, value)] + more)
  {
    var t := ParseStep(s, Call(p.index, p.key, key, value)).0;
    if s.index == p.index {
      var last := s.options[s.i];
      assert t.options == s.options[..s.i] + [last.(params := last.params + [Pair(key, value)])];
      assert last.params + [Pair(key, value)] + more == last.params + ([Pair(key, value)] + more);
    } else {
      assert [] + [Pair(key, value)] == [Pair(key, value)];
      assert t.options == s.options + [Opt(p.key, [Pair(key, value)])];
    }
  }

  /** The call without a parameter. */
  lemma {:induction false} NoParam(p: Parser, s: ParseVars)
    requires Between(p, s)
    ensures ParseStep(s, Call(p.index, p.key, [], [])).0.options == Grown(p, s, [])
    ensures ParseStep(s, Call(p.index, p.key, [], [])).0.index == p.index
    ensures s.index == p.index ==> Grown(p, s, []) == s.options
  {
    if s.index == p.index {
      assert s.options[s.i].(params := s.options[s.i].params + []) == s.options[s.i];
    }
  }

  predicate Worded(items: seq<Item>) { forall i :: 0 <= i < |items| && items[i].kind == Token ==> items[i].text != [] }

  /** What one item does. */
  lemma {:induction false} OnItem(items: seq<Item>, err: bool, p: Parser, s: ParseVars)
    requires items != []
    ensures
      var r := React(p, items[0].kind, items[0].text);
      Rest(items, err, p, s) ==
        if r.Malformed? then s.options
        else if r.call then Rest(items[1..], err, r.next.Called(r.grow), ParseStep(s, r.next.Args()).0)
        else Rest(items[1..], err, r.next, s)
  {
  }

  lemma {:induction false} AtEnd(err: bool, p: Parser, s: ParseVars)
    ensures Rest([], err, p, s) == if p.mustCall then ParseStep(s, p.Args()).0.options else s.options
  {
  }

  /** A complete parameter in front: what is left of the header is read from between parameters. */
  lemma {:induction false} ParamInFront(items: seq<Item>, err: bool, p: Parser, s: ParseVars) returns (q: Parser)
    requires Worded(items) && Between(p, s) && |items| >= 3 && Mark(items[0], SEMICOLON) && items[1].kind == Token
    requires Mark(items[2], COMMA) || Mark(items[2], SEMICOLON)
    ensures
      var t := ParseStep(s, Call(p.index, p.key, items[1].text, [])).0;
      && q.index == p.index && q.phase == ParamBeforeName && q.param == [] && q.value == []
      && Rest(items, err, p, s) == Rest(items[2..], err, q, t)
  {
    hide ParseStep, ScanItems, Rest;
    var t := ParseStep(s, Call(p.index, p.key, items[1].text, [])).0;
    var p2 := p.(phase := ParamBeforeValue, param := items[1].text, mustCall := true);
    q := p2.(phase := ParamBeforeName).Called(0);
    assert items[1..][1..] == items[2..] && items[2..][1..] == items[3..];
    OnItem(items, err, p, s);
    OnItem(items[1..], err, p.(phase := ParamName), s);
    OnItem(items[2..], err, p2, s);
    OnItem(items[2..], err, q, t);
  }

  lemma {:induction false} ValueInFront(items: seq<Item>, err: bool, p: Parser, s: ParseVars) returns (q: Parser)
    requires Worded(items) && Between(p, s) && |items| >= 4 && Mark(items[0], SEMICOLON) && items[1].kind == Token
    requires Mark(items[2], EQUALITY) && (items[3].kind == Token || items[3].kind == String)
    ensures
      var t := ParseStep(s, Call(p.index, p.key, items[1].text, items[3].text)).0;
      && q.index == p.index && q.phase == ParamBeforeName && q.param == [] && q.value == []
      && Rest(items, err, p, s) == Rest(items[4..], err, q, t)
  {
    hide ParseStep, ScanItems, Rest;
    var p2 := p.(phase := ParamBeforeValue, param := items[1].text, mustCall := true);
    q := p2.(phase := ParamBeforeName, value := items[3].text).Called(0);
    assert items[1..][1..] == items[2..] && items[2..][1..] == items[3..] && items[3..][1..] == items[4..];
    OnItem(items, err, p, s);
    OnItem(items[1..], err, p.(phase := ParamName), s);
    OnItem(items[2..], err, p2, s);
    OnItem(items[3..], err, p2.(phase := ParamValue), s);
  }

  /** A parameter that the end cuts off, and one that an item which may not stand there does. */
  lemma {:induction false} ParamCutOff(items: seq<Item>, err: bool, p: Parser, s: ParseVars)
    requires Worded(items) && Between(p, s) && items != [] && Mark(items[0], SEMICOLON)
    requires |items| >= 3 && items[1].kind == Token ==>
      !Mark(items[2], COMMA) && !Mark(items[2], SEMICOLON)
      && (|items| >= 4 && Mark(items[2], EQUALITY) ==> items[3].kind != Token && items[3].kind != String)
    ensures
      Rest(items, err, p, s) ==
        if |items| == 1 then Grown(p, s, [])
        else if items[1].kind == Token && (|items| == 2 || (|items| == 3 && Mark(items[2], EQUALITY))) then
          Grown(p, s, [Pair(items[1].text, [])])
        else s.options
  {
    hide ParseStep, ScanItems, Rest, WithMore, Grown, Between;
    var p1 := p.(phase := ParamName);
    OnItem(items, err, p, s);
    BetweenMeans(p, s);
    AtEnd(err, p1, s);
    if |items| == 1 {
      NoParam(p, s);
    } else {
      OnItem(items[1..], err, p1, s);
      if items[1].kind == Token {
        var p2 := p.(phase := ParamBeforeValue, param := items[1].text, mustCall := true);
        AtEnd(err, p2, s);
        AtEnd(err, p2.(phase := ParamValue), s);
        OneParam(p, s, items[1].text, [], []);
        NothingMore(p, s, items[1].text);
        assert items[1..][1..] == items[2..];
        if |items| >= 3 {
          OnItem(items[2..], err, p2, s);
          assert items[2..][1..] == items[3..];
          if |items| >= 4 && Mark(items[2], EQUALITY) {
            OnItem(items[3..], err, p2.(phase := ParamValue), s);
          }
        }
      }
    }
  }

  lemma {:induction false} BetweenMeans(p: Parser, s: ParseVars)
    requires Between(p, s)
    ensures p.phase == ParamBeforeName && p.param == [] && p.value == [] && (s.index != p.index ==> p.mustCall)
  {
  }

  lemma {:induction false} NothingMore(p: Parser, s: ParseVars, key: Bytes)
    requires Between(p, s) && key != []
    ensures ParseStep(s, Call(p.index, p.key, key, [])).0.options == Grown(p, s, [Pair(key, [])])
  {
    var t := ParseStep(s, Call(p.index, p.key, key, [])).0;
    OneParam(p, s, key, [], []);
    assert [Pair(key, [])] + [] == [Pair(key, [])];
    var last := t.options[|t.options| - 1];
    assert last.(params := last.params + []) == last;
    assert WithMore(t.options, []) == t.options;
  }

  /** What the grammar says is read from between two parameters of an option. */
  function Expected(items: seq<Item>, p: Parser, s: ParseVars): seq<Opt>
    requires Between(p, s)
  {
    var (params, rest, broken) := ParamsOf(items);
    if broken && params == [] then s.options else Grown(p, s, params) + OptionsOf(rest)
  }

  predicate AtKey(p: Parser, s: ParseVars) {
    p.phase == Key && p.param == [] && p.value == [] && !p.mustCall && s.index < p.index
  }

  lemma {:induction false} WordedTail(items: seq<Item>, k: nat)
    requires Worded(items) && k <= |items|
    ensures Worded(items[k..])
  {
  }

  /** The run of tokens of a name; only the last of them matters. */
  lemma {:induction false} NameIsRead(items: seq<Item>, err: bool, p: Parser, s: ParseVars)
    requires Worded(items) && Between(p, s) && s.index < p.index
    ensures
      var (name, tail) := NameAfter(p.key, items);
      Worded(tail) && Rest(items, err, p, s) == Rest(tail, err, p.(key := name), s)
    decreases |items|
  {
    hide ScanItems, Rest, ParseStep, Worded;
    if items != [] && items[0].kind == Token {
      OnItem(items, err, p, s);
      WordedTail(items, 1);
      NameIsRead(items[1..], err, p.(key := items[0].text), s);
    }
  }

  lemma {:induction false} ParamsAreRead(items: seq<Item>, err: bool, p: Parser, s: ParseVars)
    requires Worded(items) && Between(p, s)
    requires s.index < p.index && items != [] ==> items[0].kind != Token
    ensures Rest(items, err, p, s) == Expected(items, p, s)
    decreases |items|, 1
  {
    hide ScanItems, Rest, ParseStep, Worded, Grown, WithMore, OptionsOf;
    NoParam(p, s);
    NothingOf();
    if items == [] {
      AtEnd(err, p, s);
    } else if Mark(items[0], COMMA) {
      CommaIsRead(items, err, p, s);
    } else if items[0].kind == Token {
      OnItem(items, err, p, s);
      WordedTail(items, 1);
      var q := p.(key := items[0].text, mustCall := true);
      ParamsAreRead(items[1..], err, q, s);
      GrownAlike(p, q, s, ParamsOf(items).0);
    } else if !Mark(items[0], SEMICOLON) {
      OnItem(items, err, p, s);
    } else if |items| >= 3 && items[1].kind == Token && (Mark(items[2], COMMA) || Mark(items[2], SEMICOLON)) {
      var q := ParamInFront(items, err, p, s);
      WordedTail(items, 2);
      MoreParams(items, items[2..], err, p, s, q, []);
    } else if |items| >= 4 && items[1].kind == Token && Mark(items[2], EQUALITY)
              && (items[3].kind == Token || items[3].kind == String) {
      var q := ValueInFront(items, err, p, s);
      WordedTail(items, 4);
      MoreParams(items, items[4..], err, p, s, q, items[3].text);
    } else {
      ParamCutOff(items, err, p, s);
    }
  }

  lemma {:induction false} NothingOf()
    ensures OptionsOf([]) == []
  {
  }

  lemma {:induction false} GrownAlike(p: Parser, q: Parser, s: ParseVars, params: seq<Pair>)
    requires Between(p, s) && Between(q, s) && p.index == q.index == s.index
    ensures Grown(p, s, params) == Grown(q, s, params)
  {
  }

  /** One parameter was read, and now the rest. */
  lemma {:induction false} MoreParams(items: seq<Item>, left: seq<Item>, err: bool, p: Parser, s: ParseVars,
                                      q: Parser, value: Bytes)
    requires Worded(items) && Between(p, s) && |items| >= 2 && items[1].kind == Token
    requires Worded(left) && |left| < |items|
    requires q.index == p.index && q.phase == ParamBeforeName && q.param == [] && q.value == []
    requires
      var (more, rest, broken) := ParamsOf(left);
      ParamsOf(items) == ([Pair(items[1].text, value)] + more, rest, broken)
    ensures
      Rest(left, err, q, ParseStep(s, Call(p.index, p.key, items[1].text, value)).0) == Expected(items, p, s)
    decreases |items|, 0
  {
    hide ScanItems, Rest, ParseStep, ParamsOf, Grown, WithMore, OptionsOf;
    var key := items[1].text;
    var t := ParseStep(s, Call(p.index, p.key, key, value)).0;
    var more := ParamsOf(left).0;
    OneParam(p, s, key, value, more);
    NothingOf();
    ParamsAreRead(left, err, q, t);
    NoMoreIsSame(q, t, more);
  }

  lemma {:induction false} NoMoreIsSame(q: Parser, t: ParseVars, more: seq<Pair>)
    requires Between(q, t) && t.index == q.index
    ensures Grown(q, t, more) == WithMore(t.options, more)
    ensures WithMore(t.options, []) == t.options
  {
    var last := t.options[|t.options| - 1];
    assert last.(params := last.params + []) == last;
  }

  /** The comma behind an option. */
  lemma {:induction false} CommaIsRead(items: seq<Item>, err: bool, p: Parser, s: ParseVars)
    requires Worded(items) && Between(p, s) && items != [] && Mark(items[0], COMMA)
    ensures Rest(items, err, p, s) == Grown(p, s, []) + OptionsOf(items)
    decreases |items|, 0
  {
    hide ScanItems, Rest, ParseStep, Worded, Grown, WithMore;
    OnItem(items, err, p, s);
    WordedTail(items, 1);
    NoParam(p, s);
    if p.mustCall {
      KeyIsRead(items[1..], err, p.(phase := Key).Called(1), ParseStep(s, p.Args()).0);
    } else {
      KeyIsRead(items[1..], err, p.(phase := Key, index := p.index + 1), s);
    }
  }

  lemma {:induction false} KeyIsRead(items: seq<Item>, err: bool, p: Parser, s: ParseVars)
    requires Worded(items) && AtKey(p, s)
    ensures Rest(items, err, p, s) == s.options + OptionsOf(items)
    decreases |items|, 0
  {
    hide ScanItems, Rest, ParseStep, WithMore, ParamsOf;
    AtEnd(err, p, s);
    if items != [] {
      OnItem(items, err, p, s);
      WordedTail(items, 1);
      if Mark(items[0], COMMA) {
        KeyIsRead(items[1..], err, p, s);
      } else if items[0].kind == Token {
        var q := p.(key := items[0].text, phase := ParamBeforeName, mustCall := true);
        NameIsRead(items[1..], err, q, s);
        var (name, tail) := NameAfter(q.key, items[1..]);
        ParamsAreRead(tail, err, q.(key := name), s);
      }
    }
  }

  lemma {:induction false} ItemsAreWorded(rest: Bytes)
    ensures Worded(Items(rest).0)
    decreases |rest|
  {
    hide LexNext;
    var l := LexNext(rest);
    if l.ok {
      ItemsAreWorded(rest[l.n..]);
    }
  }

  /** On every input, accepted or not: `ParseOptions` yields the options of the grammar. */
  lemma {:induction false} ParsedMeans(data: Bytes, before: seq<Opt>)
    ensures Parsed(data, before).0 == before + OptionsOf(Items(data).0)
    ensures Parsed(data, before).1 <==> Accepted(data)
  {
    hide Scan, ScanItems, Items, OptionsOf, Accepted;
    var s := ParseVars(before, 0, -1);
    ScanIsOfItems(data, START, s, ParseStep);
    VerdictMeans(data, s, ParseStep);
    ItemsAreWorded(data);
    KeyIsRead(Items(data).0, Items(data).1, START, s);
  }
}

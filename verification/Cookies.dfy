/**
httphead/cookie.go: scanning a Cookie header, against the cookie-string of section
4.2.1 of RFC 6265 (pairs joined by a semicolon and a space).
*/
module Cookies {
  import opened Octets
  import opened Lexer

  datatype Cookie = Cookie(name: Bytes, value: Bytes)

  datatype CookieScanner = CookieScanner(disableName: bool, disableValue: bool, breakOnPairError: bool, strict: bool)

  /** The user's function over the variables it captures; false stops the scan. */
  type CookieCallback<!S> = (S, Cookie) -> (S, bool)

  // ---------- validators and trimmers ----------

  /** The cookie-octet of section 4.1.1 of RFC 6265. */
  predicate RfcCookieOctet(c: Byte) {
    c == 0x21 || 0x23 <= c <= 0x2B || 0x2D <= c <= 0x3A || 0x3C <= c <= 0x5B || 0x5D <= c <= 0x7E
  }

  /** Lenient mode lets a space and a comma through as well. */
  predicate CookieOctets(value: Bytes, strict: bool) {
    forall i :: 0 <= i < |value| ==>
      RfcCookieOctet(value[i]) || (!strict && (value[i] == SPACE || value[i] == COMMA))
  }

  method ValidCookieValue(value: Bytes, strict: bool) returns (valid: bool)
    ensures valid <==> CookieOctets(value, strict)
  {
    for i := 0 to |value|
      invariant CookieOctets(value[..i], strict)
    {
      var c := value[i];
      assert value[..i + 1] == value[..i] + [c];
      if c == QUOTE || c == SEMICOLON || c == BACKSLASH {
        return false;
      } else if c == COMMA || c == SPACE {
        if strict {
          return false;
        }
      } else if c <= 0x20 || c >= 0x7f {
        return false;
      }
    }
    assert value[..|value|] == value;
    return true;
  }

  method ValidCookieName(name: Bytes) returns (valid: bool)
    ensures valid <==> AllTokens(name)
  {
    for i := 0 to |name|
      invariant AllTokens(name[..i])
    {
      if !IsToken(name[i]) {
        return false;
      }
    }
    assert name[..|name|] == name;
    return true;
  }

  function Unquoted(b: Bytes): Bytes {
    if |b| > 1 && b[0] == QUOTE && b[|b| - 1] == QUOTE then b[1..|b| - 1] else b
  }

  function TrimmedRight(p: Bytes): (r: Bytes)
    ensures r <= p
    ensures r != [] ==> !IsSpace(r[|r| - 1])
  {
    if p != [] && IsSpace(p[|p| - 1]) then TrimmedRight(p[..|p| - 1]) else p
  }

  function SpacesAhead(p: Bytes): (n: nat)
    ensures n <= |p| && (n < |p| ==> !IsSpace(p[n]))
    ensures n > 0 <==> p != [] && IsSpace(p[0])
  {
    if p != [] && IsSpace(p[0]) then 1 + SpacesAhead(p[1..]) else 0
  }

  function TrimmedLeft(p: Bytes): Bytes { p[SpacesAhead(p)..] }

  method TrimLeft(p: Bytes) returns (r: Bytes)
    ensures r == TrimmedLeft(p)
  {
    var i := 0;
    assert p[0..] == p;
    while i < |p| && IsSpace(p[i])
      invariant 0 <= i <= |p| && i + SpacesAhead(p[i..]) == SpacesAhead(p)
    {
      assert p[i..][1..] == p[i + 1..];
      i := i + 1;
    }
    return p[i..];
  }

  method TrimRight(p: Bytes) returns (r: Bytes)
    ensures r == TrimmedRight(p)
  {
    var j := |p|;
    assert p[..j] == p;
    while j > 0 && IsSpace(p[j - 1])
      invariant 0 <= j <= |p| && TrimmedRight(p[..j]) == TrimmedRight(p)
    {
      assert p[..j][..j - 1] == p[..j - 1];
      j := j - 1;
    }
    return p[..j];
  }

  // ---------- the scan ----------

  datatype Read = Invalid | Valid(cookie: Cookie)

  /** The name before the first equals sign; the whole when there is none. */
  function NameIn(chunk: Bytes): Bytes {
    var i := IndexByte(chunk, EQUALITY);
    if i == -1 then chunk else chunk[..i]
  }

  /** The value after it, trimmed and without its quotes. */
  function ValueIn(c: CookieScanner, chunk: Bytes): Bytes {
    var i := IndexByte(chunk, EQUALITY);
    var given := if i == -1 then [] else chunk[i + 1..];
    Unquoted(if c.strict then given else TrimmedRight(given))
  }

  /** The verdict on the bytes between two semicolons, when their name is taken to be `name`. */
  function ReadNamed(c: CookieScanner, chunk: Bytes, name: Bytes): Read {
    if IndexByte(chunk, EQUALITY) == -1 && c.strict then Invalid
    else if !c.disableName && !AllTokens(name) then Invalid
    else if !c.disableValue && !CookieOctets(ValueIn(c, chunk), c.strict) then Invalid
    else Valid(Cookie(name, ValueIn(c, chunk)))
  }

  /** What the scanner makes of them. */
  function ReadPair(c: CookieScanner, chunk: Bytes): Read { ReadNamed(c, chunk, NameIn(chunk)) }

  /** What it would make of them if the trimmed name were not dropped. */
  function ReadPairTrimmed(c: CookieScanner, chunk: Bytes): Read {
    ReadNamed(c, chunk, if c.strict then NameIn(chunk) else TrimmedLeft(NameIn(chunk)))
  }

  /**
  Dropping the result of `trimLeft` changes nothing, if and only if the mode is strict, or
  there is no space in front, or the pair is refused in either case.
  */
  lemma {:induction false} TrimLeftIsMissed(c: CookieScanner, chunk: Bytes)
    ensures ReadPair(c, chunk) == ReadPairTrimmed(c, chunk)
      <==> || c.strict || chunk == [] || chunk[0] != SPACE
           || (!c.disableName && !AllTokens(TrimmedLeft(NameIn(chunk))))
           || (!c.disableValue && !CookieOctets(ValueIn(c, chunk), c.strict))
  {
    hide IndexByte, TrimmedRight, CookieOctets;
    var name := NameIn(chunk);
    if chunk != [] && chunk[0] == SPACE {
      assert name != [] && name[0] == SPACE && !AllTokens(name);
    } else if name != [] {
      assert name[0] == chunk[0];
    }
  }

  function Until(rest: Bytes, c: Byte): (n: nat)
    ensures n <= |rest|
  {
    if IndexByte(rest, c) == -1 then |rest| else IndexByte(rest, c)
  }

  lemma {:induction false} UntilIs(chunk: Bytes, tail: Bytes, c: Byte)
    requires c !in chunk && (tail == [] || tail[0] == c)
    ensures Until(chunk + tail, c) == |chunk|
  {
    var rest := chunk + tail;
    var n := Until(rest, c);
    assert forall k :: 0 <= k < |chunk| ==> rest[k] == chunk[k] && chunk[k] != c;
    if tail != [] {
      IndexByteFirst(rest, c, |chunk|);
    }
  }

  /**
  The captured state and the verdict from `rest` on.  The measure needs the second
  component: fetching a pair of no bytes does not move, it only changes the state.
  */
  function Scan<S>(c: CookieScanner, rest: Bytes, before: bool, s: S, it: CookieCallback<S>): (S, bool)
    decreases |rest|, !before
  {
    if rest == [] then (s, true)
    else if before then
      if rest[0] != SEMICOLON then (s, false)
      else if |rest| > 1 && rest[1] == SPACE then Scan(c, rest[2..], false, s, it)
      else if c.strict then (s, false)
      else Scan(c, rest[1..], false, s, it)
    else
      var n := Until(rest, SEMICOLON);
      match ReadPair(c, rest[..n])
      case Invalid => if c.breakOnPairError then (s, false) else Scan(c, rest[n..], true, s, it)
      case Valid(cookie) =>
        var (t, go) := it(s, cookie);
        if go then Scan(c, rest[n..], true, t, it) else (t, true)
  }

  /** Reads one pair; the result of `TrimLeft` is dropped, as it is in the source. */
  method ScanPair(c: CookieScanner, chunk: Bytes) returns (read: Read)
    ensures read == ReadPair(c, chunk)
  {
    hide IndexByte, TrimmedLeft, TrimmedRight, CookieOctets, Classify, Unquoted;
    var name, value := chunk, [];
    var i := IndexByte(name, EQUALITY);
    if i != -1 {
      value := name[i + 1..];
      name := name[..i];
    } else if c.strict {
      return Invalid;
    }
    if !c.strict {
      var _ := TrimLeft(name);
    }
    if !c.disableName {
      var valid := ValidCookieName(name);
      if !valid {
        return Invalid;
      }
    }
    if !c.strict {
      value := TrimRight(value);
    }
    value := Unquoted(value);
    if !c.disableValue {
      var valid := ValidCookieValue(value, c.strict);
      if !valid {
        return Invalid;
      }
    }
    return Valid(Cookie(name, value));
  }

  method ScanCookies<S>(c: CookieScanner, data: Bytes, it: CookieCallback<S>, captured: S) returns (s: S, result: bool)
    ensures (s, result) == Scan(c, data, false, captured, it)
  {
    var lexer := new Scanner(data);
    s := captured;
    var before := false;
    assert lexer.Rest() == data;
    while true
      invariant lexer.Valid() && fresh(lexer)
      invariant Scan(c, data, false, captured, it) == Scan(c, lexer.Rest(), before, s, it)
      decreases |lexer.Rest()|, !before
    {
      ghost var rest := lexer.Rest();
      var left := lexer.Buffered();
      if left == 0 {
        break;
      }
      if before {
        var a, b := lexer.Peek2();
        if a != SEMICOLON {
          return s, false;
        }
        before := false;
        var advance := 1;
        if b == SPACE {
          advance := 2;
        } else if c.strict {
          return s, false;
        }
        var _ := lexer.Advance(advance);
      } else {
        var ok := lexer.FetchUntil(SEMICOLON);
        var chunk := lexer.itemBytes;
        UntilIs(chunk, lexer.Rest(), SEMICOLON);
        assert rest[..|chunk|] == chunk && rest[|chunk|..] == lexer.Rest();
        var read := ScanPair(c, chunk);
        if read.Valid? {
          var (t, go) := it(s, read.cookie);
          s := t;
          if !go {
            return s, true;
          }
        } else if c.breakOnPairError {
          return s, false;
        }
        before := true;
      }
    }
    return s, true;
  }

  // ---------- any header, piece by piece ----------

  /** A semicolon, a space or none, and what follows up to the next semicolon. */
  datatype Piece = Piece(spaced: bool, chunk: Bytes)

  predicate WellCut(p: Piece) { SEMICOLON !in p.chunk && (!p.spaced ==> p.chunk == [] || p.chunk[0] != SPACE) }

  function PieceText(p: Piece): Bytes { (if p.spaced then [SEMICOLON, SPACE] else [SEMICOLON]) + p.chunk }

  function PiecesText(more: seq<Piece>): Bytes {
    if more == [] then [] else PieceText(more[0]) + PiecesText(more[1..])
  }

  predicate AllWellCut(more: seq<Piece>) { forall i :: 0 <= i < |more| ==> WellCut(more[i]) }

  /**
  What becomes of a header: chunk by chunk the pair is called back, passed over, or with
  `breakOnPairError` the end; a callback that answers false ends the scan with true; in strict mode a
  semicolon without its space ends it with false; and nothing is read behind the last semicolon of all.
  */
  function Walked<S>(c: CookieScanner, chunk: Bytes, more: seq<Piece>, s: S, it: CookieCallback<S>): (S, bool)
    decreases |more|
  {
    if chunk == [] && more == [] then (s, true)
    else
      match ReadPair(c, chunk)
      case Invalid => if c.breakOnPairError then (s, false) else WalkedOn(c, more, s, it)
      case Valid(cookie) =>
        var (t, go) := it(s, cookie);
        if go then WalkedOn(c, more, t, it) else (t, true)
  }

  function WalkedOn<S>(c: CookieScanner, more: seq<Piece>, s: S, it: CookieCallback<S>): (S, bool)
    decreases |more|, 0
  {
    if more == [] then (s, true)
    else if !more[0].spaced && c.strict then (s, false)
    else Walked(c, more[0].chunk, more[1..], s, it)
  }

  lemma {:induction false} PiecesBegin(more: seq<Piece>)
    ensures PiecesText(more) == [] <==> more == []
    ensures more != [] ==> PiecesText(more)[0] == SEMICOLON
  {
  }

  lemma {:induction false} ScanIsWalk<S>(c: CookieScanner, chunk: Bytes, more: seq<Piece>, s: S, it: CookieCallback<S>)
    requires SEMICOLON !in chunk && AllWellCut(more)
    ensures Scan(c, chunk + PiecesText(more), false, s, it) == Walked(c, chunk, more, s, it)
    decreases |more|, 1
  {
    hide ReadPair, Until, PiecesText;
    PiecesBegin(more);
    var tail := PiecesText(more);
    var rest := chunk + tail;
    if chunk != [] || more != [] {
      UntilIs(chunk, tail, SEMICOLON);
      assert rest[..|chunk|] == chunk && rest[|chunk|..] == tail;
      match ReadPair(c, chunk)
      case Invalid => WalkOn(c, more, s, it);
      case Valid(cookie) => WalkOn(c, more, it(s, cookie).0, it);
    }
  }

  lemma {:induction false} WalkOn<S>(c: CookieScanner, more: seq<Piece>, s: S, it: CookieCallback<S>)
    requires AllWellCut(more)
    ensures Scan(c, PiecesText(more), true, s, it) == WalkedOn(c, more, s, it)
    decreases |more|, 0
  {
    if more != [] {
      var p, tail := more[0], PiecesText(more[1..]);
      var rest := PiecesText(more);
      PiecesBegin(more[1..]);
      assert rest == (if p.spaced then [SEMICOLON, SPACE] else [SEMICOLON]) + (p.chunk + tail);
      assert p.spaced ==> rest[2..] == p.chunk + tail;
      assert !p.spaced ==> rest[1..] == p.chunk + tail && (|rest| > 1 ==> rest[1] != SPACE);
      if p.spaced || !c.strict {
        ScanIsWalk(c, p.chunk, more[1..], s, it);
      }
    }
  }

  /** Every header is cut this way, so the law above is about all of them. */
  lemma {:induction false} EveryHeader(data: Bytes) returns (chunk: Bytes, more: seq<Piece>)
    ensures data == chunk + PiecesText(more) && SEMICOLON !in chunk && AllWellCut(more)
    decreases |data|
  {
    var n := IndexByte(data, SEMICOLON);
    if n == -1 {
      chunk, more := data, [];
    } else {
      chunk := data[..n];
      var spaced := n + 1 < |data| && data[n + 1] == SPACE;
      var rest := data[if spaced then n + 2 else n + 1..];
      var next, others := EveryHeader(rest);
      more := [Piece(spaced, next)] + others;
      CutOne(data, n, spaced, next, others);
    }
  }

  lemma {:induction false} CutOne(data: Bytes, n: nat, spaced: bool, next: Bytes, others: seq<Piece>)
    requires n < |data| && data[n] == SEMICOLON && (spaced <==> n + 1 < |data| && data[n + 1] == SPACE)
    requires data[if spaced then n + 2 else n + 1..] == next + PiecesText(others)
    requires SEMICOLON !in next && AllWellCut(others)
    ensures
      var more := [Piece(spaced, next)] + others;
      data == data[..n] + PiecesText(more) && AllWellCut(more)
  {
    var p := Piece(spaced, next);
    var more := [p] + others;
    assert more[1..] == others && PiecesText(more) == PieceText(p) + PiecesText(others);
    hide PiecesText;
    var tail := PiecesText(others);
    var rest := next + tail;
    assert PieceText(p) + tail == (if spaced then [SEMICOLON, SPACE] else [SEMICOLON]) + rest;
    if !spaced && next != [] {
      assert rest[0] == next[0] && data[n + 1] == data[n + 1..][0];
    }
  }

  /** A pair by its flags: what is on validates, on the value as it is handed over. */
  lemma {:induction false} PairByFlags(c: CookieScanner, name: Bytes, value: Bytes)
    requires EQUALITY !in name
    ensures
      var given := Unquoted(if c.strict then value else TrimmedRight(value));
      ReadPair(c, name + [EQUALITY] + value) ==
        if (c.disableName || AllTokens(name)) && (c.disableValue || CookieOctets(given, c.strict)) then
          Valid(Cookie(name, given))
        else Invalid
    ensures ReadPair(c, name) ==
      if !c.strict && (c.disableName || AllTokens(name)) then Valid(Cookie(name, [])) else Invalid
  {
    hide AllTokens, CookieOctets, IndexByte, TrimmedRight, Unquoted;
    var chunk := name + [EQUALITY] + value;
    IndexByteFirst(chunk, EQUALITY, |name|);
    FirstIs(name, value, IndexByte(chunk, EQUALITY));
    assert chunk[..|name|] == name && chunk[|name| + 1..] == value;
    NothingGiven(c.strict);
  }

  lemma {:induction false} FirstIs(name: Bytes, value: Bytes, i: int)
    requires EQUALITY !in name && 0 <= i <= |name| && (name + [EQUALITY] + value)[i] == EQUALITY
    ensures i == |name|
  {
    assert forall k :: 0 <= k < |name| ==> (name + [EQUALITY] + value)[k] == name[k] != EQUALITY;
  }

  lemma {:induction false} NothingGiven(strict: bool)
    ensures TrimmedRight([]) == [] && Unquoted([]) == [] && CookieOctets([], strict)
  {
  }

  // ---------- the cookie-string and back ----------

  function PairText(p: Cookie): Bytes { p.name + [EQUALITY] + p.value }

  function JoinRest(pairs: seq<Cookie>): Bytes {
    if pairs == [] then [] else [SEMICOLON, SPACE] + PairText(pairs[0]) + JoinRest(pairs[1..])
  }

  /** cookie-string = cookie-pair *( ";" SP cookie-pair ) */
  function CookieString(pairs: seq<Cookie>): Bytes {
    if pairs == [] then [] else PairText(pairs[0]) + JoinRest(pairs[1..])
  }

  function Collect(seen: seq<Cookie>, p: Cookie): (seq<Cookie>, bool) { (seen + [p], true) }

  /** Every pair the scan calls back with, and its verdict. */
  function Collected(c: CookieScanner, data: Bytes): (seq<Cookie>, bool) {
    Scan(c, data, false, [], Collect)
  }

  /** A token name and cookie octets; lenient mode has more octets. */
  predicate ValidPair(p: Cookie, strict: bool) {
    AllTokens(p.name) && CookieOctets(p.value, strict)
  }

  predicate ValidPairs(pairs: seq<Cookie>, strict: bool) {
    forall i :: 0 <= i < |pairs| ==> ValidPair(pairs[i], strict)
  }

  /** A value in quotes, the other form of the cookie-value of section 4.1.1 of RFC 6265. */
  predicate IsQuoted(v: Bytes) { |v| > 1 && v[0] == QUOTE && v[|v| - 1] == QUOTE }

  /** A token name, and cookie octets or cookie octets in quotes. */
  predicate ReadablePair(p: Cookie, strict: bool) {
    && AllTokens(p.name)
    && (CookieOctets(p.value, strict) || (IsQuoted(p.value) && CookieOctets(Unquoted(p.value), strict)))
  }

  predicate ReadablePairs(pairs: seq<Cookie>, strict: bool) {
    forall i :: 0 <= i < |pairs| ==> ReadablePair(pairs[i], strict)
  }

  /** What such a pair is read as: without quotes, else in lenient mode without spaces at the end. */
  function ReadAs(p: Cookie, strict: bool): Cookie {
    if IsQuoted(p.value) then p.(value := Unquoted(p.value))
    else if strict then p
    else p.(value := TrimmedRight(p.value))
  }

  function ReadAllAs(pairs: seq<Cookie>, strict: bool): (r: seq<Cookie>)
    ensures |r| == |pairs| && forall i :: 0 <= i < |pairs| ==> r[i] == ReadAs(pairs[i], strict)
  {
    seq(|pairs|, i requires 0 <= i < |pairs| => ReadAs(pairs[i], strict))
  }

  lemma {:induction false} SplitPair(p: Cookie)
    requires AllTokens(p.name)
    ensures IndexByte(PairText(p), EQUALITY) == |p.name|
    ensures NameIn(PairText(p)) == p.name && PairText(p)[|p.name| + 1..] == p.value
    ensures SEMICOLON !in p.value ==> SEMICOLON !in PairText(p)
  {
    var chunk := PairText(p);
    hide IndexByte;
    assert chunk[|p.name|] == EQUALITY;
    forall k | 0 <= k < |p.name|
      ensures chunk[k] == p.name[k] && chunk[k] != EQUALITY && chunk[k] != SEMICOLON
    {
      assert IsToken(p.name[k]);
    }
    IndexByteFirst(chunk, EQUALITY, |p.name|);
  }

  /** The value that a readable pair is read with. */
  lemma {:induction false} ValueOfReadable(v: Bytes, strict: bool)
    requires CookieOctets(v, strict) || (IsQuoted(v) && CookieOctets(Unquoted(v), strict))
    ensures
      var value := Unquoted(if strict then v else TrimmedRight(v));
      && value == ReadAs(Cookie([], v), strict).value
      && CookieOctets(value, strict) && SEMICOLON !in v
  {
    if IsQuoted(v) {
      assert v[0] == QUOTE && TrimmedRight(v) == v;
      var inner := Unquoted(v);
      assert forall k :: 0 < k < |v| - 1 ==> v[k] == inner[k - 1];
    } else {
      var value := if strict then v else TrimmedRight(v);
      assert forall k :: 0 <= k < |value| ==> value[k] == v[k] && value[k] != QUOTE;
      assert Unquoted(value) == value;
    }
  }

  lemma {:induction false} ReadReadablePair(c: CookieScanner, p: Cookie)
    requires ReadablePair(p, c.strict)
    ensures ReadPair(c, PairText(p)) == Valid(ReadAs(p, c.strict))
    ensures SEMICOLON !in PairText(p)
  {
    hide IndexByte, TrimmedRight, CookieOctets;
    SplitPair(p);
    ValueOfReadable(p.value, c.strict);
  }

  /** One written pair read, at the start of a pair. */
  lemma {:induction false} ScanReadablePair(c: CookieScanner, p: Cookie, tail: Bytes, seen: seq<Cookie>)
    requires ReadablePair(p, c.strict) && (tail == [] || tail[0] == SEMICOLON)
    ensures Scan(c, PairText(p) + tail, false, seen, Collect)
         == Scan(c, tail, true, seen + [ReadAs(p, c.strict)], Collect)
  {
    var rest := PairText(p) + tail;
    ReadReadablePair(c, p);
    UntilIs(PairText(p), tail, SEMICOLON);
    assert rest != [] && rest[..|PairText(p)|] == PairText(p) && rest[|PairText(p)|..] == tail;
  }

  lemma {:induction false} ScanDelimiter(c: CookieScanner, text: Bytes, tail: Bytes, seen: seq<Cookie>)
    ensures Scan(c, [SEMICOLON, SPACE] + text + tail, true, seen, Collect) == Scan(c, text + tail, false, seen, Collect)
  {
    assert ([SEMICOLON, SPACE] + text + tail)[2..] == text + tail;
  }

  lemma {:induction false} ReadMore(seen: seq<Cookie>, pairs: seq<Cookie>, strict: bool)
    requires pairs != []
    ensures seen + [ReadAs(pairs[0], strict)] + ReadAllAs(pairs[1..], strict) == seen + ReadAllAs(pairs, strict)
  {
  }

  lemma {:induction false} ScanJoined(c: CookieScanner, pairs: seq<Cookie>, seen: seq<Cookie>)
    requires ReadablePairs(pairs, c.strict)
    ensures Scan(c, JoinRest(pairs), true, seen, Collect) == (seen + ReadAllAs(pairs, c.strict), true)
    decreases |pairs|
  {
    if pairs == [] {
      assert seen + [] == seen;
    } else {
      var text, tail := PairText(pairs[0]), JoinRest(pairs[1..]);
      ScanDelimiter(c, text, tail, seen);
      ScanReadablePair(c, pairs[0], tail, seen);
      ScanJoined(c, pairs[1..], seen + [ReadAs(pairs[0], c.strict)]);
      ReadMore(seen, pairs, c.strict);
    }
  }

  lemma {:induction false} CollectValid(c: CookieScanner, pairs: seq<Cookie>)
    requires ReadablePairs(pairs, c.strict)
    ensures Collected(c, CookieString(pairs)) == (ReadAllAs(pairs, c.strict), true)
  {
    if pairs != [] {
      ScanReadablePair(c, pairs[0], JoinRest(pairs[1..]), []);
      ScanJoined(c, pairs[1..], [] + [ReadAs(pairs[0], c.strict)]);
      ReadMore([], pairs, c.strict);
      assert [] + ReadAllAs(pairs, c.strict) == ReadAllAs(pairs, c.strict);
    }
  }

  lemma {:induction false} SplitSpaced(p: Cookie)
    requires AllTokens(p.name)
    ensures
      var chunk := [SPACE] + PairText(p);
      && IndexByte(chunk, EQUALITY) == |p.name| + 1 && NameIn(chunk) == [SPACE] + p.name
      && chunk[|p.name| + 2..] == p.value
    ensures TrimmedLeft([SPACE] + p.name) == p.name
  {
    hide IndexByte, IsToken, SpacesAhead;
    var chunk := [SPACE] + PairText(p);
    assert chunk == ([SPACE] + p.name) + [EQUALITY] + p.value;
    IndexByteFirst(chunk, EQUALITY, |p.name| + 1);
    FirstEquality(p, IndexByte(chunk, EQUALITY));
    SpaceIsNoToken(p.name);
  }

  lemma {:induction false} FirstEquality(p: Cookie, i: int)
    requires AllTokens(p.name) && 0 <= i <= |p.name| + 1 && ([SPACE] + PairText(p))[i] == EQUALITY
    ensures i == |p.name| + 1
  {
    assert 0 < i <= |p.name| ==> IsToken(p.name[i - 1]);
  }

  lemma {:induction false} SpaceIsNoToken(name: Bytes)
    requires AllTokens(name)
    ensures SpacesAhead([SPACE] + name) == 1 && ([SPACE] + name)[1..] == name && !AllTokens([SPACE] + name)
  {
    assert ([SPACE] + name)[0] == SPACE;
    assert name != [] ==> IsToken(name[0]);
  }

  /** A pair behind one space too many: refused as written, accepted if the name were trimmed. */
  lemma {:induction false} SpaceInFront(c: CookieScanner, p: Cookie)
    requires !c.strict && !c.disableName && ReadablePair(p, false)
    ensures ReadPair(c, [SPACE] + PairText(p)) == Invalid
    ensures ReadPairTrimmed(c, [SPACE] + PairText(p)) == Valid(ReadAs(p, false))
  {
    hide TrimmedRight, TrimmedLeft, CookieOctets, IndexByte, NameIn, Unquoted, IsQuoted, AllTokens;
    SplitSpaced(p);
    SpaceIsNoToken(p.name);
    ValueOfReadable(p.value, false);
  }

  /** In `a=b;  c=d`, with two spaces, lenient mode drops `c` without a word. */
  lemma {:induction false} SpacedCookieIsDropped(c: CookieScanner, p: Cookie, q: Cookie)
    requires !c.strict && !c.disableName && !c.breakOnPairError && ReadablePair(p, false) && ReadablePair(q, false)
    ensures Collected(c, PairText(p) + ([SEMICOLON, SPACE] + ([SPACE] + PairText(q)))) == ([ReadAs(p, false)], true)
  {
    hide ReadPair, ReadAs, IndexByte;
    var chunk := [SPACE] + PairText(q);
    var tail := [SEMICOLON, SPACE] + chunk;
    ScanReadablePair(c, p, tail, []);
    assert [] + [ReadAs(p, false)] == [ReadAs(p, false)];
    ScanDelimiter(c, chunk, [], [ReadAs(p, false)]);
    assert tail + [] == tail && chunk + [] == chunk;
    ReadReadablePair(c, q);
    SpaceInFront(c, q);
    UntilIs(chunk, [], SEMICOLON);
    assert chunk[..|chunk|] == chunk && chunk[|chunk|..] == [];
  }

  /** With both validations on, only valid pairs are ever called back, on any input. */
  lemma {:induction false} CollectedIsValid(c: CookieScanner, rest: Bytes, before: bool, seen: seq<Cookie>)
    requires !c.disableName && !c.disableValue && ValidPairs(seen, c.strict)
    ensures ValidPairs(Scan(c, rest, before, seen, Collect).0, c.strict)
    decreases |rest|, !before
  {
    if rest != [] {
      if before {
        if rest[0] == SEMICOLON {
          if |rest| > 1 && rest[1] == SPACE {
            CollectedIsValid(c, rest[2..], false, seen);
          } else if !c.strict {
            CollectedIsValid(c, rest[1..], false, seen);
          }
        }
      } else {
        var n := Until(rest, SEMICOLON);
        match ReadPair(c, rest[..n])
        case Invalid =>
          if !c.breakOnPairError {
            CollectedIsValid(c, rest[n..], true, seen);
          }
        case Valid(cookie) =>
          CollectedIsValid(c, rest[n..], true, seen + [cookie]);
      }
    }
  }

  /** The pairs that survive: valid ones, and in lenient mode no space at the end of the value. */
  predicate Faithful(p: Cookie, strict: bool) {
    ValidPair(p, strict) && (strict || p.value == [] || p.value[|p.value| - 1] != SPACE)
  }

  /**
  Scanning a cookie-string calls back exactly its pairs, in order, and returns true,
  if and only if every pair is faithful; in strict mode that is every pair with a
  token name and RFC 6265 cookie octets.
  */
  lemma {:induction false} CookieRoundTripExactly(c: CookieScanner, pairs: seq<Cookie>)
    requires !c.disableName && !c.disableValue
    ensures Collected(c, CookieString(pairs)) == (pairs, true)
      <==> forall i :: 0 <= i < |pairs| ==> Faithful(pairs[i], c.strict)
  {
    hide TrimmedRight, CookieOctets, CookieString, Unquoted, Scan, ReadAs, ReadablePair, Faithful;
    if ValidPairs(pairs, c.strict) {
      ValidIsReadable(pairs, c.strict);
      CollectValid(c, pairs);
      var read := ReadAllAs(pairs, c.strict);
      forall i | 0 <= i < |pairs|
        ensures read[i] == pairs[i] <==> Faithful(pairs[i], c.strict)
      {
        ReadAsItself(pairs[i], c.strict);
      }
      if forall i :: 0 <= i < |pairs| ==> Faithful(pairs[i], c.strict) {
        assert read == pairs;
      }
    } else {
      CollectedIsValid(c, CookieString(pairs), false, []);
      NotAllFaithful(pairs, c.strict);
    }
  }

  lemma {:induction false} ValidIsReadable(pairs: seq<Cookie>, strict: bool)
    requires ValidPairs(pairs, strict)
    ensures ReadablePairs(pairs, strict)
  {
  }

  lemma {:induction false} ReadAsItself(p: Cookie, strict: bool)
    requires ValidPair(p, strict)
    ensures ReadAs(p, strict) == p <==> Faithful(p, strict)
  {
  }

  lemma {:induction false} NotAllFaithful(pairs: seq<Cookie>, strict: bool)
    requires !ValidPairs(pairs, strict)
    ensures exists i :: 0 <= i < |pairs| && !Faithful(pairs[i], strict)
  {
  }

  /** In strict mode a value of RFC cookie octets always survives. */
  lemma {:induction false} StrictRoundTrip(c: CookieScanner, pairs: seq<Cookie>)
    requires c.strict
    requires forall i :: 0 <= i < |pairs| ==>
      AllTokens(pairs[i].name) && forall k :: 0 <= k < |pairs[i].value| ==> RfcCookieOctet(pairs[i].value[k])
    ensures Collected(c, CookieString(pairs)) == (pairs, true)
  {
    assert forall i :: 0 <= i < |pairs| ==> ValidPair(pairs[i], true);
    CollectValid(c, pairs);
    assert ReadAllAs(pairs, true) == pairs;
  }
}

/**
httphead/writer.go: printing an option list.  `Encode` is the text of a list; the
methods write it piece by piece to a destination that may run out of room.
*/
module Writer {
  import opened Octets
  import opened Options

  // ---------- the text ----------

  /** The octets that are written with a backslash before them. */
  predicate MustEscape(c: Byte) { IsControl(c) || c == QUOTE }

  function Escaped(b: Bytes): Bytes {
    if b == [] then []
    else (if MustEscape(b[0]) then [BACKSLASH, b[0]] else [b[0]]) + Escaped(b[1..])
  }

  lemma {:induction false} EscapedConcat(a: Bytes, b: Bytes)
    ensures Escaped(a + b) == Escaped(a) + Escaped(b)
  {
    if a == [] {
      assert a + b == b;
    } else {
      assert (a + b)[1..] == a[1..] + b;
      EscapedConcat(a[1..], b);
    }
  }

  /** A word of token octets as it is, anything else as a quoted string. */
  function Sanitized(b: Bytes): Bytes {
    if AllTokens(b) then b else [QUOTE] + Escaped(b) + [QUOTE]
  }

  function EncodeParam(p: Pair): Bytes {
    [SEMICOLON] + Sanitized(p.key) + (if p.value != [] then [EQUALITY] + Sanitized(p.value) else [])
  }

  function EncodeParams(ps: seq<Pair>): Bytes {
    if ps == [] then [] else EncodeParam(ps[0]) + EncodeParams(ps[1..])
  }

  function EncodeOption(o: Opt): Bytes { Sanitized(o.name) + EncodeParams(o.params) }

  function EncodeRest(options: seq<Opt>): Bytes {
    if options == [] then [] else [COMMA] + EncodeOption(options[0]) + EncodeRest(options[1..])
  }

  function Encode(options: seq<Opt>): Bytes {
    if options == [] then [] else EncodeOption(options[0]) + EncodeRest(options[1..])
  }

  /** The documented form: words bare, `;` before a parameter, `=` and a value only if there is one. */
  lemma {:induction false} WrittenForm(name: Bytes, key: Bytes, value: Bytes)
    requires AllTokens(name) && AllTokens(key) && AllTokens(value) && value != []
    ensures EncodeOption(Opt(name, [])) == name
    ensures EncodeOption(Opt(name, [Pair(key, [])])) == name + [59] + key
    ensures EncodeOption(Opt(name, [Pair(key, value)])) == name + [59] + key + [61] + value
  {
    var bare, full := Pair(key, []), Pair(key, value);
    assert EncodeParams([]) == [];
    assert [bare][1..] == [] && [full][1..] == [];
    assert EncodeParams([bare]) == [59] + key && EncodeParams([full]) == [59] + key + [61] + value;
  }

  /** Options apart by a comma and nothing else. */
  lemma {:induction false} CommaBetween(o: Opt, options: seq<Opt>)
    requires options != []
    ensures Encode([o] + options) == EncodeOption(o) + [44] + Encode(options)
  {
    hide EncodeOption;
    assert ([o] + options)[1..] == options;
    assert EncodeRest(options) == [44] + EncodeOption(options[0]) + EncodeRest(options[1..]);
    Regroup([], [44], EncodeOption(options[0]), EncodeRest(options[1..]));
  }

  /** In quotes exactly when an octet is no token octet; a backslash exactly before a quote and DEL. */
  lemma {:induction false} QuotedWhenNeeded(b: Bytes, c: Byte)
    ensures Sanitized(b) != [] && Sanitized(b)[0] == 34 <==> exists i :: 0 <= i < |b| && !IsToken(b[i])
    ensures Escaped([c]) == if c == 34 || c == 127 then [92, c] else [c]
  {
    assert Escaped([]) == [] && [c][1..] == [];
    if AllTokens(b) && b != [] {
      assert IsToken(b[0]) && !IsToken(34);
    }
  }

  lemma {:induction false} EncodeParamsLast(ps: seq<Pair>, k: nat)
    requires k < |ps|
    ensures EncodeParams(ps[..k + 1]) == EncodeParams(ps[..k]) + EncodeParam(ps[k])
  {
    hide EncodeParam;
    if k == 0 {
      assert ps[..1] == [ps[0]];
    } else {
      assert ps[..k + 1][1..] == ps[1..][..k] && ps[..k][1..] == ps[1..][..k - 1];
      EncodeParamsLast(ps[1..], k - 1);
    }
  }

  lemma {:induction false} EncodeRestLast(options: seq<Opt>, k: nat)
    requires k < |options|
    ensures EncodeRest(options[..k + 1]) == EncodeRest(options[..k]) + [COMMA] + EncodeOption(options[k])
  {
    hide EncodeOption;
    if k == 0 {
      assert options[..1] == [options[0]];
    } else {
      assert options[..k + 1][1..] == options[1..][..k] && options[..k][1..] == options[1..][..k - 1];
      EncodeRestLast(options[1..], k - 1);
    }
  }

  lemma {:induction false} EncodeLast(options: seq<Opt>, k: nat)
    requires k < |options|
    ensures Encode(options[..k + 1])
         == Encode(options[..k]) + (if k > 0 then [COMMA] else []) + EncodeOption(options[k])
  {
    hide EncodeOption;
    if k == 0 {
      assert options[..1] == [options[0]];
    } else {
      var first, tail := EncodeOption(options[0]), options[1..];
      assert options[..k + 1][1..] == tail[..k] && options[..k][1..] == tail[..k - 1];
      EncodeRestLast(tail, k - 1);
      Regroup(first, EncodeRest(tail[..k - 1]), [COMMA], EncodeOption(options[k]));
    }
  }

  lemma {:induction false} Assoc(a: Bytes, b: Bytes, c: Bytes)
    ensures a + b + c == a + (b + c)
  {
  }

  lemma {:induction false} Regroup(a: Bytes, b: Bytes, c: Bytes, d: Bytes)
    ensures a + (b + c + d) == a + b + c + d
  {
  }

  // ---------- the writer ----------

  /**
  An `io.Writer`: it takes some head of what it is given, and fails if that is not all.
  A flaky one may stop anywhere, and fail even then; any other takes `room` more bytes.
  */
  class Destination {
    const flaky: bool
    var written: Bytes
    var room: nat

    constructor (flaky: bool, room: nat)
      ensures written == [] && this.flaky == flaky && this.room == room
    {
      this.flaky, written, this.room := flaky, [], room;
    }

    method Write(p: Bytes) returns (n: nat, err: bool)
      modifies this
      ensures n <= |p| && (n < |p| ==> err) && written == old(written) + p[..n]
      ensures !flaky ==>
        n == (if |p| <= old(room) then |p| else old(room)) && err == (|p| > old(room)) && room == old(room) - n
    {
      if flaky {
        n :| 0 <= n <= |p|;
        err := *;
        err := err || n < |p|;
      } else {
        err := |p| > room;
        n := if err then room else |p|;
        room := room - n;
      }
      written := written + p[..n];
    }
  }

  function Prefix(b: Bytes, n: nat): Bytes {
    if n < |b| then b[..n] else b
  }

  class OptionWriter {
    const w: Destination
    var n: nat
    var err: bool
    /** Everything asked to be written, and the room there was at the start. */
    ghost var asked: Bytes
    ghost const room: nat

    constructor (dest: Destination)
      requires dest.written == []
      ensures w == dest && Valid() && asked == [] && room == dest.room
    {
      w := dest;
      n, err, asked := 0, false, [];
      room := dest.room;
    }

    /** What reached the destination is a head of what was asked, all of it unless there was an error. */
    ghost predicate Valid()
      reads this, w
    {
      && w.written <= asked && n == |w.written| && (!err ==> w.written == asked)
      && (!w.flaky ==> w.written == Prefix(asked, room) && w.room == room - n && (err <==> |asked| > room))
    }

    method Write(p: Bytes)
      requires Valid()
      modifies this`n, this`err, this`asked, w
      ensures Valid() && asked == old(asked) + p
      ensures old(err) ==> err && w.written == old(w.written)
    {
      if !err {
        var k, failed := w.Write(p);
        n, err := n + k, failed;
      }
      asked := asked + p;
    }

    method WriteEscape(c: Bytes)
      requires Valid()
      modifies this`n, this`err, this`asked, w
      ensures Valid() && asked == old(asked) + ([BACKSLASH] + c)
    {
      Write([BACKSLASH]);
      Write(c);
    }

    method WriteTokenSanitized(bts: Bytes)
      requires Valid()
      modifies this`n, this`err, this`asked, w
      ensures Valid() && asked == old(asked) + Sanitized(bts)
    {
      var qt, pos := false, 0;
      ghost var before, bad := asked, 0;
      for i := 0 to |bts|
        invariant Valid() && pos <= i
        invariant !qt ==> pos == 0 && asked == before && forall k :: 0 <= k < i ==> IsToken(bts[k])
        invariant qt ==> 0 <= bad < i && !IsToken(bts[bad])
        invariant qt ==> asked == before + [QUOTE] + Escaped(bts[..pos])
        invariant forall k :: pos <= k < i ==> !MustEscape(bts[k])
      {
        var c := bts[i];
        if !IsToken(c) && !qt {
          qt, bad := true, i;
          Write([QUOTE]);
          assert Escaped(bts[..pos]) == [] && asked + [] == asked;
        }
        // An octet to escape is no token octet, so the quote is already written.
        if MustEscape(c) {
          assert qt;
          EscapedStretch(bts, pos, i);
          Regroup(before + [QUOTE], Escaped(bts[..pos]), bts[pos..i], [BACKSLASH] + bts[i..i + 1]);
          Write(bts[pos..i]);
          WriteEscape(bts[i..i + 1]);
          pos := i + 1;
        }
      }
      if !qt {
        Write(bts);
      } else {
        EscapedStretch(bts, pos, |bts|);
        assert bts[..|bts|] == bts && bts[pos..|bts|] == bts[pos..];
        Assoc(before + [QUOTE], Escaped(bts[..pos]), bts[pos..]);
        Regroup(before, [QUOTE], Escaped(bts), [QUOTE]);
        assert !AllTokens(bts);
        Write(bts[pos..]);
        Write([QUOTE]);
      }
    }

    method WriteParam(p: Pair)
      requires Valid()
      modifies this`n, this`err, this`asked, w
      ensures Valid() && asked == old(asked) + EncodeParam(p)
    {
      ghost var before, key, value := asked, Sanitized(p.key), Sanitized(p.value);
      Write([SEMICOLON]);
      WriteTokenSanitized(p.key);
      if |p.value| != 0 {
        Regroup(before, [SEMICOLON], key, [EQUALITY] + value);
        Assoc(before + [SEMICOLON] + key, [EQUALITY], value);
        Write([EQUALITY]);
        WriteTokenSanitized(p.value);
      } else {
        Regroup(before, [SEMICOLON], key, []);
        assert before + [SEMICOLON] + key + [] == before + [SEMICOLON] + key;
      }
    }

    method WriteParams(ps: seq<Pair>)
      requires Valid()
      modifies this`n, this`err, this`asked, w
      ensures Valid() && asked == old(asked) + EncodeParams(ps)
    {
      ghost var before := asked;
      for j := 0 to |ps|
        invariant Valid() && asked == before + EncodeParams(ps[..j])
      {
        EncodeParamsLast(ps, j);
        Assoc(before, EncodeParams(ps[..j]), EncodeParam(ps[j]));
        WriteParam(ps[j]);
      }
      assert ps[..|ps|] == ps;
    }
  }

  /** Copying a stretch that needs no escape, then escaping the octet after it. */
  lemma {:induction false} EscapedStretch(b: Bytes, i: nat, k: nat)
    requires i <= k <= |b| && forall j :: i <= j < k ==> !MustEscape(b[j])
    ensures Escaped(b[..k]) == Escaped(b[..i]) + b[i..k]
    ensures k < |b| && MustEscape(b[k]) ==>
      Escaped(b[..k + 1]) == Escaped(b[..i]) + b[i..k] + ([BACKSLASH] + b[k..k + 1])
  {
    assert b[..k] == b[..i] + b[i..k];
    EscapedConcat(b[..i], b[i..k]);
    EscapedNone(b[i..k]);
    if k < |b| {
      assert b[..k + 1] == b[..k] + [b[k]] && b[k..k + 1] == [b[k]];
      EscapedConcat(b[..k], [b[k]]);
      assert [b[k]][1..] == [];
    }
  }

  lemma {:induction false} EscapedNone(b: Bytes)
    requires forall j :: 0 <= j < |b| ==> !MustEscape(b[j])
    ensures Escaped(b) == b
  {
    if b != [] {
      EscapedNone(b[1..]);
    }
  }

  /**
  Writes the text of the list, whatever the destination does: a head of it, of the length
  returned, and all of it unless an error is returned.  A destination with room for so
  many bytes gets as many as fit, with an error exactly when some did not.
  */
  method WriteOptions(dest: Destination, options: seq<Opt>) returns (n: nat, err: bool)
    requires dest.written == []
    modifies dest
    ensures dest.written <= Encode(options) && n == |dest.written| && (!err ==> dest.written == Encode(options))
    ensures !dest.flaky ==>
      dest.written == Prefix(Encode(options), old(dest.room)) && (err <==> |Encode(options)| > old(dest.room))
  {
    var w := new OptionWriter(dest);
    for i := 0 to |options|
      invariant w.w == dest && w.Valid() && fresh(w) && w.room == old(dest.room)
      invariant w.asked == Encode(options[..i])
    {
      var o := options[i];
      EncodeLast(options, i);
      if i > 0 {
        w.Write([COMMA]);
      }
      Assoc(w.asked, Sanitized(o.name), EncodeParams(o.params));
      w.WriteTokenSanitized(o.name);
      w.WriteParams(o.params);
    }
    assert options[..|options|] == options;
    return w.n, w.err;
  }
}

/**
The parameters of an option: eight inline slots, a list they spill into, a byte count, and
the copying of all their bytes into one block of storage.
*/
module OptionParameters {
  import opened Octets
  import opened Optional

  /** A Go slice of bytes: a window on an array, or no array at all. */
  datatype Slice = Nil | Window(mem: array<Byte>, lo: nat, hi: nat) {
    predicate Fits() {
      Window? ==> lo <= hi <= mem.Length
    }

    function Len(): nat
      requires Fits()
    {
      if Nil? then 0 else hi - lo
    }

    function Text(): Bytes
      requires Fits()
      reads Mems()
    {
      if Nil? then [] else mem[lo..hi]
    }

    function Mems(): set<array<Byte>> {
      if Window? then {mem} else {}
    }
  }

  datatype Pair = Pair(key: Slice, value: Slice) {
    predicate Fits() {
      key.Fits() && value.Fits()
    }

    function Len(): nat
      requires Fits()
    {
      key.Len() + value.Len()
    }

    function Mems(): set<array<Byte>> {
      key.Mems() + value.Mems()
    }
  }

  const NO_PAIR := Pair(Nil, Nil)
  const INLINE := 8

  predicate AllFit(ps: seq<Pair>) {
    forall i :: 0 <= i < |ps| ==> ps[i].Fits()
  }

  /** The arrays the slices look into. */
  function AllMems(ps: seq<Pair>): set<array<Byte>> {
    if ps == [] then {} else AllMems(ps[..|ps| - 1]) + ps[|ps| - 1].Mems()
  }

  lemma {:induction false} MemsOfOne(ps: seq<Pair>, i: nat)
    requires i < |ps|
    ensures ps[i].Mems() <= AllMems(ps)
  {
    if i < |ps| - 1 {
      MemsOfOne(ps[..|ps| - 1], i);
    }
  }

  ghost predicate Within(ps: seq<Pair>, mems: set<array<Byte>>) {
    forall i :: 0 <= i < |ps| ==> ps[i].Mems() <= mems
  }

  lemma {:induction false} WithinAll(ps: seq<Pair>, mems: set<array<Byte>>)
    requires Within(ps, mems)
    ensures AllMems(ps) <= mems
  {
    if ps != [] {
      WithinAll(ps[..|ps| - 1], mems);
    }
  }

  lemma {:induction false} PutSlot(slots: seq<Pair>, pos: nat, p: Pair, mems: set<array<Byte>>)
    requires AllFit(slots) && Within(slots, mems) && pos < |slots| && p.Fits() && AllFit(slots[..pos])
    ensures var next := slots[pos := p];
      && AllFit(next) && Within(next, mems + p.key.Mems() + p.value.Mems())
      && next[..pos + 1] == slots[..pos] + [p]
      && AllFit(next[..pos + 1]) && Sum(next[..pos + 1]) == Sum(slots[..pos]) + p.Len()
  {
    SumAppend(slots[..pos], p);
    assert slots[pos := p][..pos + 1] == slots[..pos] + [p];
  }

  lemma {:induction false} PutBehind(pairs: seq<Pair>, p: Pair, mems: set<array<Byte>>)
    requires AllFit(pairs) && Within(pairs, mems) && p.Fits()
    ensures var next := pairs + [p];
      AllFit(next) && Within(next, mems + p.key.Mems() + p.value.Mems()) && Sum(next) == Sum(pairs) + p.Len()
  {
    SumAppend(pairs, p);
  }

  /** The bytes of a pair. */
  datatype Spelling = Spelling(key: Bytes, value: Bytes)

  ghost function Texts(ps: seq<Pair>): seq<Spelling>
    requires AllFit(ps)
    reads AllMems(ps)
    ensures |Texts(ps)| == |ps|
  {
    if ps == [] then []
    else Texts(ps[..|ps| - 1]) + [Spelling(ps[|ps| - 1].key.Text(), ps[|ps| - 1].value.Text())]
  }

  lemma {:induction false} TextsAt(ps: seq<Pair>, i: nat)
    requires AllFit(ps) && i < |ps|
    ensures Texts(ps)[i] == Spelling(ps[i].key.Text(), ps[i].value.Text())
  {
    if i < |ps| - 1 {
      TextsAt(ps[..|ps| - 1], i);
    }
  }

  lemma {:induction false} TextsOfPrefix(ps: seq<Pair>, n: nat)
    requires AllFit(ps) && n <= |ps|
    ensures AllFit(ps[..n]) && Texts(ps[..n]) == Texts(ps)[..n]
  {
    if n == |ps| {
      assert ps[..n] == ps;
    } else {
      var front := ps[..|ps| - 1];
      TextsOfPrefix(front, n);
      assert front[..n] == ps[..n];
    }
  }

  /** Everything spelled, in order. */
  ghost function Flat(ts: seq<Spelling>): Bytes {
    if ts == [] then [] else Flat(ts[..|ts| - 1]) + (ts[|ts| - 1].key + ts[|ts| - 1].value)
  }

  lemma {:induction false} FlatAppend(ts: seq<Spelling>, n: nat)
    requires n < |ts|
    ensures Flat(ts[..n + 1]) == Flat(ts[..n]) + (ts[n].key + ts[n].value)
  {
    assert ts[..n + 1][..n] == ts[..n];
  }

  ghost predicate SameLengths(ps: seq<Pair>, ts: seq<Spelling>)
    requires AllFit(ps)
  {
    |ps| == |ts| && forall i :: 0 <= i < |ps| ==> ps[i].key.Len() == |ts[i].key| && ps[i].value.Len() == |ts[i].value|
  }

  /** The bytes of all keys and values together. */
  function Sum(ps: seq<Pair>): nat
    requires AllFit(ps)
  {
    if ps == [] then 0 else Sum(ps[..|ps| - 1]) + ps[|ps| - 1].Len()
  }

  lemma {:induction false} SumAppend(ps: seq<Pair>, p: Pair)
    requires AllFit(ps) && p.Fits()
    ensures AllFit(ps + [p]) && Sum(ps + [p]) == Sum(ps) + p.Len()
  {
    assert (ps + [p])[..|ps|] == ps;
  }

  lemma {:induction false} SumOfPrefix(ps: seq<Pair>, n: nat)
    requires AllFit(ps) && n <= |ps|
    ensures AllFit(ps[..n]) && Sum(ps[..n]) <= Sum(ps)
    ensures (forall i :: n <= i < |ps| ==> ps[i].Len() == 0) ==> Sum(ps[..n]) == Sum(ps)
  {
    if n == |ps| {
      assert ps[..n] == ps;
    } else {
      var front := ps[..|ps| - 1];
      SumOfPrefix(front, n);
      assert front[..n] == ps[..n];
    }
  }

  /** Key, value, key, value … lie one after the other in `m`, from `start` on, with no gap. */
  predicate Packed(ps: seq<Pair>, m: array<Byte>, start: nat)
    requires AllFit(ps)
  {
    ps == [] ||
    var front, last := ps[..|ps| - 1], ps[|ps| - 1];
    && Packed(front, m, start)
    && last.key == Window(m, start + Sum(front), start + Sum(front) + last.key.Len())
    && last.value == Window(m, start + Sum(front) + last.key.Len(), start + Sum(front) + last.Len())
  }

  lemma {:induction false} PackedAppend(ps: seq<Pair>, p: Pair, m: array<Byte>, start: nat)
    requires AllFit(ps) && Packed(ps, m, start) && p.Fits()
    requires p.key == Window(m, start + Sum(ps), start + Sum(ps) + p.key.Len())
    requires p.value == Window(m, start + Sum(ps) + p.key.Len(), start + Sum(ps) + p.Len())
    ensures AllFit(ps + [p]) && Packed(ps + [p], m, start) && Sum(ps + [p]) == Sum(ps) + p.Len()
  {
    assert (ps + [p])[..|ps|] == ps;
  }

  lemma {:induction false} PackedPrefix(ps: seq<Pair>, m: array<Byte>, start: nat, n: nat)
    requires AllFit(ps) && Packed(ps, m, start) && n <= |ps|
    ensures AllFit(ps[..n]) && Packed(ps[..n], m, start)
  {
    if n == |ps| {
      assert ps[..n] == ps;
    } else {
      var front := ps[..|ps| - 1];
      PackedPrefix(front, m, start, n);
      assert front[..n] == ps[..n];
    }
  }

  /** Packed slices end where the bytes end, so none of them reaches what is written after them. */
  lemma {:induction false} PackedBelow(ps: seq<Pair>, m: array<Byte>, start: nat, i: nat)
    requires AllFit(ps) && Packed(ps, m, start) && i < |ps|
    ensures ps[i].key.Window? && ps[i].value.Window? && ps[i].key.mem == m && ps[i].value.mem == m
    ensures start <= ps[i].key.lo && ps[i].key.hi == ps[i].value.lo && ps[i].value.hi <= start + Sum(ps)
  {
    if i < |ps| - 1 {
      PackedBelow(ps[..|ps| - 1], m, start, i);
    }
  }

  /** Packed slices of different pairs share no byte. */
  lemma {:induction false} PackedDisjoint(ps: seq<Pair>, m: array<Byte>, start: nat, i: nat, j: nat)
    requires AllFit(ps) && Packed(ps, m, start) && i < j < |ps|
    ensures ps[i].value.Window? && ps[j].key.Window? && ps[i].value.hi <= ps[j].key.lo
  {
    if j < |ps| - 1 {
      PackedDisjoint(ps[..|ps| - 1], m, start, i, j);
    } else {
      PackedBelow(ps[..|ps| - 1], m, start, i);
    }
  }

  lemma {:induction false} FlatLength(ps: seq<Pair>, ts: seq<Spelling>)
    requires AllFit(ps) && SameLengths(ps, ts)
    ensures |Flat(ts)| == Sum(ps)
  {
    if ps != [] {
      FlatLength(ps[..|ps| - 1], ts[..|ts| - 1]);
    }
  }

  /** Cutting a block at the lengths of its parts gives the parts. */
  lemma {:induction false} CutBlock(m: Bytes, start: nat, front: Bytes, key: Bytes, value: Bytes)
    requires start + |front| + |key| + |value| <= |m|
    requires m[start..start + |front| + |key| + |value|] == front + (key + value)
    ensures m[start..start + |front|] == front
    ensures m[start + |front|..start + |front| + |key|] == key
    ensures m[start + |front| + |key|..start + |front| + |key| + |value|] == value
  {
    var block := m[start..start + |front| + |key| + |value|];
    var f, k := start + |front|, start + |front| + |key|;
    assert m[start..f] == block[..|front|] == front;
    assert m[f..k] == block[|front|..|front| + |key|] == key;
    assert m[k..k + |value|] == block[|front| + |key|..] == value;
  }

  lemma {:induction false} SubArray(m: array<Byte>, i: nat, j: nat)
    requires i <= j <= m.Length
    ensures m[..][i..j] == m[i..j]
  {
  }

  /** The last pair, lying over its own bytes, spells them. */
  lemma {:induction false} LastSpells(last: Pair, m: array<Byte>, all: Bytes, at: nat, t: Spelling)
    requires last.Fits() && |t.key| == last.key.Len() && |t.value| == last.value.Len() && m[..] == all
    requires last.key == Window(m, at, at + |t.key|) && last.value == Window(m, at + |t.key|, at + |t.key| + |t.value|)
    requires all[at..at + |t.key|] == t.key
    requires all[at + |t.key|..at + |t.key| + |t.value|] == t.value
    ensures last.key.Text() == t.key && last.value.Text() == t.value
  {
    SubArray(m, at, at + |t.key|);
    SubArray(m, at + |t.key|, at + |t.key| + |t.value|);
  }

  lemma {:induction false} TextsLast(ps: seq<Pair>, t: Spelling)
    requires AllFit(ps) && ps != []
    requires ps[|ps| - 1].key.Text() == t.key && ps[|ps| - 1].value.Text() == t.value
    ensures AllFit(ps[..|ps| - 1]) && Texts(ps) == Texts(ps[..|ps| - 1]) + [t]
  {
  }

  lemma {:induction false} PackedLast(ps: seq<Pair>, m: array<Byte>, start: nat, ts: seq<Spelling>)
    requires AllFit(ps) && Packed(ps, m, start) && SameLengths(ps, ts) && ps != []
    ensures var front, last, ts', t := ps[..|ps| - 1], ps[|ps| - 1], ts[..|ts| - 1], ts[|ts| - 1];
      && last.Fits() && |t.key| == last.key.Len() && |t.value| == last.value.Len()
      && AllFit(front) && Packed(front, m, start) && SameLengths(front, ts') && |Flat(ts')| == Sum(front)
      && last.key == Window(m, start + Sum(front), start + Sum(front) + |t.key|)
      && last.value == Window(m, start + Sum(front) + |t.key|, start + Sum(front) + |t.key| + |t.value|)
      && Flat(ts) == Flat(ts') + (t.key + t.value) && Sum(ps) == Sum(front) + |t.key| + |t.value|
  {
    FlatLength(ps[..|ps| - 1], ts[..|ts| - 1]);
  }

  lemma {:induction false} LastBlock(ps: seq<Pair>, m: array<Byte>, all: Bytes, start: nat, ts: seq<Spelling>)
    requires AllFit(ps) && Packed(ps, m, start) && SameLengths(ps, ts) && ps != [] && m[..] == all
    requires start + |Flat(ts)| <= |all| && all[start..start + |Flat(ts)|] == Flat(ts)
    ensures ps[|ps| - 1].key.Text() == ts[|ts| - 1].key && ps[|ps| - 1].value.Text() == ts[|ts| - 1].value
    ensures var front, ts' := ps[..|ps| - 1], ts[..|ts| - 1];
      && AllFit(front) && Packed(front, m, start) && SameLengths(front, ts')
      && start + |Flat(ts')| <= |all| && all[start..start + |Flat(ts')|] == Flat(ts')
  {
    hide Packed;
    hide Flat;
    hide Sum;
    hide AllFit;
    var front, last, ts', t := ps[..|ps| - 1], ps[|ps| - 1], ts[..|ts| - 1], ts[|ts| - 1];
    PackedLast(ps, m, start, ts);
    hide SameLengths;
    CutBlock(all, start, Flat(ts'), t.key, t.value);
    LastSpells(last, m, all, start + Sum(front), t);
  }

  lemma {:induction false} SpellNothing(ps: seq<Pair>, ts: seq<Spelling>)
    requires AllFit(ps) && SameLengths(ps, ts)
    ensures |ps| == |ts| && (|ps| == 0 ==> Texts(ps) == ts)
  {
  }

  /** Slices packed over the bytes of some spellings spell them. */
  lemma {:induction false} PackedSpells(ps: seq<Pair>, m: array<Byte>, all: Bytes, start: nat, ts: seq<Spelling>)
    requires AllFit(ps) && Packed(ps, m, start) && SameLengths(ps, ts) && m[..] == all
    requires start + |Flat(ts)| <= |all| && all[start..start + |Flat(ts)|] == Flat(ts)
    ensures Texts(ps) == ts
    decreases |ps|
  {
    hide *;
    SpellNothing(ps, ts);
    if |ps| > 0 {
      LastBlock(ps, m, all, start, ts);
      PackedSpells(ps[..|ps| - 1], m, all, start, ts[..|ts| - 1]);
      TextsLast(ps, ts[|ts| - 1]);
      assert ts == ts[..|ts| - 1] + [ts[|ts| - 1]];
    }
  }

  /** A block of bytes written over others. */
  ghost function Written(all: Bytes, at: nat, b: Bytes): Bytes
    requires at + |b| <= |all|
  {
    all[..at] + b + all[at + |b|..]
  }

  lemma {:induction false} TwoWrites(all: Bytes, at: nat, a: Bytes, b: Bytes)
    requires at + |a| + |b| <= |all|
    ensures Written(Written(all, at, a), at + |a|, b) == Written(all, at, a + b)
  {
  }

  lemma {:induction false} BlockAt(all: Bytes, at: nat, b: Bytes)
    requires at + |b| <= |all|
    ensures |Written(all, at, b)| == |all| && Written(all, at, b)[at..at + |b|] == b
    ensures Written(all, at, b)[..at] == all[..at]
  {
  }

  lemma {:induction false} NothingWritten(all: Bytes, at: nat)
    requires at <= |all|
    ensures Written(all, at, []) == all
  {
  }

  lemma {:induction false} LengthsOfTexts(ps: seq<Pair>)
    requires AllFit(ps)
    ensures SameLengths(ps, Texts(ps))
  {
    if ps != [] {
      LengthsOfTexts(ps[..|ps| - 1]);
    }
  }

  /** The builtin `copy`. */
  method CopyBytes(dst: Slice, src: Slice) returns (n: nat)
    requires dst.Fits() && dst.Window? && src.Fits() && dst.mem !in src.Mems()
    modifies dst.mem
    ensures n == if src.Len() < dst.Len() then src.Len() else dst.Len()
    ensures dst.mem[..] == Written(old(dst.mem[..]), dst.lo, if n == src.Len() then src.Text() else src.Text()[..n])
  {
    n := if src.Len() < dst.Len() then src.Len() else dst.Len();
    if src.Window? {
      var mem, lo, from, source := dst.mem, dst.lo, src.lo, src.mem;
      forall k | lo <= k < lo + n {
        mem[k] := source[from + (k - lo)];
      }
    }
  }

  /** Both slices of a pair, one behind the other at the head of `dst`; what is left of `dst` comes back. */
  method CopyPair(p: Pair, dst: Slice) returns (q: Pair, rest: Slice)
    requires p.Fits() && dst.Fits() && dst.Window? && dst.mem !in p.Mems() && p.Len() <= dst.Len()
    modifies dst.mem
    ensures q.key == Window(dst.mem, dst.lo, dst.lo + p.key.Len())
    ensures q.value == Window(dst.mem, dst.lo + p.key.Len(), dst.lo + p.Len())
    ensures rest == Window(dst.mem, dst.lo + p.Len(), dst.hi)
    ensures dst.mem[..] == Written(old(dst.mem[..]), dst.lo, p.key.Text() + p.value.Text())
  {
    hide Written;
    ghost var key, value, all := p.key.Text(), p.value.Text(), dst.mem[..];
    TwoWrites(all, dst.lo, key, value);
    var n := CopyBytes(dst, p.key);
    assert n == |key| && dst.mem[..] == Written(all, dst.lo, key) && p.value.Text() == value;
    var v := CopyBytes(Window(dst.mem, dst.lo + n, dst.hi), p.value);
    assert v == |value| && dst.mem[..] == Written(Written(all, dst.lo, key), dst.lo + n, value);
    var m := n + v;
    q := Pair(Window(dst.mem, dst.lo, dst.lo + n), Window(dst.mem, dst.lo + n, dst.lo + m));
    rest := Window(dst.mem, dst.lo + m, dst.hi);
  }

  /** How far the loop of `Copy` has come after `i` pairs. */
  ghost predicate Copied(ps: seq<Pair>, ts: seq<Spelling>, i: nat, qs: seq<Pair>, m: array<Byte>, start: nat) {
    && AllFit(ps) && SameLengths(ps, ts) && i == |qs| <= |ps|
    && AllFit(qs) && Packed(qs, m, start) && SameLengths(qs, ts[..i])
    && Sum(qs) == |Flat(ts[..i])| && Sum(qs) <= Sum(ps)
    && (i == |ps| ==> Sum(qs) == Sum(ps))
  }

  lemma {:induction false} CopiedNone(ps: seq<Pair>, ts: seq<Spelling>, m: array<Byte>, start: nat)
    requires AllFit(ps) && SameLengths(ps, ts)
    ensures Copied(ps, ts, 0, [], m, start) && Flat(ts[..0]) == []
  {
  }

  lemma {:induction false} CopiedOneMore(ps: seq<Pair>, ts: seq<Spelling>, i: nat, qs: seq<Pair>, q: Pair,
      m: array<Byte>, start: nat)
    requires Copied(ps, ts, i, qs, m, start) && i < |ps|
    requires q.key == Window(m, start + Sum(qs), start + Sum(qs) + ps[i].key.Len())
    requires q.value == Window(m, start + Sum(qs) + ps[i].key.Len(), start + Sum(qs) + ps[i].Len())
    requires q.Fits()
    ensures Copied(ps, ts, i + 1, qs + [q], m, start) && Sum(qs + [q]) == Sum(qs) + ps[i].Len()
  {
    hide Packed;
    hide Flat;
    hide Sum;
    PackedAppend(qs, q, m, start);
    FlatAppend(ts, i);
    assert SameLengths(qs + [q], ts[..i + 1]);
    hide SameLengths;
    SumOfPrefix(ps, i + 1);
    FlatOfPrefix(ps, ts, i + 1);
    assert ps[..|ps|] == ps;
  }

  lemma {:induction false} FlatOfPrefix(ps: seq<Pair>, ts: seq<Spelling>, n: nat)
    requires AllFit(ps) && SameLengths(ps, ts) && n <= |ps|
    ensures AllFit(ps[..n]) && |Flat(ts[..n])| == Sum(ps[..n])
  {
    FlatLength(ps[..n], ts[..n]);
  }

  /** There is room for pair `i` behind the pairs before it. */
  lemma {:induction false} RoomForOne(ps: seq<Pair>, ts: seq<Spelling>, i: nat, qs: seq<Pair>, m: array<Byte>,
      start: nat)
    requires Copied(ps, ts, i, qs, m, start) && i < |ps|
    ensures Sum(qs) + ps[i].Len() <= Sum(ps)
  {
    FlatOfPrefix(ps, ts, i);
    SumAppend(ps[..i], ps[i]);
    assert ps[..i + 1] == ps[..i] + [ps[i]];
    SumOfPrefix(ps, i + 1);
  }

  /** The state of the loop: the pairs so far, what is left of `dst`, and all of its array. */
  ghost predicate Copying(ps: seq<Pair>, ts: seq<Spelling>, i: nat, qs: seq<Pair>, dst: Slice, rest: Slice, all: Bytes)
    requires dst.Window?
    reads dst.mem
  {
    && Copied(ps, ts, i, qs, dst.mem, dst.lo)
    && dst.Fits() && Sum(ps) <= dst.Len() && |all| == dst.mem.Length
    && rest == Window(dst.mem, dst.lo + Sum(qs), dst.hi)
    && dst.mem[..] == Written(all, dst.lo, Flat(ts[..i]))
  }

  lemma {:induction false} CopyingNext(ps: seq<Pair>, ts: seq<Spelling>, i: nat, qs: seq<Pair>, dst: Slice,
      all: Bytes, q: Pair, left: Slice)
    requires dst.Window? && Copied(ps, ts, i, qs, dst.mem, dst.lo) && i < |ps|
    requires dst.Fits() && Sum(ps) <= dst.Len() && |all| == dst.mem.Length && Sum(qs) + ps[i].Len() <= Sum(ps)
    requires q.key == Window(dst.mem, dst.lo + Sum(qs), dst.lo + Sum(qs) + ps[i].key.Len())
    requires q.value == Window(dst.mem, dst.lo + Sum(qs) + ps[i].key.Len(), dst.lo + Sum(qs) + ps[i].Len())
    requires left == Window(dst.mem, dst.lo + Sum(qs) + ps[i].Len(), dst.hi)
    requires dst.mem[..] == Written(Written(all, dst.lo, Flat(ts[..i])), dst.lo + Sum(qs), ts[i].key + ts[i].value)
    ensures Copying(ps, ts, i + 1, qs + [q], dst, left, all)
  {
    hide Written;
    hide Packed;
    hide Flat;
    hide Sum;
    assert |ts[i].key| + |ts[i].value| == ps[i].Len();
    FlatAppend(ts, i);
    hide SameLengths;
    TwoWrites(all, dst.lo, Flat(ts[..i]), ts[i].key + ts[i].value);
    CopiedOneMore(ps, ts, i, qs, q, dst.mem, dst.lo);
  }

  /** One round of the loop. */
  method CopyNext(ps: seq<Pair>, ghost ts: seq<Spelling>, i: nat, qs: seq<Pair>, ghost dst: Slice, rest: Slice,
      ghost all: Bytes)
    returns (q: Pair, left: Slice)
    requires dst.Window? && Copying(ps, ts, i, qs, dst, rest, all) && i < |ps| && dst.mem !in ps[i].Mems()
    requires ts[i] == Spelling(ps[i].key.Text(), ps[i].value.Text())
    modifies dst.mem
    ensures Copying(ps, ts, i + 1, qs + [q], dst, left, all)
  {
    RoomForOne(ps, ts, i, qs, dst.mem, dst.lo);
    q, left := CopyPair(ps[i], rest);
    hide *;
    CopyingNext(ps, ts, i, qs, dst, all, q, left);
  }

  lemma {:induction false} CopyDone(ps: seq<Pair>, ts: seq<Spelling>, qs: seq<Pair>, dst: Slice, rest: Slice,
      all: Bytes)
    requires dst.Window? && AllFit(ps) && Copying(ps, ts, |ps|, qs, dst, rest, all)
    ensures Copied(ps, ts, |ps|, qs, dst.mem, dst.lo) && rest == Window(dst.mem, dst.lo + Sum(ps), dst.hi)
    ensures |Flat(ts)| == Sum(ps) && dst.lo + Sum(ps) <= |all| && dst.mem[..] == Written(all, dst.lo, Flat(ts))
  {
    assert ts[..|ps|] == ts;
  }

  /** The loop of `Copy`, over the inline slots or over the list, none of which looks into `dst`. */
  method CopyAll(ps: seq<Pair>, dst: Slice, ghost mems: set<array<Byte>>, ghost ts: seq<Spelling>)
    returns (qs: seq<Pair>, rest: Slice)
    requires AllFit(ps) && dst.Fits() && dst.Window? && Sum(ps) <= dst.Len()
    requires AllMems(ps) <= mems && dst.mem !in mems && ts == Texts(ps)
    modifies dst.mem
    ensures Copied(ps, ts, |ps|, qs, dst.mem, dst.lo)
    ensures rest == Window(dst.mem, dst.lo + Sum(ps), dst.hi)
    ensures |Flat(ts)| == Sum(ps) && dst.mem[..] == Written(old(dst.mem[..]), dst.lo, Flat(ts))
  {
    ghost var all := dst.mem[..];
    LengthsOfTexts(ps);
    CopiedNone(ps, ts, dst.mem, dst.lo);
    NothingWritten(all, dst.lo);
    qs, rest := [], dst;
    var i := 0;
    assert Copying(ps, ts, 0, qs, dst, rest, all);
    hide *;
    while i < |ps|
      invariant 0 <= i <= |ps| && Copying(ps, ts, i, qs, dst, rest, all) && Texts(ps) == ts
    {
      TextsAt(ps, i);
      MemsOfOne(ps, i);
      var q: Pair;
      q, rest := CopyNext(ps, ts, i, qs, dst, rest, all);
      qs := qs + [q];
      i := i + 1;
    }
    CopyDone(ps, ts, qs, dst, rest, all);
  }

  /** What `CopyAll` leaves behind spells what it was given. */
  lemma {:induction false} CopySpells(ps: seq<Pair>, ts: seq<Spelling>, qs: seq<Pair>, m: array<Byte>,
      start: nat, all: Bytes)
    requires Copied(ps, ts, |ps|, qs, m, start)
    requires start + |Flat(ts)| <= |all| && m[..] == Written(all, start, Flat(ts))
    ensures Texts(qs) == ts && Sum(qs) == Sum(ps) && m[..start] == all[..start] && Within(qs, {m})
  {
    assert ts[..|ps|] == ts;
    BlockAt(all, start, Flat(ts));
    SubArray(m, 0, start);
    FlatLength(qs, ts);
    PackedSpells(qs, m, m[..], start, ts);
    forall i | 0 <= i < |qs| ensures qs[i].Mems() <= {m} {
      PackedBelow(qs, m, start, i);
    }
  }

  /** Unused slots add nothing, neither to the bytes nor to the layout. */
  lemma {:induction false} UsedSlots(ps: seq<Pair>, ts: seq<Spelling>, qs: seq<Pair>, n: nat, m: array<Byte>,
      start: nat)
    requires Copied(ps, ts, |ps|, qs, m, start) && n <= |ps|
    requires Texts(qs) == ts && forall i :: n <= i < |ps| ==> ps[i].Len() == 0
    ensures |qs| == |ps| && AllFit(qs[..n]) && AllFit(ps[..n]) && Packed(qs[..n], m, start)
    ensures Texts(qs[..n]) == ts[..n] && Sum(qs[..n]) == Sum(ps[..n]) == Sum(ps)
    ensures forall i :: n <= i < |qs| ==> qs[i].Len() == 0
  {
    assert ts[..|ps|] == ts;
    assert forall i :: 0 <= i < |ps| ==> qs[i].Len() == ps[i].Len();
    TextsOfPrefix(qs, n);
    PackedPrefix(qs, m, start, n);
    SumOfPrefix(ps, n);
    SumOfPrefix(qs, n);
  }

  class Parameters {
    var pos: nat
    var bytes: nat
    const arr: array<Pair>
    var dyn: Option<seq<Pair>>
    ghost var mems: set<array<Byte>>

    /** The pairs in use. */
    function Data(): seq<Pair>
      requires pos <= arr.Length
      reads this, arr
    {
      if dyn.Some? then dyn.value else arr[..pos]
    }

    /** The pairs `Copy` goes through: unused inline slots too. */
    function Stored(): seq<Pair>
      reads this, arr
    {
      if dyn.Some? then dyn.value else arr[..]
    }

    ghost predicate Valid()
      reads this, arr
    {
      && arr.Length == INLINE && pos <= INLINE
      && AllFit(Stored()) && Within(Stored(), mems) && AllFit(Data())
      && bytes == Sum(Data())
      && (dyn.Some? ==> pos == INLINE)
      && (dyn.None? ==> forall i :: pos <= i < INLINE ==> arr[i].Len() == 0)
    }

    constructor ()
      ensures Valid() && fresh(arr) && arr.Length == INLINE && Data() == [] && dyn.None? && mems == {}
    {
      pos, bytes, dyn, mems := 0, 0, None, {};
      arr := new Pair[INLINE](_ => NO_PAIR);
    }

    /** Appends a pair, in the inline slots while there is room, else in the list they are moved to. */
    method Set(key: Slice, value: Slice)
      requires Valid() && key.Fits() && value.Fits()
      modifies this, arr
      ensures Valid() && Data() == old(Data()) + [Pair(key, value)]
      ensures bytes == old(bytes) + key.Len() + value.Len()
      ensures mems == old(mems) + key.Mems() + value.Mems()
    {
      hide Sum;
      hide AllFit;
      hide Within;
      ghost var slots, pair, known := Stored(), Pair(key, value), mems;
      assert pos == INLINE ==> slots == Data();
      mems := mems + key.Mems() + value.Mems();
      bytes := bytes + (key.Len() + value.Len());
      if pos < arr.Length {
        PutSlot(slots, pos, pair, known);
        arr[pos] := Pair(key, value);
        pos := pos + 1;
        ValidInline(this, slots[pos - 1 := pair]);
        return;
      }
      if dyn.None? {
        dyn := Some(arr[..]);
      }
      PutBehind(slots, pair, known);
      dyn := Some(dyn.value + [Pair(key, value)]);
      ValidSpilled(this, slots + [pair]);
    }

    /** All the bytes, packed into the head of `dst`; what is left of `dst` comes back. */
    method Copy(dst: Slice) returns (ret: Parameters, rest: Slice)
      requires Valid() && dst.Fits() && dst.Window? && bytes <= dst.Len() && dst.mem !in mems
      modifies dst.mem
      ensures fresh(ret) && fresh(ret.arr) && ret.Valid() && ret.bytes == bytes && ret.mems == {dst.mem}
      ensures Packed(ret.Data(), dst.mem, dst.lo) && rest == Window(dst.mem, dst.lo + bytes, dst.hi)
      ensures Texts(ret.Data()) == old(Texts(Data()))
      ensures dst.mem[..dst.lo] == old(dst.mem[..dst.lo])
      ensures dst.lo + bytes <= dst.mem.Length && dst.mem[dst.lo + bytes..] == old(dst.mem[dst.lo + bytes..])
    {
      hide *;
      DataWithin(this);
      ghost var ts := Texts(Data());
      ret := new Parameters();
      ret.pos := pos;
      ret.bytes := bytes;
      ret.mems := {dst.mem};
      assert Texts(Data()) == ts;
      if dyn.Some? {
        rest := CopySpilled(dst, ret);
      } else {
        rest := CopyInline(dst, ret);
      }
    }

    method CopySpilled(dst: Slice, ret: Parameters) returns (rest: Slice)
      requires Valid() && dyn.Some? && dst.Fits() && dst.Window? && bytes <= dst.Len() && dst.mem !in mems
      requires ret != this && ret.arr != arr && ret.arr.Length == INLINE
      requires ret.pos == pos && ret.bytes == bytes && ret.mems == {dst.mem}
      modifies dst.mem, ret`dyn
      ensures ret.Valid() && Texts(ret.Data()) == old(Texts(Data()))
      ensures Packed(ret.Data(), dst.mem, dst.lo) && rest == Window(dst.mem, dst.lo + bytes, dst.hi)
      ensures dst.mem[..dst.lo] == old(dst.mem[..dst.lo])
      ensures dst.lo + bytes <= dst.mem.Length && dst.mem[dst.lo + bytes..] == old(dst.mem[dst.lo + bytes..])
    {
      hide Valid;
      hide Data;
      hide Packed;
      hide Sum;
      hide Texts;
      hide AllMems;
      hide Written;
      hide Flat;
      hide Copied;
      hide Within;
      hide AllFit;
      SpilledFacts(this);
      ghost var all, ts := dst.mem[..], Texts(dyn.value);
      var pairs := dyn.value;
      var copied: seq<Pair>;
      copied, rest := CopyAll(pairs, dst, mems, ts);
      ret.dyn := Some(copied);
      SpilledCopied(ret, pairs, ts, copied, dst.mem, dst.lo, all);
    }

    method CopyInline(dst: Slice, ret: Parameters) returns (rest: Slice)
      requires Valid() && dyn.None? && dst.Fits() && dst.Window? && bytes <= dst.Len() && dst.mem !in mems
      requires ret != this && ret.arr != arr && ret.arr.Length == INLINE && ret.dyn.None?
      requires ret.pos == pos && ret.bytes == bytes && ret.mems == {dst.mem}
      modifies dst.mem, ret.arr
      ensures ret.Valid() && Texts(ret.Data()) == old(Texts(Data()))
      ensures Packed(ret.Data(), dst.mem, dst.lo) && rest == Window(dst.mem, dst.lo + bytes, dst.hi)
      ensures dst.mem[..dst.lo] == old(dst.mem[..dst.lo])
      ensures dst.lo + bytes <= dst.mem.Length && dst.mem[dst.lo + bytes..] == old(dst.mem[dst.lo + bytes..])
    {
      hide Valid;
      hide Data;
      hide Packed;
      hide Sum;
      hide Texts;
      hide AllMems;
      hide Written;
      hide Flat;
      hide Copied;
      hide Within;
      hide AllFit;
      InlineFacts(this);
      var slots := arr[..];
      ghost var all, ts := dst.mem[..], Texts(slots);
      var copied: seq<Pair>;
      copied, rest := CopyAll(slots, dst, mems, ts);
      assert |copied| == INLINE by { CopiedLength(slots, ts, copied, dst.mem, dst.lo); }
      forall i | 0 <= i < INLINE {
        ret.arr[i] := copied[i];
      }
      InlineCopied(ret, slots, ts, copied, dst.mem, dst.lo, all);
    }
  }

  lemma {:induction false} CopiedLength(ps: seq<Pair>, ts: seq<Spelling>, qs: seq<Pair>, m: array<Byte>, start: nat)
    requires Copied(ps, ts, |ps|, qs, m, start)
    ensures |qs| == |ps|
  {
  }

  lemma {:induction false} SpilledFacts(p: Parameters)
    requires p.Valid() && p.dyn.Some?
    ensures p.arr.Length == INLINE == p.pos && p.Data() == p.dyn.value && AllFit(p.dyn.value)
    ensures AllMems(p.dyn.value) <= p.mems && p.bytes == Sum(p.dyn.value)
  {
    WithinAll(p.dyn.value, p.mems);
  }

  lemma {:induction false} InlineFacts(p: Parameters)
    requires p.Valid() && p.dyn.None?
    ensures p.arr.Length == INLINE && p.pos <= INLINE && AllFit(p.arr[..]) && AllFit(p.Data())
    ensures AllMems(p.arr[..]) <= p.mems && p.bytes == Sum(p.arr[..]) && Texts(p.Data()) == Texts(p.arr[..])[..p.pos]
    ensures forall i :: p.pos <= i < INLINE ==> p.arr[i].Fits() && p.arr[i].Len() == 0
  {
    var slots := p.arr[..];
    assert slots[..p.pos] == p.Data();
    WithinAll(slots, p.mems);
    SumOfPrefix(slots, p.pos);
    TextsOfPrefix(slots, p.pos);
  }

  lemma {:induction false} DataWithin(p: Parameters)
    requires p.Valid()
    ensures p.arr.Length == INLINE && p.pos <= INLINE && AllFit(p.Data()) && AllMems(p.Data()) <= p.mems
    ensures p.bytes == Sum(p.Data())
  {
    WithinAll(p.Data(), p.mems);
  }

  lemma {:induction false} ValidSpilled(p: Parameters, pairs: seq<Pair>)
    requires p.arr.Length == INLINE == p.pos && p.dyn == Some(pairs)
    requires AllFit(pairs) && Within(pairs, p.mems) && p.bytes == Sum(pairs)
    ensures p.Valid() && p.Data() == pairs
  {
  }

  lemma {:induction false} ValidInline(p: Parameters, slots: seq<Pair>)
    requires p.arr.Length == INLINE == |slots| && p.pos <= INLINE && p.dyn.None?
    requires forall i :: 0 <= i < INLINE ==> p.arr[i] == slots[i]
    requires AllFit(slots) && Within(slots, p.mems) && AllFit(slots[..p.pos]) && p.bytes == Sum(slots[..p.pos])
    requires forall i :: p.pos <= i < INLINE ==> slots[i].Len() == 0
    ensures p.Valid() && p.Data() == slots[..p.pos]
  {
    assert p.arr[..] == slots && p.arr[..p.pos] == slots[..p.pos];
  }

  lemma {:induction false} SpilledCopied(p: Parameters, ps: seq<Pair>, ts: seq<Spelling>, qs: seq<Pair>,
      m: array<Byte>, start: nat, all: Bytes)
    requires p.arr.Length == INLINE == p.pos && p.dyn == Some(qs) && p.mems == {m}
    requires Copied(ps, ts, |ps|, qs, m, start) && p.bytes == Sum(ps)
    requires start + |Flat(ts)| <= |all| && m[..] == Written(all, start, Flat(ts))
    ensures p.Valid() && Packed(p.Data(), m, start) && Texts(p.Data()) == ts && m[..start] == all[..start]
    ensures m.Length == |all| && m[start + |Flat(ts)|..] == all[start + |Flat(ts)|..]
  {
    CopySpells(ps, ts, qs, m, start, all);
    ValidSpilled(p, qs);
  }

  lemma {:induction false} InlineCopied(p: Parameters, ps: seq<Pair>, ts: seq<Spelling>, qs: seq<Pair>,
      m: array<Byte>, start: nat, all: Bytes)
    requires p.arr.Length == INLINE == |ps| && p.pos <= INLINE && p.dyn.None? && p.mems == {m}
    requires Copied(ps, ts, INLINE, qs, m, start) && forall i :: 0 <= i < INLINE ==> p.arr[i] == qs[i]
    requires start + |Flat(ts)| <= |all| && m[..] == Written(all, start, Flat(ts))
    requires p.bytes == Sum(ps) && forall i :: p.pos <= i < INLINE ==> ps[i].Len() == 0
    ensures p.Valid() && Packed(p.Data(), m, start) && Texts(p.Data()) == ts[..p.pos] && m[..start] == all[..start]
    ensures m.Length == |all| && m[start + |Flat(ts)|..] == all[start + |Flat(ts)|..]
  {
    CopySpells(ps, ts, qs, m, start, all);
    UsedSlots(ps, ts, qs, p.pos, m, start);
    ValidInline(p, qs);
  }

  /** An option: its name and its parameters. */
  datatype NamedOption = NamedOption(name: Slice, parameters: Parameters) {
    ghost predicate Valid()
      reads parameters, parameters.arr
    {
      name.Fits() && parameters.Valid()
    }

    function Size(): nat
      requires name.Fits()
      reads parameters
    {
      name.Len() + parameters.bytes
    }

    method Copy(p: Slice) returns (copy: NamedOption)
      requires Valid() && p.Fits() && p.Window? && Size() <= p.Len()
      requires p.mem !in name.Mems() && p.mem !in parameters.mems
      modifies p.mem
      ensures fresh(copy.parameters) && fresh(copy.parameters.arr) && copy.Valid() && copy.Size() == Size()
      ensures copy.name == Window(p.mem, p.lo, p.lo + name.Len()) && copy.name.Text() == old(name.Text())
      ensures Packed(copy.parameters.Data(), p.mem, p.lo + name.Len())
      ensures Texts(copy.parameters.Data()) == old(Texts(parameters.Data()))
    {
      hide Packed;
      hide Sum;
      hide Texts;
      hide AllMems;
      hide Written;
      ghost var all, text, ts := p.mem[..], name.Text(), Texts(parameters.Data());
      DataWithin(parameters);
      var n := CopyBytes(p, name);
      assert text[..n] == text;
      BlockAt(all, p.lo, text);
      var copied := Window(p.mem, p.lo, p.lo + n);
      ghost var below := p.mem[..p.lo + n];
      assert below[p.lo..] == text;
      assert Texts(parameters.Data()) == ts;
      var parameters', _ := parameters.Copy(Window(p.mem, p.lo + n, p.hi));
      assert copied.Text() == below[p.lo..];
      copy := NamedOption(copied, parameters');
    }

    /** An equal option in fresh storage, every byte of which is used: the name, then the pairs. */
    method Clone() returns (copy: NamedOption)
      requires Valid()
      ensures fresh(copy.parameters) && fresh(copy.parameters.arr) && copy.Valid()
      ensures copy.name.Window? && copy.name.lo == 0 && fresh(copy.name.mem)
      ensures Packed(copy.parameters.Data(), copy.name.mem, copy.name.hi)
      ensures copy.name.hi + Sum(copy.parameters.Data()) == copy.name.mem.Length == Size()
      ensures copy.name.Text() == old(name.Text()) && Texts(copy.parameters.Data()) == old(Texts(parameters.Data()))
    {
      hide Packed;
      hide Texts;
      hide AllMems;
      hide Sum;
      ghost var ts, text := Texts(parameters.Data()), name.Text();
      DataWithin(parameters);
      var storage := new Byte[Size()];
      assert Texts(parameters.Data()) == ts && name.Text() == text;
      copy := Copy(Window(storage, 0, storage.Length));
    }
  }

  /** An option built by setting each pair in turn, in the order in which the map yields them. */
  method NewOption(name: Slice, params: seq<Pair>) returns (o: NamedOption)
    requires name.Fits() && AllFit(params)
    ensures fresh(o.parameters) && fresh(o.parameters.arr) && o.Valid()
    ensures o.name == name && o.parameters.Data() == params && o.Size() == name.Len() + Sum(params)
  {
    hide Parameters.Valid;
    hide Sum;
    var p := new Parameters();
    DataWithin(p);
    var i := 0;
    while i < |params|
      invariant 0 <= i <= |params| && fresh(p) && fresh(p.arr) && p.pos <= p.arr.Length
      invariant p.Valid() && p.Data() == params[..i]
    {
      p.Set(params[i].key, params[i].value);
      DataWithin(p);
      i := i + 1;
    }
    assert params[..i] == params;
    DataWithin(p);
    o := NamedOption(name, p);
  }
}

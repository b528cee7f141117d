/**
The selections made on a page: a bounded history of the newest ones, against the unbounded
log of every selection accepted since the history was last cleared.
*/
module SelectionHistory {
  import opened Optional

  const CAPACITY := 10

  /** A snapshot; `body` stands for its source, time, page, report and screenshot. */
  datatype Selection<T> = Selection(number: int, nodeID: int, body: T)

  // ---------- the unbounded log ----------

  datatype Event<T> = Push(s: Selection<T>) | Clear

  predicate Accepted<T(==)>(log: seq<Selection<T>>, s: Selection<T>) {
    log == [] || s.nodeID == 0 || log[|log| - 1].nodeID != s.nodeID
  }

  function Appended<T(==)>(log: seq<Selection<T>>, s: Selection<T>): seq<Selection<T>> {
    if Accepted(log, s) then log + [s.(number := |log| + 1)] else log
  }

  /** All that was accepted since the last clear, nothing ever dropped. */
  function Log<T(==)>(events: seq<Event<T>>): seq<Selection<T>> {
    if events == [] then []
    else
      var log := Log(events[..|events| - 1]);
      match events[|events| - 1]
      case Clear => []
      case Push(s) => Appended(log, s)
  }

  function Newest<T>(log: seq<T>, n: nat): seq<T> {
    if |log| <= n then log else log[|log| - n..]
  }

  function Reversed<T>(s: seq<T>): seq<T> {
    if s == [] then [] else [s[|s| - 1]] + Reversed(s[..|s| - 1])
  }

  predicate NumberedFrom<T>(s: seq<Selection<T>>, first: int) {
    forall i :: 0 <= i < |s| ==> s[i].number == first + i
  }

  /** No two neighbours for one known node. */
  predicate NeighboursDiffer<T>(s: seq<Selection<T>>) {
    forall j :: 0 < j < |s| && s[j].nodeID != 0 ==> s[j - 1].nodeID != s[j].nodeID
  }

  lemma {:induction false} LogIsNumbered<T>(events: seq<Event<T>>)
    ensures NumberedFrom(Log(events), 1) && NeighboursDiffer(Log(events))
  {
    if events != [] {
      LogIsNumbered(events[..|events| - 1]);
    }
  }

  lemma {:induction false} NewestKeeps<T>(log: seq<Selection<T>>, n: nat)
    requires NumberedFrom(log, 1) && NeighboursDiffer(log)
    ensures var held := Newest(log, n);
      |held| == (if |log| < n then |log| else n) && NumberedFrom(held, |log| - |held| + 1) && NeighboursDiffer(held)
  {
  }

  /**
  What is held after any run: at most ten, numbered consecutively up to the counter, no
  two neighbours for one known node, and the whole log as long as that is short.
  */
  lemma {:induction false} HeldAfterAnyRun<T>(events: seq<Event<T>>)
    ensures var log, held := Log(events), Newest(Log(events), CAPACITY);
      && |held| == (if |log| < CAPACITY then |log| else CAPACITY)
      && NumberedFrom(held, |log| - |held| + 1)
      && NeighboursDiffer(held)
  {
    LogIsNumbered(events);
    NewestKeeps(Log(events), CAPACITY);
  }

  function Pushes<T>(ss: seq<Selection<T>>): (events: seq<Event<T>>)
    ensures |events| == |ss| && forall i :: 0 <= i < |ss| ==> events[i] == Push(ss[i])
  {
    seq(|ss|, i requires 0 <= i < |ss| => Push(ss[i]))
  }

  function Numbered<T>(ss: seq<Selection<T>>): (numbered: seq<Selection<T>>)
    ensures |numbered| == |ss| && forall i :: 0 <= i < |ss| ==> numbered[i] == ss[i].(number := i + 1)
  {
    seq(|ss|, i requires 0 <= i < |ss| => ss[i].(number := i + 1))
  }

  /** Nothing but a repetition is refused: selections without any are all in the log, numbered from 1. */
  lemma {:induction false} NothingElseRefused<T>(events: seq<Event<T>>, ss: seq<Selection<T>>)
    requires NeighboursDiffer(ss)
    ensures Log(events + [Clear] + Pushes(ss)) == Numbered(ss)
    decreases |ss|
  {
    var all := events + [Clear] + Pushes(ss);
    if ss == [] {
      assert all[..|all| - 1] == events && all[|all| - 1] == Clear;
    } else {
      var init := ss[..|ss| - 1];
      assert forall j :: 0 <= j < |init| ==> init[j] == ss[j];
      NothingElseRefused(events, init);
      assert all[..|all| - 1] == events + [Clear] + Pushes(init) && all[|all| - 1] == Push(ss[|ss| - 1]);
      assert Numbered(ss)[..|ss| - 1] == Numbered(init);
    }
  }

  /** A repetition of a known node is refused, wherever in the run. */
  lemma {:induction false} RepetitionRefused<T>(events: seq<Event<T>>, s: Selection<T>, again: Selection<T>)
    requires s.nodeID == again.nodeID != 0
    ensures Log(events + [Push(s)] + [Push(again)]) == Log(events + [Push(s)])
  {
    assert (events + [Push(s)] + [Push(again)])[..|events| + 1] == events + [Push(s)];
    assert (events + [Push(s)])[..|events|] == events;
  }

  lemma {:induction false} LogOfPush<T>(events: seq<Event<T>>, s: Selection<T>)
    ensures Log(events + [Push(s)]) == Appended(Log(events), s)
  {
    assert (events + [Push(s)])[..|events|] == events;
  }

  lemma {:induction false} NewestEndsAlike<T>(log: seq<T>, n: nat)
    requires n > 0
    ensures var held := Newest(log, n);
      (held == [] <==> log == []) && (log != [] ==> held[|held| - 1] == log[|log| - 1])
  {
  }

  /** The source's append and cut, on the held items. */
  function Cut<T>(s: seq<T>): seq<T> {
    if |s| > CAPACITY then s[|s| - CAPACITY..] else s
  }

  lemma {:induction false} CutOfAppended<T>(log: seq<T>, s: T)
    ensures Cut(Newest(log, CAPACITY) + [s]) == Newest(log + [s], CAPACITY)
  {
  }

  lemma {:induction false} NewestOfNewest<T>(log: seq<T>, n: nat, m: nat)
    ensures var held := Newest(log, m);
      held[|held| - (if n > |held| then |held| else n)..] == Newest(log, if n < m then n else m)
  {
  }

  lemma {:induction false} ReversedFront<T>(s: seq<T>)
    requires s != []
    ensures Reversed(s) == Reversed(s[1..]) + [s[0]]
  {
    if |s| > 1 {
      ReversedFront(s[..|s| - 1]);
      assert s[..|s| - 1][1..] == s[1..][..|s| - 2];
    }
  }

  lemma {:induction false} ReversedTail<T>(s: seq<T>, i: nat)
    requires i < |s|
    ensures Reversed(s[i..]) == Reversed(s[i + 1..]) + [s[i]]
  {
    ReversedFront(s[i..]);
    assert s[i..][1..] == s[i + 1..];
  }

  lemma {:induction false} ReversedAt<T>(s: seq<T>, k: nat)
    requires k < |s|
    ensures |Reversed(s)| == |s| && Reversed(s)[k] == s[|s| - 1 - k]
  {
    if |s| > 1 {
      ReversedAt(s[..|s| - 1], if k > 0 then k - 1 else 0);
    }
  }

  lemma {:induction false} NewestFirst<T>(s: seq<T>, n: nat)
    ensures var r := Reversed(Newest(s, n));
      && |r| == (if n < |s| then n else |s|)
      && forall k :: 0 <= k < |r| ==> r[k] == s[|s| - 1 - k]
  {
    var held := Newest(s, n);
    if held != [] {
      ReversedAt(held, 0);
    }
    forall k | 0 <= k < |Reversed(held)| ensures Reversed(held)[k] == s[|s| - 1 - k] {
      ReversedAt(held, k);
    }
  }

  // ---------- the history ----------

  class History<T(==)> {
    var items: seq<Selection<T>>
    var nextSeq: int
    ghost var events: seq<Event<T>>

    ghost predicate Valid()
      reads this
    {
      items == Newest(Log(events), CAPACITY) && nextSeq == |Log(events)|
    }

    constructor ()
      ensures Valid() && events == []
    {
      items, nextSeq, events := [], 0, [];
    }

    method Push(s: Selection<T>) returns (added: Option<Selection<T>>)
      requires Valid()
      modifies this
      ensures Valid() && events == old(events) + [Event.Push(s)]
      ensures added == if Accepted(Log(old(events)), s) then Some(s.(number := |Log(old(events))| + 1)) else None
    {
      LogOfPush(events, s);
      NewestEndsAlike(Log(events), CAPACITY);
      hide Log;
      hide Newest;
      ghost var log := Log(events);
      events := events + [Event.Push(s)];
      var n := |items|;
      if n > 0 && s.nodeID != 0 && items[n - 1].nodeID == s.nodeID {
        return None;
      }
      nextSeq := nextSeq + 1;
      var numbered := s.(number := nextSeq);
      CutOfAppended(log, numbered);
      items := items + [numbered];
      if |items| > CAPACITY {
        items := items[|items| - CAPACITY..];
      }
      return Some(numbered);
    }

    /** Newest first. */
    method Latest(n: nat) returns (out: seq<Selection<T>>)
      requires Valid()
      ensures out == Reversed(Newest(Log(events), if n < CAPACITY then n else CAPACITY))
    {
      var count := if n > |items| then |items| else n;
      NewestOfNewest(Log(events), n, CAPACITY);
      out := [];
      var i := |items| - 1;
      assert Reversed(items[i + 1..]) == [];
      hide *;
      while i >= |items| - count
        invariant |items| - count - 1 <= i < |items| && out == Reversed(items[i + 1..])
      {
        ReversedTail(items, i);
        out := out + [items[i]];
        i := i - 1;
      }
    }

    method Clear() returns (count: nat)
      requires Valid()
      modifies this
      ensures Valid() && events == old(events) + [Event.Clear] && items == [] && nextSeq == 0
      ensures count == |old(items)|
    {
      count := |items|;
      items, nextSeq := [], 0;
      events := events + [Event.Clear];
    }
  }
}

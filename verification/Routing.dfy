/**
The routing loop of chromedp/browser.go: the goroutine that reads the connection, the
loop that owns `pages`, and the targets that register with it and send commands.
*/
module Routing {
  import opened Optional

  /** A message for a session: a reply when it has an id, an event when it has none. */
  datatype Message = Message(session: string, id: nat, body: int)

  /**
  An executor: where its queue starts among the messages of its session, where it
  ends, and all that was ever put in it.
  */
  datatype Target = Target(session: string, start: nat, stop: Option<nat>, put: seq<Message>)

  /** The reading goroutine: between reads, or sending to one of the two channels of the loop. */
  datatype Reader = Reading | Holding(m: Message) | HoldingDetach(session: string)

  /** The loop: in its select, or sending to the queue of a target. */
  datatype Loop = Selecting | Forwarding(m: Message, t: nat) | Stopped

  /** `incoming` and `detaches` are the two channels of capacity one; `seen` and `taken` are logs. */
  datatype State = State(
    reader: Reader,
    incoming: Option<Message>,
    detaches: Option<string>,
    loop: Loop,
    pages: map<string, nat>,
    targets: map<nat, Target>,
    next: nat,
    owner: map<nat, nat>,
    commands: seq<nat>,
    written: set<nat>,
    seen: seq<Message>,
    taken: seq<Message>)

  const INIT := State(Reading, None, None, Selecting, map[], map[], 0, map[], [], {}, [], [])

  datatype Step =
    | Read(m: Message)                 // only commands that were written are answered
    | ReadDetached(session: string)
    | PushMessage
    | PushDetach
    | TakeMessage
    | Put
    | TakeDetach
    | Register(t: nat, session: string)  // a send on an unbuffered channel: the executor exists once the loop has it
    | Command(t: nat)
    | WriteCommand(ok: bool)
    | Stop

  /** The messages of one session, in order. */
  function Of(ms: seq<Message>, session: string): seq<Message> {
    if ms == [] then []
    else Of(ms[..|ms| - 1], session) + (if ms[|ms| - 1].session == session then [ms[|ms| - 1]] else [])
  }

  predicate Enabled(s: State, step: Step) {
    match step
    case Read(m) => s.reader.Reading? && (m.id == 0 || m.id in s.written)
    case ReadDetached(_) => s.reader.Reading?
    case PushMessage => s.reader.Holding? && s.incoming.None?
    case PushDetach => s.reader.HoldingDetach? && s.detaches.None?
    case TakeMessage => s.loop.Selecting? && s.incoming.Some?
    case Put => s.loop.Forwarding? && s.loop.t in s.targets
    case TakeDetach => s.loop.Selecting? && s.detaches.Some?
    case Register(t, _) => s.loop.Selecting? && t !in s.targets
    case Command(t) => t in s.targets
    case WriteCommand(_) => s.loop.Selecting? && s.commands != []
    case Stop => true
  }

  /** A page that loses its place in the map gets nothing more. */
  function Ended(s: State, session: string): map<nat, Target> {
    if session in s.pages && s.pages[session] in s.targets then
      var t := s.pages[session];
      s.targets[t := s.targets[t].(stop := Some(|Of(s.taken, session)|))]
    else s.targets
  }

  function Do(s: State, step: Step): State
    requires Enabled(s, step)
  {
    match step
    case Read(m) => s.(reader := Holding(m), seen := s.seen + [m])
    case ReadDetached(session) => s.(reader := HoldingDetach(session))
    case PushMessage => s.(reader := Reading, incoming := Some(s.reader.m))
    case PushDetach => s.(reader := Reading, detaches := Some(s.reader.session))
    case TakeMessage =>
      var m := s.incoming.value;
      var u := s.(incoming := None, taken := s.taken + [m]);
      if m.session in s.pages then u.(loop := Forwarding(m, s.pages[m.session])) else u
    case Put =>
      var t := s.targets[s.loop.t];
      s.(loop := Selecting, targets := s.targets[s.loop.t := t.(put := t.put + [s.loop.m])])
    case TakeDetach =>
      var session := s.detaches.value;
      s.(detaches := None, targets := Ended(s, session), pages := s.pages - {session})
    case Register(t, session) =>
      s.(targets := Ended(s, session)[t := Target(session, |Of(s.taken, session)|, None, [])],
         pages := s.pages[session := t])
    case Command(t) =>
      s.(next := s.next + 1, owner := s.owner[s.next + 1 := t], commands := s.commands + [s.next + 1])
    case WriteCommand(ok) =>
      s.(commands := s.commands[1..], written := if ok then s.written + {s.commands[0]} else s.written)
    case Stop => s.(loop := Stopped)
  }

  function Run(steps: seq<Step>): State {
    if steps == [] then INIT
    else
      var s, step := Run(steps[..|steps| - 1]), steps[|steps| - 1];
      if Enabled(s, step) then Do(s, step) else s
  }

  // ---------- the invariant ----------

  function InFlight(s: State): seq<Message> {
    (if s.incoming.Some? then [s.incoming.value] else []) + (if s.reader.Holding? then [s.reader.m] else [])
  }

  /** The message taken for `t` that is not in its queue yet. */
  function OnItsWay(s: State, t: nat): seq<Message> {
    if s.loop.Forwarding? && s.loop.t == t then [s.loop.m] else []
  }

  ghost predicate TargetOk(s: State, t: nat)
    requires t in s.targets
  {
    var target := s.targets[t];
    var mine := Of(s.taken, target.session);
    && target.start <= |mine|
    && if target.stop.None? then
         && target.session in s.pages && s.pages[target.session] == t
         && (!s.loop.Stopped? ==> target.put + OnItsWay(s, t) == mine[target.start..])
         && (s.loop.Stopped? ==> target.put <= mine[target.start..])
       else
         && target.start <= target.stop.value <= |mine|
         && (target.session in s.pages ==> s.pages[target.session] != t)
         && target.put == mine[target.start..target.stop.value] && OnItsWay(s, t) == []
  }

  /** No message before the start of a target answers a command of that target. */
  ghost predicate StartOk(s: State, t: nat)
    requires t in s.targets
  {
    var target := s.targets[t];
    var mine := Of(s.seen, target.session);
    forall k :: 0 <= k < target.start && k < |mine| ==> mine[k].id in s.owner ==> s.owner[mine[k].id] != t
  }

  ghost predicate Inv(s: State) {
    && s.seen == s.taken + InFlight(s)
    && (forall t :: t in s.targets ==> TargetOk(s, t) && StartOk(s, t))
    && (forall session :: session in s.pages ==>
          s.pages[session] in s.targets && s.targets[s.pages[session]].session == session
          && s.targets[s.pages[session]].stop.None?)
    && (s.loop.Forwarding? ==> s.loop.t in s.targets && s.targets[s.loop.t].session == s.loop.m.session)
    && (forall id :: id in s.owner ==> 0 < id <= s.next && s.owner[id] in s.targets)
    && (forall id :: id in s.commands || id in s.written ==> id in s.owner)
    && (forall k :: 0 <= k < |s.seen| ==> s.seen[k].id == 0 || s.seen[k].id in s.written)
  }

  lemma {:induction false} OfOneMore(ms: seq<Message>, m: Message, session: string)
    ensures Of(ms + [m], session) == Of(ms, session) + (if m.session == session then [m] else [])
  {
    assert (ms + [m])[..|ms|] == ms;
  }

  lemma {:induction false} OfPrefix(ms: seq<Message>, more: seq<Message>, session: string)
    ensures Of(ms, session) <= Of(ms + more, session)
  {
    if more == [] {
      assert ms + more == ms;
    } else {
      var init := more[..|more| - 1];
      OfPrefix(ms, init, session);
      assert ms + more == (ms + init) + [more[|more| - 1]];
      OfOneMore(ms + init, more[|more| - 1], session);
    }
  }

  lemma {:induction false} OfIsFrom(ms: seq<Message>, session: string, k: nat)
    requires k < |Of(ms, session)|
    ensures Of(ms, session)[k] in ms && Of(ms, session)[k].session == session
  {
    if ms != [] {
      var init := ms[..|ms| - 1];
      if k < |Of(init, session)| {
        OfIsFrom(init, session, k);
      }
    }
  }

  // Each part of the invariant, step by step.

  lemma {:induction false} TargetKeptByTake(s: State, t: nat)
    requires Inv(s) && Enabled(s, TakeMessage) && t in s.targets
    ensures TargetOk(Do(s, TakeMessage), t)
  {
    assert TargetOk(s, t);
    TakenOnce(s, t);
  }

  lemma {:induction false} TakenOnce(s: State, t: nat)
    requires t in s.targets && TargetOk(s, t) && s.loop.Selecting? && s.incoming.Some?
    requires forall session :: session in s.pages ==>
      s.pages[session] in s.targets && s.targets[s.pages[session]].session == session
    ensures TargetOk(Do(s, TakeMessage), t)
  {
    hide Of;
    var target, m := s.targets[t], s.incoming.value;
    OfOneMore(s.taken, m, target.session);
    var mine, now := Of(s.taken, target.session), Of(s.taken + [m], target.session);
    if target.stop.None? {
      assert target.put + [] == target.put;
      if m.session == target.session {
        assert now[target.start..] == mine[target.start..] + [m];
      }
    } else {
      assert now[target.start..target.stop.value] == mine[target.start..target.stop.value];
    }
  }

  lemma {:induction false} TargetKeptByPut(s: State, t: nat)
    requires Inv(s) && Enabled(s, Put) && t in s.targets
    ensures TargetOk(Do(s, Put), t)
  {
    hide Of, StartOk;
    assert TargetOk(s, t) && TargetOk(s, s.loop.t);
    var target := s.targets[t];
    assert target.put + [] == target.put && target.put + [s.loop.m] + [] == target.put + [s.loop.m];
  }

  lemma {:induction false} TargetKeptByDetach(s: State, t: nat)
    requires Inv(s) && Enabled(s, TakeDetach) && t in s.targets
    ensures TargetOk(Do(s, TakeDetach), t)
  {
    hide Of;
    assert TargetOk(s, t);
    var target := s.targets[t];
    var mine := Of(s.taken, target.session);
    assert target.put + [] == target.put;
    assert mine[target.start..|mine|] == mine[target.start..];
  }

  lemma {:induction false} TargetKeptByRegister(s: State, added: nat, session: string, t: nat)
    requires Inv(s) && Enabled(s, Register(added, session)) && t in s.targets
    ensures TargetOk(Do(s, Register(added, session)), t)
  {
    hide Of;
    assert TargetOk(s, t);
    var target := s.targets[t];
    var mine := Of(s.taken, target.session);
    assert target.put + [] == target.put;
    assert mine[target.start..|mine|] == mine[target.start..];
  }

  lemma {:induction false} TargetBegins(s: State, t: nat, session: string)
    requires Inv(s) && Enabled(s, Register(t, session))
    ensures TargetOk(Do(s, Register(t, session)), t)
  {
    hide Of;
    var mine := Of(s.taken, session);
    assert [] + [] == mine[|mine|..];
  }

  lemma {:induction false} TargetKeptByOthers(s: State, step: Step, t: nat)
    requires Inv(s) && Enabled(s, step) && t in s.targets
    requires !step.TakeMessage? && !step.Put? && !step.TakeDetach? && !step.Register?
    ensures TargetOk(Do(s, step), t)
  {
    assert TargetOk(s, t);
  }

  lemma {:induction false} StartKept(s: State, step: Step, t: nat)
    requires Inv(s) && Enabled(s, step) && t in Do(s, step).targets
    ensures StartOk(Do(s, step), t)
  {
    hide TargetOk;
    if t in s.targets {
      assert StartOk(s, t);
      var session := s.targets[t].session;
      if step.Read? {
        StartIsSeen(s, t);
        OfOneMore(s.seen, step.m, session);
      }
      if step.Command? {
        SeenAreIssued(s, session);
      }
    } else {
      SeenAreIssued(s, step.session);
    }
  }

  lemma {:induction false} StartIsSeen(s: State, t: nat)
    requires Inv(s) && t in s.targets
    ensures s.targets[t].start <= |Of(s.seen, s.targets[t].session)|
  {
    assert TargetOk(s, t);
    OfPrefix(s.taken, InFlight(s), s.targets[t].session);
  }

  lemma {:induction false} SeenAreIssued(s: State, session: string)
    requires Inv(s)
    ensures forall k :: 0 <= k < |Of(s.seen, session)| ==>
      var id := Of(s.seen, session)[k].id;
      id <= s.next && (id in s.owner ==> s.owner[id] in s.targets)
  {
    hide TargetOk, StartOk;
    forall k | 0 <= k < |Of(s.seen, session)|
      ensures Of(s.seen, session)[k].id <= s.next
    {
      OfIsFrom(s.seen, session, k);
    }
  }

  lemma {:induction false} LogsKept(s: State, step: Step)
    requires Inv(s) && Enabled(s, step)
    ensures Do(s, step).seen == Do(s, step).taken + InFlight(Do(s, step))
    ensures forall k :: 0 <= k < |Do(s, step).seen| ==>
      Do(s, step).seen[k].id == 0 || Do(s, step).seen[k].id in Do(s, step).written
  {
    hide TargetOk, StartOk, Ended;
  }

  lemma {:induction false} PagesKept(s: State, step: Step)
    requires Inv(s) && Enabled(s, step)
    ensures
      var u := Do(s, step);
      && (forall session :: session in u.pages ==>
            u.pages[session] in u.targets && u.targets[u.pages[session]].session == session
            && u.targets[u.pages[session]].stop.None?)
      && (u.loop.Forwarding? ==> u.loop.t in u.targets && u.targets[u.loop.t].session == u.loop.m.session)
  {
    hide TargetOk, StartOk;
  }

  lemma {:induction false} OwnersKept(s: State, step: Step)
    requires Inv(s) && Enabled(s, step)
    ensures
      var u := Do(s, step);
      && (forall id :: id in u.owner ==> 0 < id <= u.next && u.owner[id] in u.targets)
      && (forall id :: id in u.commands || id in u.written ==> id in u.owner)
  {
    hide TargetOk, StartOk;
  }

  lemma {:induction false} StepKeepsInv(s: State, step: Step)
    requires Inv(s) && Enabled(s, step)
    ensures Inv(Do(s, step))
  {
    hide TargetOk, StartOk;
    LogsKept(s, step);
    PagesKept(s, step);
    OwnersKept(s, step);
    forall t | t in Do(s, step).targets
      ensures TargetOk(Do(s, step), t) && StartOk(Do(s, step), t)
    {
      StartKept(s, step, t);
      if step.TakeMessage? {
        TargetKeptByTake(s, t);
      } else if step.Put? {
        TargetKeptByPut(s, t);
      } else if step.TakeDetach? {
        TargetKeptByDetach(s, t);
      } else if step.Register? {
        if t in s.targets {
          TargetKeptByRegister(s, step.t, step.session, t);
        } else {
          TargetBegins(s, t, step.session);
        }
      } else {
        TargetKeptByOthers(s, step, t);
      }
    }
  }

  lemma {:induction false} RunKeepsInv(steps: seq<Step>)
    ensures Inv(Run(steps))
  {
    if steps != [] {
      var s, step := Run(steps[..|steps| - 1]), steps[|steps| - 1];
      RunKeepsInv(steps[..|steps| - 1]);
      if Enabled(s, step) {
        StepKeepsInv(s, step);
      }
    }
  }

  // ---------- what it means ----------

  /** What was put in a queue is, in order, a contiguous run of the messages read for its session. */
  lemma {:induction false} QueueIsContiguous(steps: seq<Step>, t: nat)
    requires t in Run(steps).targets
    ensures
      var s := Run(steps);
      var target := s.targets[t];
      var mine := Of(s.seen, target.session);
      target.start + |target.put| <= |mine| && target.put == mine[target.start..target.start + |target.put|]
  {
    RunKeepsInv(steps);
    InvContiguous(Run(steps), t);
  }

  lemma {:induction false} InvContiguous(s: State, t: nat)
    requires Inv(s) && t in s.targets
    ensures
      var target := s.targets[t];
      var mine := Of(s.seen, target.session);
      target.start + |target.put| <= |mine| && target.put == mine[target.start..target.start + |target.put|]
  {
    assert TargetOk(s, t);
    var target := s.targets[t];
    var taken, mine := Of(s.taken, target.session), Of(s.seen, target.session);
    OfPrefix(s.taken, InFlight(s), target.session);
    var n := target.start + |target.put|;
    if target.stop.None? && !s.loop.Stopped? {
      assert target.put == (target.put + OnItsWay(s, t))[..|target.put|];
      assert taken[target.start..][..|target.put|] == taken[target.start..n];
    } else if target.stop.None? {
      assert taken[target.start..][..|target.put|] == taken[target.start..n];
    }
    assert target.put == taken[target.start..n] == mine[target.start..n];
  }

  /** The run starts no later than the first reply to a command of the target. */
  lemma {:induction false} RepliesAreNotMissed(steps: seq<Step>, t: nat, k: nat)
    requires t in Run(steps).targets
    requires k < |Of(Run(steps).seen, Run(steps).targets[t].session)|
    requires
      var id := Of(Run(steps).seen, Run(steps).targets[t].session)[k].id;
      id in Run(steps).owner && Run(steps).owner[id] == t
    ensures Run(steps).targets[t].start <= k
  {
    RunKeepsInv(steps);
    assert StartOk(Run(steps), t);
  }

  /**
  While the target has its place in the map, nothing taken for it is left out: all of it
  is in the queue, but for the one message that is being put.
  */
  lemma {:induction false} NothingIsSkipped(steps: seq<Step>, t: nat)
    requires t in Run(steps).targets && Run(steps).targets[t].stop.None? && !Run(steps).loop.Stopped?
    ensures
      var s := Run(steps);
      var mine := Of(s.taken, s.targets[t].session);
      s.targets[t].start <= |mine| && s.targets[t].put + OnItsWay(s, t) == mine[s.targets[t].start..]
  {
    RunKeepsInv(steps);
    assert TargetOk(Run(steps), t);
  }

  /** A target loses its place only when a detach of its session is processed, or another executor takes the session. */
  lemma {:induction false} EndsOnlyByDetach(steps: seq<Step>, step: Step, t: nat)
    requires t in Run(steps).targets && Run(steps).targets[t].stop.None? && Enabled(Run(steps), step)
    ensures
      var s, u := Run(steps), Do(Run(steps), step);
      u.targets[t].stop.Some? <==>
        (step.TakeDetach? && s.detaches.value == s.targets[t].session)
        || (step.Register? && step.session == s.targets[t].session)
  {
    RunKeepsInv(steps);
    assert TargetOk(Run(steps), t);
  }

  /** Once it has ended, its queue stays as it is. */
  lemma {:induction false} EndedQueueIsFinal(steps: seq<Step>, step: Step, t: nat)
    requires t in Run(steps).targets && Run(steps).targets[t].stop.Some? && Enabled(Run(steps), step)
    ensures Do(Run(steps), step).targets[t] == Run(steps).targets[t]
  {
    RunKeepsInv(steps);
    assert TargetOk(Run(steps), t);
  }
}

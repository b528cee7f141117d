/**
What the states of `Routing` say about the past: the logs are what was read and taken, the
detaches are processed in order, commands are numbered and written in order, and the queue of
a target starts at its registration.
*/
module RoutingHistory {
  import opened Optional
  import opened Routing

  /** What has happened; `registered` has the session of each target and how many of its messages were taken before. */
  datatype Past = Past(
    arrived: seq<Message>,
    takes: nat,
    detached: seq<string>,
    detachTakes: nat,
    issued: seq<nat>,
    writes: seq<bool>,
    registered: map<nat, (string, nat)>,
    stopped: bool)
  {
    ghost function Taken(): seq<Message> { if takes <= |arrived| then arrived[..takes] else arrived }

    ghost function After(step: Step): Past {
      match step
      case Read(m) => this.(arrived := arrived + [m])
      case ReadDetached(session) => this.(detached := detached + [session])
      case TakeMessage => this.(takes := takes + 1)
      case TakeDetach => this.(detachTakes := detachTakes + 1)
      case Command(t) => this.(issued := issued + [t])
      case WriteCommand(ok) => this.(writes := writes + [ok])
      case Register(t, session) => this.(registered := registered[t := (session, |Of(Taken(), session)|)])
      case Stop => this.(stopped := true)
      case _ => this
    }
  }

  ghost function PastOf(steps: seq<Step>): Past {
    if steps == [] then Past([], 0, [], 0, [], [], map[], false)
    else
      var init, step := steps[..|steps| - 1], steps[|steps| - 1];
      if Enabled(Run(init), step) then PastOf(init).After(step) else PastOf(init)
  }

  /** The detaches on their way to the loop. */
  function DetachInFlight(s: State): seq<string> {
    (if s.detaches.Some? then [s.detaches.value] else [])
    + (if s.reader.HoldingDetach? then [s.reader.session] else [])
  }

  ghost predicate MessagesRecorded(s: State, p: Past) {
    && s.seen == p.arrived && p.takes <= |p.arrived| && s.taken == p.arrived[..p.takes]
    && p.arrived[p.takes..] == InFlight(s)
  }

  ghost predicate DetachesRecorded(s: State, p: Past) {
    p.detachTakes <= |p.detached| && p.detached[p.detachTakes..] == DetachInFlight(s)
  }

  ghost predicate CommandsRecorded(s: State, p: Past) {
    && s.next == |p.issued| && |p.writes| + |s.commands| == |p.issued|
    && (forall id :: id in s.owner <==> 1 <= id <= s.next)
    && (forall id :: id in s.owner ==> s.owner[id] == p.issued[id - 1])
    && (forall k :: 0 <= k < |s.commands| ==> s.commands[k] == |p.writes| + 1 + k)
    && (forall id :: id in s.written <==> 1 <= id <= |p.writes| && p.writes[id - 1])
  }

  ghost predicate TargetsRecorded(s: State, p: Past) {
    && (forall t :: t in s.targets <==> t in p.registered)
    && (forall t :: t in s.targets ==> (s.targets[t].session, s.targets[t].start) == p.registered[t])
    && (s.loop.Stopped? <==> p.stopped)
  }

  ghost predicate Recorded(s: State, p: Past) {
    MessagesRecorded(s, p) && DetachesRecorded(s, p) && CommandsRecorded(s, p) && TargetsRecorded(s, p)
  }

  lemma {:induction false} MessagesOn(s: State, p: Past, step: Step)
    requires MessagesRecorded(s, p) && Enabled(s, step)
    ensures MessagesRecorded(Do(s, step), p.After(step))
  {
    hide Ended, Of;
  }

  lemma {:induction false} DetachesOn(s: State, p: Past, step: Step)
    requires DetachesRecorded(s, p) && Enabled(s, step)
    ensures DetachesRecorded(Do(s, step), p.After(step))
  {
    hide Ended, Of;
  }

  lemma {:induction false} CommandsOn(s: State, p: Past, step: Step)
    requires CommandsRecorded(s, p) && Enabled(s, step)
    ensures CommandsRecorded(Do(s, step), p.After(step))
  {
    hide Ended, Of;
  }

  lemma {:induction false} TargetsOn(s: State, p: Past, step: Step)
    requires TargetsRecorded(s, p) && MessagesRecorded(s, p) && Enabled(s, step)
    ensures TargetsRecorded(Do(s, step), p.After(step))
  {
    hide Of;
  }

  /** Every state tells its past. */
  lemma {:induction false} RunIsRecorded(steps: seq<Step>)
    ensures Recorded(Run(steps), PastOf(steps))
  {
    hide Enabled, Do;
    if steps != [] {
      var init, step := steps[..|steps| - 1], steps[|steps| - 1];
      RunIsRecorded(init);
      if Enabled(Run(init), step) {
        MessagesOn(Run(init), PastOf(init), step);
        DetachesOn(Run(init), PastOf(init), step);
        CommandsOn(Run(init), PastOf(init), step);
        TargetsOn(Run(init), PastOf(init), step);
      }
    }
  }

  /** Messages are taken in the order in which they were read, each once, and as they were read. */
  lemma {:induction false} TakenAsRead(steps: seq<Step>)
    ensures
      var s, p := Run(steps), PastOf(steps);
      && s.seen == p.arrived && p.takes <= |p.arrived| && s.taken == p.arrived[..p.takes] && |p.arrived| <= p.takes + 2
      && p.detachTakes <= |p.detached| <= p.detachTakes + 2
      && (s.detaches.Some? ==> p.detachTakes < |p.detached| && s.detaches.value == p.detached[p.detachTakes])
  {
    RunIsRecorded(steps);
  }

  /** Commands are numbered and written in the order in which they were issued, for the targets that issued them. */
  lemma {:induction false} WrittenAsIssued(steps: seq<Step>, id: nat)
    ensures
      var s, p := Run(steps), PastOf(steps);
      && (id in s.owner <==> 1 <= id <= |p.issued|) && (id in s.owner ==> s.owner[id] == p.issued[id - 1])
      && |p.writes| <= |p.issued| && (id in s.written <==> 1 <= id <= |p.writes| && p.writes[id - 1])
      && (id in s.commands <==> |p.writes| < id <= |p.issued|)
  {
    RunIsRecorded(steps);
    var s, p := Run(steps), PastOf(steps);
    if |p.writes| < id <= |p.issued| {
      assert s.commands[id - 1 - |p.writes|] == id;
    }
  }

  /**
  What is in the queue of a registered target that has its place in the map: exactly the messages of its
  session that the loop took since it registered, but for the one that is being put.
  */
  lemma {:induction false} QueueSinceRegistered(steps: seq<Step>, t: nat)
    requires t in PastOf(steps).registered
    ensures t in Run(steps).targets
    ensures
      var s, p := Run(steps), PastOf(steps);
      var (session, start) := p.registered[t];
      var mine := Of(p.Taken(), session);
      && s.targets[t].session == session && start <= |mine|
      && (s.targets[t].stop.None? && !p.stopped ==> s.targets[t].put + OnItsWay(s, t) == mine[start..])
      && (s.targets[t].stop.Some? ==>
        start <= s.targets[t].stop.value <= |mine| && s.targets[t].put == mine[start..s.targets[t].stop.value])
  {
    hide Of;
    RunIsRecorded(steps);
    RunKeepsInv(steps);
    assert TargetOk(Run(steps), t);
  }

  // ---------- what can always be done ----------

  lemma {:induction false} Grow(steps: seq<Step>, step: Step) returns (more: seq<Step>)
    requires Enabled(Run(steps), step)
    ensures more == steps + [step] && Run(more) == Do(Run(steps), step)
  {
    hide Enabled, Do;
    more := steps + [step];
    assert more[..|steps|] == steps;
  }

  /** When the loop selects and nothing is on its way, a message can reach the page of its session. */
  lemma {:induction false} MessageGetsThrough(steps: seq<Step>, m: Message) returns (run: seq<Step>)
    requires Run(steps).reader.Reading? && Run(steps).incoming.None? && Run(steps).loop.Selecting?
    requires m.id == 0 || m.id in Run(steps).written
    ensures steps <= run
    ensures
      var s, u := Run(steps), Run(run);
      if m.session in s.pages then
        s.pages[m.session] in u.targets
        && s.pages[m.session] in s.targets
        && u.targets[s.pages[m.session]].put == s.targets[s.pages[m.session]].put + [m]
      else u.targets == s.targets
  {
    hide Run, Of, TargetOk, StartOk;
    RunKeepsInv(steps);
    run := Grow(steps, Read(m));
    run := Grow(run, PushMessage);
    run := Grow(run, TakeMessage);
    if m.session in Run(steps).pages {
      run := Grow(run, Put);
    }
  }

  /** Likewise a detach: the page of its session is out of the map, and its target ended. */
  lemma {:induction false} DetachGetsThrough(steps: seq<Step>, session: string) returns (run: seq<Step>)
    requires Run(steps).reader.Reading? && Run(steps).detaches.None? && Run(steps).loop.Selecting?
    ensures steps <= run && Run(run).pages == Run(steps).pages - {session}
    ensures session in Run(steps).pages ==>
      var t := Run(steps).pages[session];
      t in Run(run).targets && Run(run).targets[t].stop.Some?
  {
    hide Run, Of, TargetOk, StartOk;
    RunKeepsInv(steps);
    run := Grow(steps, ReadDetached(session));
    run := Grow(run, PushDetach);
    run := Grow(run, TakeDetach);
  }
}

/**
What the states of `CommandReply` say about the past: which reply a caller gets, what its
outcome comes from, and in which order commands are written.
*/
module CommandHistory {
  import opened Optional
  import opened CommandReply

  // ---------- what has happened ----------

  /** The steps that took effect, and in their order the calls, the commands queued and the writes. */
  datatype Past = Past(taken: set<Step>, numbered: seq<(Endpoint, bool)>, queued: seq<nat>, writes: seq<bool>) {
    ghost function After(step: Step): Past {
      Past(
        taken + {step},
        numbered + if step.Number? then [(step.e, step.alreadyDone)] else [],
        queued + if step.Enqueue? then [step.id] else [],
        writes + if step.Write? then [step.ok] else [])
    }
  }

  ghost function PastOf(steps: seq<Step>): Past {
    if steps == [] then Past({}, [], [], [])
    else
      var init, step := steps[..|steps| - 1], steps[|steps| - 1];
      if Enabled(Run(init), step) then PastOf(init).After(step) else PastOf(init)
  }

  /** The caller with this number has done something. */
  ghost predicate Mentioned(taken: set<Step>, id: nat) {
    || Register(id) in taken || FailToEncode(id) in taken || Enqueue(id) in taken || GiveUp(id) in taken
    || Receive(id) in taken || CancelContext(id) in taken
  }

  ghost predicate CallRecorded(s: State, p: Past, id: nat)
    requires id in s.calls
  {
    var c := s.calls[id];
    && 1 <= id <= |p.numbered| && c.endpoint == p.numbered[id - 1].0
    && (c.ctxDone <==> p.numbered[id - 1].1 || CancelContext(id) in p.taken)
    && (c.phase == Numbered <==> Register(id) !in p.taken)
    && (c.phase == Returned(Unencodable) <==> FailToEncode(id) in p.taken)
    && (c.phase == Returned(Cancelled) <==> GiveUp(id) in p.taken)
    && (c.phase.Returned? && c.phase.outcome.Got? <==> Receive(id) in p.taken)
    && (c.phase == Waiting || Receive(id) in p.taken ==> Enqueue(id) in p.taken)
    && (c.phase == Numbered || c.phase == Registered || c.phase == Returned(Unencodable) ==> Enqueue(id) !in p.taken)
    && (id in p.queued <==> Enqueue(id) in p.taken)
  }

  ghost predicate WrittenIn(p: Past, id: nat)
    requires |p.writes| <= |p.queued|
  {
    exists k :: 0 <= k < |p.writes| && p.writes[k] && p.queued[k] == id
  }

  /** The queue is what was queued and not yet taken out, and `written` what was taken out without an error. */
  ghost predicate QueueRecorded(s: State, p: Past) {
    && Distinct(p.queued) && |p.writes| <= |p.queued|
    && s.queue == p.queued[|p.writes|..] && |s.queue| <= QUEUE_SIZE
    && (forall id :: id in s.written <==> WrittenIn(p, id))
    && (forall id :: id in p.queued ==> id in s.calls)
  }

  ghost predicate Recorded(s: State, p: Past) {
    && |p.numbered| == s.next
    && (forall id :: id in s.calls <==> 1 <= id <= s.next)
    && (forall id :: Mentioned(p.taken, id) ==> id in s.calls)
    && (forall id :: id in s.calls ==> CallRecorded(s, p, id))
    && QueueRecorded(s, p)
  }

  lemma {:induction false} CallRecordedByCaller(s: State, p: Past, step: Step, id: nat)
    requires id in s.calls && CallRecorded(s, p, id) && Enabled(s, step)
    requires !ReaderStep(step) && !step.Number? && !step.Write?
    ensures id in Do(s, step).calls && CallRecorded(Do(s, step), p.After(step), id)
  {
    match step
    case Register(_) =>
    case FailToEncode(_) =>
    case Enqueue(_) =>
    case GiveUp(_) =>
    case Receive(_) =>
    case CancelContext(_) =>
  }

  /** The steps of the others leave these parts of a call alone. */
  lemma {:induction false} OthersLeaveCall(s: State, step: Step, id: nat)
    requires id in s.calls && Enabled(s, step)
    requires ReaderStep(step) || step.Write? || (step.Number? && id != s.next + 1)
    ensures id in Do(s, step).calls
    ensures
      var c, d := s.calls[id], Do(s, step).calls[id];
      d.endpoint == c.endpoint && d.ctxDone == c.ctxDone && d.phase == c.phase
  {
  }

  lemma {:induction false} CallRecordedByOthers(s: State, p: Past, step: Step, id: nat)
    requires id in s.calls && CallRecorded(s, p, id) && Enabled(s, step)
    requires ReaderStep(step) || step.Write? || (step.Number? && id != s.next + 1)
    ensures id in Do(s, step).calls && CallRecorded(Do(s, step), p.After(step), id)
  {
    hide Do, Enabled;
    OthersLeaveCall(s, step, id);
  }

  lemma {:induction false} WrittenOn(p: Past, step: Step, id: nat)
    requires |p.writes| <= |p.queued| && (step.Write? ==> |p.writes| < |p.queued|)
    ensures
      WrittenIn(p.After(step), id) <==> WrittenIn(p, id) || (step == Write(true) && p.queued[|p.writes|] == id)
  {
    var q := p.After(step);
    if WrittenIn(p, id) {
      var k :| 0 <= k < |p.writes| && p.writes[k] && p.queued[k] == id;
      assert q.writes[k] && q.queued[k] == id;
    }
    if step == Write(true) && p.queued[|p.writes|] == id {
      assert q.writes[|p.writes|] && q.queued[|p.writes|] == id;
    }
  }

  lemma {:induction false} QueueRecordedOn(s: State, p: Past, step: Step)
    requires Recorded(s, p) && Enabled(s, step)
    ensures QueueRecorded(Do(s, step), p.After(step))
  {
    if step.Enqueue? {
      assert CallRecorded(s, p, step.id);
    }
    var t, q := Do(s, step), p.After(step);
    forall id
      ensures id in t.written <==> WrittenIn(q, id)
    {
      WrittenOn(p, step, id);
    }
  }

  lemma {:induction false} RecordedOn(s: State, p: Past, step: Step)
    requires Recorded(s, p) && Enabled(s, step)
    ensures Recorded(Do(s, step), p.After(step))
  {
    hide CallRecorded, QueueRecorded;
    var t, q := Do(s, step), p.After(step);
    QueueRecordedOn(s, p, step);
    forall id | id in t.calls
      ensures CallRecorded(t, q, id)
    {
      if id in s.calls {
        if ReaderStep(step) || step.Write? || step.Number? {
          CallRecordedByOthers(s, p, step, id);
        } else {
          CallRecordedByCaller(s, p, step, id);
        }
      } else {
        assert !Mentioned(p.taken, id);
        NewCallRecorded(s, p, step, id);
      }
    }
  }

  lemma {:induction false} NewCallRecorded(s: State, p: Past, step: Step, id: nat)
    requires Recorded(s, p) && Enabled(s, step) && id !in s.calls && id in Do(s, step).calls
    requires !Mentioned(p.taken, id)
    ensures CallRecorded(Do(s, step), p.After(step), id)
  {
    assert step.Number? && id == s.next + 1;
    assert id !in p.queued;
  }

  /** Every state tells its past. */
  lemma {:induction false} RunIsRecorded(steps: seq<Step>)
    ensures Recorded(Run(steps), PastOf(steps))
  {
    hide Enabled, Do, CallRecorded;
    if steps != [] {
      var init := steps[..|steps| - 1];
      RunIsRecorded(init);
      if Enabled(Run(init), steps[|steps| - 1]) {
        RecordedOn(Run(init), PastOf(init), steps[|steps| - 1]);
      }
    }
  }

  /**
  Commands are written in the order in which they were queued, each once, and only those whose
  writing did not fail count as written; at most 32 wait.
  */
  lemma {:induction false} CommandsInOrder(steps: seq<Step>)
    ensures
      var s, p := Run(steps), PastOf(steps);
      && Distinct(p.queued) && |p.writes| <= |p.queued| && s.queue == p.queued[|p.writes|..] && |s.queue| <= 32
      && (forall id :: id in s.written <==> exists k :: 0 <= k < |p.writes| && p.writes[k] && p.queued[k] == id)
      && (forall id :: id in p.queued <==> Enqueue(id) in p.taken)
  {
    RunIsRecorded(steps);
    var s, p := Run(steps), PastOf(steps);
    forall id
      ensures id in p.queued <==> Enqueue(id) in p.taken
      ensures id in s.written <==> exists k :: 0 <= k < |p.writes| && p.writes[k] && p.queued[k] == id
    {
      assert Enqueue(id) in p.taken ==> Mentioned(p.taken, id);
      assert id in s.calls ==> CallRecorded(s, p, id);
      assert id in s.written <==> WrittenIn(p, id);
    }
  }

  /** The k-th call numbered has number k, keeps its endpoint, and its outcome tells what came of it. */
  lemma {:induction false} OutcomeTells(steps: seq<Step>, id: nat)
    ensures
      var s, p := Run(steps), PastOf(steps);
      id in s.calls <==> 1 <= id <= |p.numbered|
    ensures
      var s, p := Run(steps), PastOf(steps);
      id in s.calls ==>
        var c := s.calls[id];
        && c.endpoint == p.numbered[id - 1].0
        && (c.ctxDone <==> p.numbered[id - 1].1 || CancelContext(id) in p.taken)
        && (c.phase == Returned(Unencodable) <==> FailToEncode(id) in p.taken)
        && (c.phase == Returned(Cancelled) <==> GiveUp(id) in p.taken)
        && (c.phase.Returned? && c.phase.outcome.Got? <==> Receive(id) in p.taken)
        && (Receive(id) in p.taken ==> c.ch == None)
        && (Receive(id) in p.taken ==> Enqueue(id) in p.taken)
        && (Enqueue(id) in p.taken ==> Register(id) in p.taken && FailToEncode(id) !in p.taken)
        && (GiveUp(id) in p.taken ==> c.ctxDone && Receive(id) !in p.taken)
  {
    RunIsRecorded(steps);
    RunKeepsInv(steps);
    var s := Run(steps);
    if id in s.calls {
      assert CallRecorded(s, PastOf(steps), id) && CallOk(s, id);
    }
  }

  // ---------- which reply it is ----------

  /** A message with the call's number comes to its endpoint, with its listener registered. */
  predicate ArrivesFor(s: State, step: Step, id: nat) {
    && step.Arrive? && step.msg.id == id
    && id in s.calls && s.calls[id].endpoint == step.e && s.calls[id].phase != Numbered
  }

  ghost function Arrivals(steps: seq<Step>, id: nat): seq<Message> {
    if steps == [] then []
    else
      var init, step := steps[..|steps| - 1], steps[|steps| - 1];
      var s := Run(init);
      Arrivals(init, id) + if Enabled(s, step) && ArrivesFor(s, step, id) then [step.msg] else []
  }

  /** The listener is still to be looked at by the run of the listeners that is under way for such a message. */
  predicate Pending(r: Reader, list: seq<nat>, id: nat) {
    (r.At? || r.Inside?) && r.msg.id == id && exists k :: r.i <= k < |list| && list[k] == id
  }

  /** It was found live, and is about to send or to give up. */
  predicate Found(r: Reader, list: seq<nat>, id: nat) { r.Inside? && r.i < |list| && list[r.i] == id }

  ghost predicate ReplyOk(c: Call, r: Reader, list: seq<nat>, id: nat, arrivals: seq<Message>) {
    && (c.phase == Numbered ==> arrivals == [])
    && (arrivals != [] ==> c.lctxDone || c.sent || Pending(r, list, id))
    && (Pending(r, list, id) && (!c.lctxDone || Found(r, list, id)) ==> arrivals == [r.msg])
    && (c.ch.Some? ==> arrivals != [] && c.ch.value == arrivals[0])
    && (c.phase.Returned? && c.phase.outcome.Got? ==> arrivals != [] && c.phase.outcome.reply == arrivals[0])
  }

  ghost predicate RightReply(s: State, id: nat, arrivals: seq<Message>)
    requires id in s.calls
  {
    var c := s.calls[id];
    ReplyOk(c, s.ReaderOf(c.endpoint), s.List(c.endpoint), id, arrivals)
  }

  lemma {:induction false} ReplyKeptByCaller(s: State, step: Step, id: nat, arrivals: seq<Message>)
    requires id in s.calls && CallOk(s, id) && RightReply(s, id, arrivals)
    requires Enabled(s, step) && !ReaderStep(step) && (step.Number? ==> id != s.next + 1)
    ensures id in Do(s, step).calls && RightReply(Do(s, step), id, arrivals)
  {
    hide Pending, Found;
    match step
    case Number(_, _) =>
    case Register(other) =>
      assert s.ReaderOf(s.calls[other].endpoint).Idle?;
      NothingPending(s.List(s.calls[other].endpoint), id);
      NothingPending(Do(s, step).List(s.calls[other].endpoint), id);
    case FailToEncode(_) =>
    case Enqueue(_) =>
    case GiveUp(_) =>
    case Receive(_) =>
    case CancelContext(_) =>
    case Write(_) =>
  }

  lemma {:induction false} NothingPending(list: seq<nat>, id: nat)
    ensures !Pending(Idle, list, id) && !Found(Idle, list, id)
  {
  }

  /** A look at a listener of the call's endpoint that is gone, and one at a live one. */
  lemma {:induction false} PendingAfterLook(msg: Message, i: nat, list: seq<nat>, id: nat)
    requires i < |list|
    ensures Pending(At(msg, i), list, id) ==> msg.id == id
    ensures
      var left := list[..i] + list[i + 1..];
      Pending(At(msg, i), left, id) ==> Pending(At(msg, i), list, id)
    ensures
      var left := list[..i] + list[i + 1..];
      Pending(At(msg, i), list, id) && list[i] != id ==> Pending(At(msg, i), left, id)
    ensures Pending(Inside(msg, i), list, id) <==> Pending(At(msg, i), list, id)
    ensures Pending(Inside(msg, i), list, id) && list[i] != id ==> Pending(At(msg, i + 1), list, id)
    ensures Pending(At(msg, i + 1), list, id) ==> Pending(Inside(msg, i), list, id)
  {
    var left := list[..i] + list[i + 1..];
    if Pending(At(msg, i), list, id) && list[i] != id {
      var k :| i <= k < |list| && list[k] == id;
      assert left[k - 1] == id;
    }
    if Pending(At(msg, i), left, id) {
      var k :| i <= k < |left| && left[k] == id;
      assert list[k + 1] == id;
    }
  }

  lemma {:induction false} ReplyKeptByLook(s: State, f: Endpoint, id: nat, arrivals: seq<Message>)
    requires id in s.calls && CallOk(s, id) && RightReply(s, id, arrivals) && Enabled(s, Look(f))
    ensures RightReply(Do(s, Look(f)), id, arrivals)
  {
    hide Pending;
    var r := s.ReaderOf(f);
    PendingAfterLook(r.msg, r.i, s.List(f), id);
  }

  lemma {:induction false} ReplyKeptByReader(s: State, step: Step, id: nat, arrivals: seq<Message>)
    requires id in s.calls && CallOk(s, id) && RightReply(s, id, arrivals)
    requires Enabled(s, step) && ReaderStep(step) && !step.Look? && !step.Arrive?
    requires ReaderOk(s, step.e) && ListOk(s, step.e)
    ensures RightReply(Do(s, step), id, arrivals)
  {
    hide Pending;
    var r, list := s.ReaderOf(step.e), s.List(step.e);
    match step
    case Pass(_) => PendingAfterLook(r.msg, r.i, list, id);
    case Drop(_) =>
      PendingAfterLook(r.msg, r.i, list, id);
      NonePending(r.msg, r.i, list, id);
    case Send(_) =>
      PendingAfterLook(r.msg, r.i, list, id);
      FoundIsPending(r.msg, r.i, list);
      NonePending(r.msg, r.i, list, id);
    case CancelListener(_) =>
      NonePending(r.msg, r.i, list, id);
      OnlyOnce(r.msg, r.i, list, id);
    case Finish(_) =>
      NothingLeft(r.msg, r.i, list, id);
      NothingPending(list, id);
  }

  lemma {:induction false} NothingLeft(msg: Message, i: nat, list: seq<nat>, id: nat)
    requires i >= |list|
    ensures !Pending(At(msg, i), list, id)
  {
  }

  lemma {:induction false} FoundIsPending(msg: Message, i: nat, list: seq<nat>)
    requires i < |list| && list[i] == msg.id
    ensures Pending(Inside(msg, i), list, msg.id)
  {
  }

  lemma {:induction false} NonePending(msg: Message, i: nat, list: seq<nat>, id: nat)
    ensures !Pending(Cancelling(msg, i), list, id) && !Found(Cancelling(msg, i), list, id)
  {
  }

  lemma {:induction false} OnlyOnce(msg: Message, i: nat, list: seq<nat>, id: nat)
    requires Distinct(list) && i < |list| && list[i] == msg.id
    ensures !Pending(At(msg, i + 1), list, id)
  {
  }

  lemma {:induction false} ReplyKeptByArrive(s: State, f: Endpoint, msg: Message, id: nat, arrivals: seq<Message>)
    requires id in s.calls && CallOk(s, id) && RightReply(s, id, arrivals)
    requires ListOk(s, f) && Enabled(s, Arrive(f, msg))
    ensures
      RightReply(Do(s, Arrive(f, msg)), id, arrivals + if ArrivesFor(s, Arrive(f, msg), id) then [msg] else [])
  {
    hide Distinct;
    NothingPending(s.List(f), id);
    if id in s.List(f) {
      var k :| 0 <= k < |s.List(f)| && s.List(f)[k] == id;
    }
  }

  lemma {:induction false} NewCallHasNone(s: State, step: Step, id: nat)
    requires Inv(s) && Enabled(s, step) && id !in s.calls && id in Do(s, step).calls
    ensures RightReply(Do(s, step), id, [])
  {
    assert step.Number?;
    var e := step.e;
    assert ListOk(s, e);
  }

  lemma {:induction false} NoneBefore(steps: seq<Step>, id: nat)
    requires id !in Run(steps).calls
    ensures Arrivals(steps, id) == []
    decreases |steps|
  {
    if steps != [] {
      var init, step := steps[..|steps| - 1], steps[|steps| - 1];
      if id in Run(init).calls {
        CallsStay(Run(init), step, id);
      }
      NoneBefore(init, id);
    }
  }

  lemma {:induction false} CallsStay(s: State, step: Step, id: nat)
    requires id in s.calls && Enabled(s, step)
    ensures id in Do(s, step).calls
  {
  }

  lemma {:induction false} RunGivesRightReply(steps: seq<Step>, id: nat)
    requires id in Run(steps).calls
    ensures RightReply(Run(steps), id, Arrivals(steps, id))
    decreases |steps|
  {
    hide Do, Enabled, RightReply, CallOk, ListOk, ReaderOk, ArrivesFor;
    if steps != [] {
      var init, step := steps[..|steps| - 1], steps[|steps| - 1];
      var s := Run(init);
      RunKeepsInv(init);
      if id in s.calls {
        RunGivesRightReply(init, id);
        if Enabled(s, step) {
          RightReplyKept(s, step, id, Arrivals(init, id));
        } else {
          assert Arrivals(steps, id) == Arrivals(init, id);
        }
      } else {
        NoneBefore(init, id);
        NotForNobody(s, step, id);
        NewCallHasNone(s, step, id);
      }
    }
  }

  lemma {:induction false} NotForNobody(s: State, step: Step, id: nat)
    requires id !in s.calls
    ensures !ArrivesFor(s, step, id)
  {
  }

  lemma {:induction false} RightReplyKept(s: State, step: Step, id: nat, arrivals: seq<Message>)
    requires Inv(s) && id in s.calls && Enabled(s, step) && RightReply(s, id, arrivals)
    ensures id in Do(s, step).calls
    ensures RightReply(Do(s, step), id, arrivals + if ArrivesFor(s, step, id) then [step.msg] else [])
  {
    hide Do, Enabled, RightReply, CallOk, ListOk, ReaderOk;
    CallsStay(s, step, id);
    if step.Arrive? {
      ReplyKeptByArrive(s, step.e, step.msg, id, arrivals);
    } else {
      assert arrivals + [] == arrivals;
      if !ReaderStep(step) {
        if step.Number? { NextIsNew(s); }
        ReplyKeptByCaller(s, step, id, arrivals);
      } else if step.Look? {
        ReplyKeptByLook(s, step.e, id, arrivals);
      } else {
        ReplyKeptByReader(s, step, id, arrivals);
      }
    }
  }

  /** Each of these messages did arrive, at the call's own endpoint and with its number. */
  lemma {:induction false} ArrivalsArrived(steps: seq<Step>, id: nat, k: nat)
    requires k < |Arrivals(steps, id)|
    ensures Arrivals(steps, id)[k].id == id && id in Run(steps).calls
    ensures Arrive(Run(steps).calls[id].endpoint, Arrivals(steps, id)[k]) in PastOf(steps).taken
    decreases |steps|
  {
    hide Do;
    if steps != [] {
      var init, step := steps[..|steps| - 1], steps[|steps| - 1];
      var s := Run(init);
      if k < |Arrivals(init, id)| {
        ArrivalsArrived(init, id, k);
      }
      if Enabled(s, step) && id in s.calls {
        CallsStay(s, step, id);
        RunIsRecorded(init);
        RunIsRecorded(steps);
        EndpointStays(s, step, id);
      }
    }
  }

  lemma {:induction false} EndpointStays(s: State, step: Step, id: nat)
    requires id in s.calls && Enabled(s, step) && s.next + 1 !in s.calls
    ensures id in Do(s, step).calls && Do(s, step).calls[id].endpoint == s.calls[id].endpoint
  {
  }

  /**
  What a caller gets, or finds in its channel, is the first message with its number that came to
  its endpoint after its listener was registered: whole, and none that came later or elsewhere.
  */
  lemma {:induction false} FirstReplyWins(steps: seq<Step>, id: nat)
    requires id in Run(steps).calls
    ensures
      var c, arrivals := Run(steps).calls[id], Arrivals(steps, id);
      && (c.ch.Some? ==> arrivals != [] && c.ch.value == arrivals[0])
      && (c.phase.Returned? && c.phase.outcome.Got? ==> arrivals != [] && c.phase.outcome.reply == arrivals[0])
      && (arrivals != [] ==> Arrive(c.endpoint, arrivals[0]) in PastOf(steps).taken && arrivals[0].id == id)
  {
    RunGivesRightReply(steps, id);
    if Arrivals(steps, id) != [] {
      ArrivalsArrived(steps, id, 0);
    }
  }

  /** No reply is lost: once the listeners have run for one, its caller has it, will find it, or has cancelled. */
  lemma {:induction false} NoReplyIsLost(steps: seq<Step>, id: nat)
    requires id in Run(steps).calls && Arrivals(steps, id) != []
    requires Run(steps).ReaderOf(Run(steps).calls[id].endpoint) == Idle
    ensures
      var c, reply := Run(steps).calls[id], Arrivals(steps, id)[0];
      c.ctxDone || c.ch == Some(reply) || c.phase == Returned(Got(reply))
  {
    hide Do, Enabled;
    RunKeepsInv(steps);
    RunGivesRightReply(steps, id);
    assert CallOk(Run(steps), id);
    NothingPending(Run(steps).List(Run(steps).calls[id].endpoint), id);
  }

  // ---------- what can always be done ----------

  lemma {:induction false} Grow(steps: seq<Step>, step: Step) returns (more: seq<Step>)
    requires Enabled(Run(steps), step)
    ensures more == steps + [step] && Run(more) == Do(Run(steps), step)
  {
    hide Enabled, Do;
    more := steps + [step];
    assert more[..|steps|] == steps;
  }

  /** The listeners whose context is done. */
  ghost function Dead(calls: map<nat, Call>): set<nat> { set id | id in calls && calls[id].lctxDone }

  /** The calls once the listeners in `called` have run for a message. */
  ghost function Delivered(calls: map<nat, Call>, called: seq<nat>, msg: Message): map<nat, Call> {
    if msg.id in called && msg.id in calls then
      calls[msg.id := calls[msg.id].(ch := Some(msg), sent := true, lctxDone := true)]
    else calls
  }

  /** A live listener that the message is not for is called and passed. */
  lemma {:induction false} OtherCalled(s: State, e: Endpoint)
    requires Enabled(s, Look(e)) && !s.calls[s.List(e)[s.ReaderOf(e).i]].lctxDone
    requires s.List(e)[s.ReaderOf(e).i] != s.ReaderOf(e).msg.id
    ensures Enabled(Do(s, Look(e)), Pass(e))
    ensures
      Do(Do(s, Look(e)), Pass(e)) == s.(readers := s.readers[e := At(s.ReaderOf(e).msg, s.ReaderOf(e).i + 1)])
  {
  }

  /** The one that it is for sends it and cancels itself. */
  lemma {:induction false} OwnCalled(s: State, e: Endpoint)
    requires Enabled(s, Look(e)) && !s.calls[s.List(e)[s.ReaderOf(e).i]].lctxDone
    requires s.List(e)[s.ReaderOf(e).i] == s.ReaderOf(e).msg.id && s.calls[s.ReaderOf(e).msg.id].ch.None?
    ensures
      var t := Do(s, Look(e));
      Enabled(t, Send(e)) && Enabled(Do(t, Send(e)), CancelListener(e))
    ensures
      var msg, i := s.ReaderOf(e).msg, s.ReaderOf(e).i;
      Do(Do(Do(s, Look(e)), Send(e)), CancelListener(e)) ==
      s.(calls := Delivered(s.calls, [msg.id], msg), readers := s.readers[e := At(msg, i + 1)])
  {
    var msg, i := s.ReaderOf(e).msg, s.ReaderOf(e).i;
    var t := Do(s, Look(e));
    var u := Do(t, Send(e));
    assert u.readers == s.readers[e := Cancelling(msg, i)];
    assert u.calls == s.calls[msg.id := s.calls[msg.id].(ch := Some(msg), sent := true)];
  }

  lemma {:induction false} LookIsPossible(s: State, e: Endpoint)
    requires Inv(s) && s.ReaderOf(e).At? && s.ReaderOf(e).i < |s.List(e)|
    ensures Enabled(s, Look(e)) && Distinct(s.List(e))
    ensures
      var c := s.calls[s.List(e)[s.ReaderOf(e).i]];
      c.lctxDone || c.ch.None?
  {
    hide Distinct;
    assert ListOk(s, e) && ReaderOk(s, e);
    assert CallOk(s, s.List(e)[s.ReaderOf(e).i]);
  }

  /** The next listener of a run that nobody disturbs: it is dropped, or called to its end. */
  lemma {:induction false} OneListener(steps: seq<Step>, e: Endpoint) returns (run: seq<Step>)
    requires Run(steps).ReaderOf(e).At? && Run(steps).ReaderOf(e).i < |Run(steps).List(e)|
    ensures steps <= run
    ensures
      var s, t := Run(steps), Run(run);
      var list, i, msg := s.List(e), s.ReaderOf(e).i, s.ReaderOf(e).msg;
      && list[i] in s.calls && Distinct(list)
      && if s.calls[list[i]].lctxDone then
           t == s.(listeners := s.listeners[e := list[..i] + list[i + 1..]])
         else
           t == s.(calls := Delivered(s.calls, [list[i]], msg), readers := s.readers[e := At(msg, i + 1)])
  {
    hide Run, Inv, Distinct;
    RunKeepsInv(steps);
    var s := Run(steps);
    LookIsPossible(s, e);
    var id := s.List(e)[s.ReaderOf(e).i];
    run := Grow(steps, Look(e));
    if !s.calls[id].lctxDone {
      if id != s.ReaderOf(e).msg.id {
        OtherCalled(s, e);
        run := Grow(run, Pass(e));
      } else {
        OwnCalled(s, e);
        run := Grow(run, Send(e));
        run := Grow(run, CancelListener(e));
      }
    }
  }

  lemma {:induction false} LiveAlike(list: seq<nat>, dead: set<nat>, more: set<nat>)
    requires forall id :: id in list ==> (id in dead <==> id in more)
    ensures Live(list, dead) == Live(list, more)
    decreases |list|
  {
    if list != [] {
      LiveAlike(list[1..], dead, more);
    }
  }

  lemma {:induction false} NoMoreListeners(steps: seq<Step>, e: Endpoint) returns (run: seq<Step>)
    requires Run(steps).ReaderOf(e).At?
    requires Run(steps).ReaderOf(e).i == |Run(steps).List(e)|
    ensures steps <= run
    ensures
      var s, t := Run(steps), Run(run);
      var list, i := s.List(e), s.ReaderOf(e).i;
      var live := Live(list[i..], Dead(s.calls));
      && t.List(e) == list[..i] + live && t.ReaderOf(e) == Idle
      && t.calls == Delivered(s.calls, live, s.ReaderOf(e).msg)
      && t.queue == s.queue && t.written == s.written && t.next == s.next
      && (forall f :: f != e ==> t.List(f) == s.List(f) && t.ReaderOf(f) == s.ReaderOf(f))
  {
    hide Run;
    run := Grow(steps, Finish(e));
  }

  lemma {:induction false} DistinctTail(list: seq<nat>, i: nat)
    requires Distinct(list) && i <= |list|
    ensures Distinct(list[i..])
  {
  }

  /** The rest of a run of the listeners, when nobody disturbs it. */
  lemma {:induction false} RestOfListeners(steps: seq<Step>, e: Endpoint) returns (run: seq<Step>)
    requires Run(steps).ReaderOf(e).At?
    requires Run(steps).ReaderOf(e).i <= |Run(steps).List(e)|
    ensures steps <= run
    ensures
      var s, t := Run(steps), Run(run);
      var list, i := s.List(e), s.ReaderOf(e).i;
      var live := Live(list[i..], Dead(s.calls));
      && t.List(e) == list[..i] + live && t.ReaderOf(e) == Idle
      && t.calls == Delivered(s.calls, live, s.ReaderOf(e).msg)
      && t.queue == s.queue && t.written == s.written && t.next == s.next
      && (forall f :: f != e ==> t.List(f) == s.List(f) && t.ReaderOf(f) == s.ReaderOf(f))
    decreases |Run(steps).List(e)| - Run(steps).ReaderOf(e).i
  {
    hide Run, Do, Enabled, Distinct, Delivered, Live;
    var s := Run(steps);
    var list, i, msg := s.List(e), s.ReaderOf(e).i, s.ReaderOf(e).msg;
    var rest := list[i..];
    if i == |list| {
      run := NoMoreListeners(steps, e);
    } else {
      var one := OneListener(steps, e);
      run := RestOfListeners(one, e);
      DistinctTail(list, i);
      LiveOn(s.calls, rest, msg);
      if list[i] in Dead(s.calls) {
        assert (list[..i] + list[i + 1..])[i..] == rest[1..];
        assert (list[..i] + list[i + 1..])[..i] == list[..i];
      } else {
        assert list[i + 1..] == rest[1..] && list[..i + 1] == list[..i] + [rest[0]];
      }
    }
  }

  /** One listener and then the rest are what all of them are. */
  lemma {:induction false} LiveOn(calls: map<nat, Call>, list: seq<nat>, msg: Message)
    requires list != [] && list[0] in calls && Distinct(list)
    ensures
      var next := if calls[list[0]].lctxDone then calls else Delivered(calls, [list[0]], msg);
      var more := Live(list[1..], Dead(next));
      && Live(list, Dead(calls)) == (if calls[list[0]].lctxDone then [] else [list[0]]) + more
      && Delivered(next, more, msg) == Delivered(calls, Live(list, Dead(calls)), msg)
  {
    var next := if calls[list[0]].lctxDone then calls else Delivered(calls, [list[0]], msg);
    assert forall id :: id in list[1..] ==> id != list[0];
    LiveAlike(list[1..], Dead(calls), Dead(next));
  }

  /**
  A run of the listeners that nobody disturbs does what `RunListeners` says: those live are called and
  kept, the others dropped, and the message reaches the caller whose number it has, if that one is live.
  Nothing else changes.
  */
  lemma {:induction false} UndisturbedRun(steps: seq<Step>, e: Endpoint, msg: Message) returns (run: seq<Step>)
    requires Run(steps).ReaderOf(e) == Idle
    ensures steps <= run && Arrive(e, msg) in PastOf(run).taken
    ensures
      var s, t := Run(steps), Run(run);
      var live := Live(s.List(e), Dead(s.calls));
      && t.List(e) == live && t.ReaderOf(e) == Idle && t.calls == Delivered(s.calls, live, msg)
      && t.queue == s.queue && t.written == s.written && t.next == s.next
      && (forall f :: f != e ==> t.List(f) == s.List(f) && t.ReaderOf(f) == s.ReaderOf(f))
  {
    hide Run, Delivered, Live, Dead;
    var s := Run(steps);
    var one := Grow(steps, Arrive(e, msg));
    assert Run(one).List(e)[0..] == s.List(e) && s.List(e)[..0] == [];
    run := RestOfListeners(one, e);
    TakenStays(steps, Arrive(e, msg), run);
  }

  lemma {:induction false} TakenStays(steps: seq<Step>, step: Step, run: seq<Step>)
    requires Enabled(Run(steps), step) && steps + [step] <= run
    ensures step in PastOf(run).taken
    decreases |run|
  {
    hide Enabled, Run;
    if run == steps + [step] {
      assert run[..|run| - 1] == steps;
    } else {
      assert steps + [step] <= run[..|run| - 1];
      TakenStays(steps, step, run[..|run| - 1]);
    }
  }

  lemma {:induction false} DrainQueue(steps: seq<Step>) returns (run: seq<Step>)
    ensures steps <= run && Run(run).queue == []
    ensures
      var s, t := Run(steps), Run(run);
      t == s.(queue := [], written := t.written) && forall id :: id in s.queue ==> id in t.written
    ensures Run(steps).written <= Run(run).written
    decreases |Run(steps).queue|
  {
    hide Run;
    run := steps;
    if Run(steps).queue != [] {
      var one := Grow(steps, Write(true));
      run := DrainQueue(one);
    }
  }

  /**
  From every reachable state in which the endpoint is not busy with a message, a call can be made, is
  written, and returns with the whole message that answers it: the queue being written out, the calls
  of others undisturbed.
  */
  lemma {:induction false} CallGoesThrough(steps: seq<Step>, e: Endpoint, body: int) returns (run: seq<Step>)
    requires Run(steps).ReaderOf(e) == Idle
    ensures steps <= run
    ensures
      var s, t := Run(steps), Run(run);
      var id := s.next + 1;
      && id in t.calls && t.calls[id].endpoint == e && t.calls[id].phase == Returned(Got(Message(id, body)))
      && id in t.written && t.queue == [] && t.ReaderOf(e) == Idle
      && (forall other :: other in s.calls ==> other in t.calls && t.calls[other] == s.calls[other])
  {
    hide Run, Inv, CallRecorded, PastOf;
    var id := Run(steps).next + 1;
    RunKeepsInv(steps);
    NextIsNew(Run(steps));
    RunIsRecorded(steps);
    run := AskFor(steps, e);
    run := DrainQueue(run);
    var answered := UndisturbedRun(run, e, Message(id, body));
    LiveHas(Run(run).List(e), Dead(Run(run).calls), id);
    run := Grow(answered, Receive(id));
  }

  lemma {:induction false} LiveHas(list: seq<nat>, dead: set<nat>, id: nat)
    ensures id in Live(list, dead) <==> id in list && id !in dead
    decreases |list|
  {
    if list != [] {
      LiveHas(list[1..], dead, id);
    }
  }

  /** Number, listener and place in the queue of a new call; a full queue is written from first. */
  lemma {:induction false} AskFor(steps: seq<Step>, e: Endpoint) returns (run: seq<Step>)
    requires Run(steps).ReaderOf(e) == Idle && Run(steps).next + 1 !in Run(steps).calls
    requires |Run(steps).queue| <= QUEUE_SIZE
    ensures steps <= run
    ensures
      var s, t := Run(steps), Run(run);
      var id := s.next + 1;
      && t.calls == s.calls[id := Call(e, Waiting, false, false, None, false)]
      && t.List(e) == s.List(e) + [id] && t.ReaderOf(e) == Idle
      && t.queue == (if |s.queue| < 32 then s.queue else s.queue[1..]) + [id]
  {
    hide Run;
    var id := Run(steps).next + 1;
    run := Grow(steps, Number(e, false));
    run := Grow(run, Register(id));
    if |Run(steps).queue| == 32 {
      run := Grow(run, Write(true));
    }
    run := Grow(run, Enqueue(id));
    assert Run(run).calls == Run(steps).calls[id := Call(e, Waiting, false, false, None, false)];
  }

  /** A caller whose context is done can always return, as long as it has not returned. */
  lemma {:induction false} CancelledReturns(steps: seq<Step>, id: nat) returns (run: seq<Step>)
    requires id in Run(steps).calls && Run(steps).calls[id].phase in {Registered, Waiting}
    ensures steps <= run && id in Run(run).calls && Run(run).calls[id].phase == Returned(Cancelled)
    ensures forall other :: other != id && other in Run(steps).calls ==>
      other in Run(run).calls && Run(run).calls[other] == Run(steps).calls[other]
  {
    hide Run;
    run := Grow(steps, CancelContext(id));
    run := Grow(run, GiveUp(id));
  }
}

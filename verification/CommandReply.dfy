/**
Commands and replies of chromedp/browser.go and chromedp/target.go as a state machine
whose steps are the atomic actions of the goroutines: callers inside `execute`, the
goroutine that reads messages and runs the listeners of one endpoint, and the loop
that writes queued commands.  What the other side sends is arbitrary.
*/
module CommandReply {
  import opened Optional

  /** The browser itself, or one of its targets. */
  datatype Endpoint = Browser | Session(name: nat)

  datatype Message = Message(id: nat, body: int)

  datatype Outcome = Unencodable | Cancelled | Got(reply: Message)

  /** Where a caller is inside `execute`. */
  datatype Phase = Numbered | Registered | Waiting | Returned(outcome: Outcome)

  /**
  A call: its endpoint, its caller's context and the derived one of its listener, and
  the channel of capacity one.  `sent` records that the channel was ever sent to.
  */
  datatype Call = Call(endpoint: Endpoint, phase: Phase, ctxDone: bool, lctxDone: bool, ch: Option<Message>, sent: bool)

  /** `runListeners` under way: at an index, in the function of a listener, or before its `cancel()`. */
  datatype Reader =
    | Idle
    | At(msg: Message, i: nat)
    | Inside(msg: Message, i: nat)
    | Cancelling(msg: Message, i: nat)

  const QUEUE_SIZE := 32

  datatype State = State(
    next: nat,
    calls: map<nat, Call>,
    listeners: map<Endpoint, seq<nat>>,
    readers: map<Endpoint, Reader>,
    queue: seq<nat>,
    written: set<nat>)
  {
    function List(e: Endpoint): seq<nat> { if e in listeners then listeners[e] else [] }

    function ReaderOf(e: Endpoint): Reader { if e in readers then readers[e] else Idle }

    function With(id: nat, c: Call): State { this.(calls := calls[id := c]) }

    function Reading(e: Endpoint, r: Reader): State { this.(readers := readers[e := r]) }
  }

  const INIT := State(0, map[], map[], map[], [], {})

  datatype Step =
    // the caller
    | Number(e: Endpoint, alreadyDone: bool)  // id := next + 1, contexts, channel
    | Register(id: nat)                       // append the listener, under the mutex
    | FailToEncode(id: nat)
    | Enqueue(id: nat)
    | GiveUp(id: nat)
    | Receive(id: nat)
    | CancelContext(id: nat)                  // whoever owns the caller's context
    // the loop of the browser
    | Write(ok: bool)
    // the goroutine of an endpoint that runs the listeners
    | Arrive(e: Endpoint, msg: Message)
    | Look(e: Endpoint)                       // is the listener at the index cancelled?
    | Pass(e: Endpoint)                       // the message is not for this listener
    | Drop(e: Endpoint)                       // the caller's context is done
    | Send(e: Endpoint)
    | CancelListener(e: Endpoint)
    | Finish(e: Endpoint)

  predicate Enabled(s: State, step: Step) {
    match step
    case Number(_, _) => true
    case Register(id) => id in s.calls && s.calls[id].phase == Numbered && s.ReaderOf(s.calls[id].endpoint) == Idle
    case FailToEncode(id) => id in s.calls && s.calls[id].phase == Registered
    case Enqueue(id) => id in s.calls && s.calls[id].phase == Registered && |s.queue| < QUEUE_SIZE
    case GiveUp(id) => id in s.calls && s.calls[id].ctxDone && s.calls[id].phase in {Registered, Waiting}
    case Receive(id) => id in s.calls && s.calls[id].phase == Waiting && s.calls[id].ch.Some?
    case CancelContext(id) => id in s.calls
    case Write(_) => s.queue != []
    case Arrive(e, _) => s.ReaderOf(e) == Idle
    case Look(e) => s.ReaderOf(e).At? && s.ReaderOf(e).i < |s.List(e)| && s.List(e)[s.ReaderOf(e).i] in s.calls
    case Pass(e) =>
      var r := s.ReaderOf(e);
      r.Inside? && r.i < |s.List(e)| && s.List(e)[r.i] != r.msg.id
    case Drop(e) =>
      var r := s.ReaderOf(e);
      r.Inside? && r.i < |s.List(e)| && s.List(e)[r.i] == r.msg.id && r.msg.id in s.calls && s.calls[r.msg.id].ctxDone
    case Send(e) =>
      var r := s.ReaderOf(e);
      r.Inside? && r.i < |s.List(e)| && s.List(e)[r.i] == r.msg.id && r.msg.id in s.calls && s.calls[r.msg.id].ch.None?
    case CancelListener(e) => s.ReaderOf(e).Cancelling? && s.ReaderOf(e).msg.id in s.calls
    case Finish(e) => s.ReaderOf(e).At? && s.ReaderOf(e).i >= |s.List(e)|
  }

  function Do(s: State, step: Step): State
    requires Enabled(s, step)
  {
    match step
    case Number(e, done) => s.(next := s.next + 1).With(s.next + 1, Call(e, Numbered, done, done, None, false))
    case Register(id) =>
      var e := s.calls[id].endpoint;
      s.(listeners := s.listeners[e := s.List(e) + [id]]).With(id, s.calls[id].(phase := Registered))
    case FailToEncode(id) => s.With(id, s.calls[id].(phase := Returned(Unencodable)))
    case Enqueue(id) => s.(queue := s.queue + [id]).With(id, s.calls[id].(phase := Waiting))
    case GiveUp(id) => s.With(id, s.calls[id].(phase := Returned(Cancelled)))
    case Receive(id) => s.With(id, s.calls[id].(phase := Returned(Got(s.calls[id].ch.value)), ch := None))
    case CancelContext(id) => s.With(id, s.calls[id].(ctxDone := true, lctxDone := true))
    case Write(ok) => s.(queue := s.queue[1..], written := if ok then s.written + {s.queue[0]} else s.written)
    case Arrive(e, msg) => s.Reading(e, At(msg, 0))
    case Look(e) =>
      var r := s.ReaderOf(e);
      var list := s.List(e);
      if s.calls[list[r.i]].lctxDone then s.(listeners := s.listeners[e := list[..r.i] + list[r.i + 1..]])
      else s.Reading(e, Inside(r.msg, r.i))
    case Pass(e) => s.Reading(e, At(s.ReaderOf(e).msg, s.ReaderOf(e).i + 1))
    case Drop(e) => s.Reading(e, Cancelling(s.ReaderOf(e).msg, s.ReaderOf(e).i))
    case Send(e) =>
      var r := s.ReaderOf(e);
      s.Reading(e, Cancelling(r.msg, r.i)).With(r.msg.id, s.calls[r.msg.id].(ch := Some(r.msg), sent := true))
    case CancelListener(e) =>
      var r := s.ReaderOf(e);
      s.Reading(e, At(r.msg, r.i + 1)).With(r.msg.id, s.calls[r.msg.id].(lctxDone := true))
    case Finish(e) => s.Reading(e, Idle)
  }

  /** The state after any interleaving; a step that is not possible does nothing. */
  function Run(steps: seq<Step>): State {
    if steps == [] then INIT
    else
      var s := Run(steps[..|steps| - 1]);
      var step := steps[|steps| - 1];
      if Enabled(s, step) then Do(s, step) else s
  }

  // ---------- the invariant ----------

  predicate Distinct(list: seq<nat>) {
    forall i, j :: 0 <= i < j < |list| ==> list[i] != list[j]
  }

  ghost predicate CallOk(s: State, id: nat)
    requires id in s.calls
  {
    var c := s.calls[id];
    && 0 < id <= s.next
    && (c.phase == Numbered ==> !c.sent)
    && (c.phase != Numbered ==> id in s.List(c.endpoint) || c.lctxDone)
    && (c.ctxDone ==> c.lctxDone) && (c.lctxDone ==> c.ctxDone || c.sent)
    && (c.sent <==> c.ch.Some? || (c.phase.Returned? && c.phase.outcome.Got?))
    && (c.phase.Returned? && c.phase.outcome.Got? ==> c.ch.None?)
    && (c.sent ==> c.lctxDone || (s.ReaderOf(c.endpoint).Cancelling? && s.ReaderOf(c.endpoint).msg.id == id))
    && (c.ch.Some? ==> c.ch.value.id == id)
    && (c.phase.Returned? && c.phase.outcome.Got? ==> c.phase.outcome.reply.id == id)
    && (c.phase == Returned(Cancelled) ==> c.ctxDone)
  }

  ghost predicate ListOk(s: State, e: Endpoint) {
    && Distinct(s.List(e))
    && forall i :: 0 <= i < |s.List(e)| ==>
      var id := s.List(e)[i];
      id in s.calls && s.calls[id].endpoint == e && s.calls[id].phase != Numbered
  }

  ghost predicate ReaderOk(s: State, e: Endpoint) {
    match s.ReaderOf(e)
    case Idle => true
    case At(_, i) => i <= |s.List(e)|
    case Inside(_, i) => i < |s.List(e)| && s.List(e)[i] in s.calls && !s.calls[s.List(e)[i]].sent
    case Cancelling(msg, i) =>
      && i < |s.List(e)| && s.List(e)[i] == msg.id && msg.id in s.calls
      && (s.calls[msg.id].ctxDone || s.calls[msg.id].sent)
  }

  /** The command was queued, and did not fail to be encoded. */
  predicate Queued(c: Call) { c.phase == Waiting || (c.phase.Returned? && c.phase.outcome != Unencodable) }

  ghost predicate Inv(s: State) {
    && (forall id :: id in s.calls ==> CallOk(s, id))
    && (forall e :: ListOk(s, e))
    && (forall e :: ReaderOk(s, e))
    && (forall id :: id in s.queue || id in s.written ==> id in s.calls && Queued(s.calls[id]))
  }

  lemma {:induction false} StillListed(list: seq<nat>, i: nat, x: nat, k: nat)
    requires i < |list| && k < |list| && list[k] == x && k != i
    ensures
      var left := list[..i] + list[i + 1..];
      var j := if k < i then k else k - 1;
      j < |left| && left[j] == x && x in left
  {
  }

  predicate ReaderStep(step: Step) {
    step.Arrive? || step.Look? || step.Pass? || step.Drop? || step.Send? || step.CancelListener? || step.Finish?
  }

  // Each part of the invariant, kept by the callers and the writing loop, by a look at
  // a listener, and by the other moves of a reader.

  lemma {:induction false} CallKeptByCaller(s: State, step: Step, id: nat)
    requires Inv(s) && Enabled(s, step) && !ReaderStep(step) && id in Do(s, step).calls
    ensures CallOk(Do(s, step), id)
  {
    if id in s.calls {
      assert CallOk(s, id);
    }
  }

  lemma {:induction false} CallKeptByLook(s: State, f: Endpoint, id: nat)
    requires Inv(s) && Enabled(s, Look(f)) && id in s.calls
    ensures CallOk(Do(s, Look(f)), id)
  {
    assert CallOk(s, id);
    var e := s.calls[id].endpoint;
    var list, i := s.List(f), s.ReaderOf(f).i;
    if e == f && id in list && id != list[i] {
      var k :| 0 <= k < |list| && list[k] == id;
      StillListed(list, i, id, k);
    }
  }

  lemma {:induction false} CallKeptByReader(s: State, step: Step, id: nat)
    requires Inv(s) && Enabled(s, step) && ReaderStep(step) && !step.Look? && id in s.calls
    ensures CallOk(Do(s, step), id)
  {
    assert CallOk(s, id);
    assert ReaderOk(s, step.e) && ListOk(s, step.e);
  }

  lemma {:induction false} ListKept(s: State, step: Step, e: Endpoint)
    requires Inv(s) && Enabled(s, step) && !step.Look?
    ensures ListOk(Do(s, step), e)
  {
    hide CallOk, ReaderOk, Queued;
    assert ListOk(s, e);
    if step.Number? {
      NextIsNew(s);
    } else if step.Register? {
      NotListed(s, step.id);
      assert ListOk(s, s.calls[step.id].endpoint);
    }
  }

  lemma {:induction false} NextIsNew(s: State)
    requires Inv(s)
    ensures s.next + 1 !in s.calls
  {
    assert forall id :: id in s.calls ==> CallOk(s, id);
  }

  lemma {:induction false} NotListed(s: State, id: nat)
    requires Inv(s) && id in s.calls && s.calls[id].phase == Numbered
    ensures forall e :: id !in s.List(e)
  {
    forall e
      ensures id !in s.List(e)
    {
      assert ListOk(s, e);
    }
  }

  lemma {:induction false} ListKeptByLook(s: State, f: Endpoint, e: Endpoint)
    requires Inv(s) && Enabled(s, Look(f))
    ensures ListOk(Do(s, Look(f)), e)
  {
    assert ListOk(s, e);
  }

  lemma {:induction false} ReaderKeptByCaller(s: State, step: Step, e: Endpoint)
    requires Inv(s) && Enabled(s, step) && !ReaderStep(step)
    ensures ReaderOk(Do(s, step), e)
  {
    assert ListOk(s, e) && ReaderOk(s, e);
    if step.Number? {
      assert forall id :: id in s.calls ==> CallOk(s, id);
    }
  }

  lemma {:induction false} ReaderKeptByLook(s: State, f: Endpoint, e: Endpoint)
    requires Inv(s) && Enabled(s, Look(f))
    ensures ReaderOk(Do(s, Look(f)), e)
  {
    assert ListOk(s, f) && ReaderOk(s, e);
    assert CallOk(s, s.List(f)[s.ReaderOf(f).i]);
  }

  lemma {:induction false} ReaderKeptByReader(s: State, step: Step, e: Endpoint)
    requires Inv(s) && Enabled(s, step) && ReaderStep(step) && !step.Look?
    ensures ReaderOk(Do(s, step), e)
  {
    hide CallOk, Queued, Distinct;
    assert ListOk(s, e) && ReaderOk(s, e) && ListOk(s, step.e) && ReaderOk(s, step.e);
  }

  lemma {:induction false} QueuesKept(s: State, step: Step)
    requires Inv(s) && Enabled(s, step)
    ensures
      var t := Do(s, step);
      forall id :: id in t.queue || id in t.written ==> id in t.calls && Queued(t.calls[id])
  {
    if step.Number? {
      assert forall id :: id in s.calls ==> CallOk(s, id);
    }
  }

  lemma {:induction false} StepKeepsInv(s: State, step: Step)
    requires Inv(s) && Enabled(s, step)
    ensures Inv(Do(s, step))
  {
    hide CallOk, ListOk, ReaderOk, Queued;
    var t := Do(s, step);
    QueuesKept(s, step);
    forall id | id in t.calls
      ensures CallOk(t, id)
    {
      if !ReaderStep(step) {
        CallKeptByCaller(s, step, id);
      } else if step.Look? {
        CallKeptByLook(s, step.e, id);
      } else {
        CallKeptByReader(s, step, id);
      }
    }
    forall e
      ensures ListOk(t, e) && ReaderOk(t, e)
    {
      if step.Look? {
        ListKeptByLook(s, step.e, e);
        ReaderKeptByLook(s, step.e, e);
      } else {
        ListKept(s, step, e);
        if ReaderStep(step) {
          ReaderKeptByReader(s, step, e);
        } else {
          ReaderKeptByCaller(s, step, e);
        }
      }
    }
  }

  lemma {:induction false} RunKeepsInv(steps: seq<Step>)
    ensures Inv(Run(steps))
  {
    if steps != [] {
      var s := Run(steps[..|steps| - 1]);
      RunKeepsInv(steps[..|steps| - 1]);
      if Enabled(s, steps[|steps| - 1]) {
        StepKeepsInv(s, steps[|steps| - 1]);
      }
    }
  }

  // ---------- what it means ----------

  /** Every number is used once, by the browser and all its targets together. */
  lemma {:induction false} NumbersAreUnique(steps: seq<Step>, more: Step)
    requires Enabled(Run(steps), more) && more.Number?
    ensures Run(steps).next + 1 !in Run(steps).calls
    ensures Do(Run(steps), more).next == Run(steps).next + 1
    ensures forall id :: id in Run(steps).calls ==>
      id in Do(Run(steps), more).calls && Do(Run(steps), more).calls[id] == Run(steps).calls[id]
  {
    RunKeepsInv(steps);
    assert forall id :: id in Run(steps).calls ==> CallOk(Run(steps), id);
  }

  /** A caller only ever gets, or finds in its channel, a reply with its own number. */
  lemma {:induction false} OwnRepliesOnly(steps: seq<Step>, id: nat)
    requires id in Run(steps).calls
    ensures
      var c := Run(steps).calls[id];
      && (c.ch.Some? ==> c.ch.value.id == id)
      && (c.phase.Returned? && c.phase.outcome.Got? ==> c.phase.outcome.reply.id == id)
  {
    RunKeepsInv(steps);
    assert CallOk(Run(steps), id);
  }

  /** Once the channel was sent to, it is never sent to again, whatever else arrives. */
  lemma {:induction false} SentAtMostOnce(steps: seq<Step>, e: Endpoint)
    requires Enabled(Run(steps), Send(e))
    ensures
      var c := Run(steps).calls[Run(steps).ReaderOf(e).msg.id];
      !c.sent && c.ch == None && c.endpoint == e
  {
    RunKeepsInv(steps);
    var s := Run(steps);
    assert ReaderOk(s, e) && ListOk(s, e);
    assert CallOk(s, s.ReaderOf(e).msg.id);
  }

  /** A goroutine that runs listeners always has a next step of its own: it never waits on a channel. */
  lemma {:induction false} ReaderNeverBlocks(steps: seq<Step>, e: Endpoint)
    requires Run(steps).ReaderOf(e) != Idle
    ensures ReaderCanMove(Run(steps), e)
  {
    hide Inv;
    RunKeepsInv(steps);
    InvReaderMoves(Run(steps), e);
  }

  predicate ReaderCanMove(s: State, e: Endpoint) {
    || Enabled(s, Look(e)) || Enabled(s, Pass(e)) || Enabled(s, Send(e))
    || Enabled(s, CancelListener(e)) || Enabled(s, Finish(e))
  }

  lemma {:induction false} InvReaderMoves(s: State, e: Endpoint)
    requires Inv(s) && s.ReaderOf(e) != Idle
    ensures ReaderCanMove(s, e)
  {
    hide Distinct, Queued;
    assert ReaderOk(s, e) && ListOk(s, e);
    var r := s.ReaderOf(e);
    if r.Inside? {
      assert CallOk(s, s.List(e)[r.i]);
    }
  }

  /** A command is queued only when its listener is registered, unless its context was done before. */
  lemma {:induction false} ListenerComesFirst(steps: seq<Step>, id: nat)
    requires id in Run(steps).queue || id in Run(steps).written
    ensures
      var s := Run(steps);
      id in s.calls && (id in s.List(s.calls[id].endpoint) || s.calls[id].ctxDone || s.calls[id].sent)
  {
    RunKeepsInv(steps);
    assert CallOk(Run(steps), id);
  }

  // ---------- runListeners ----------

  /**
  What the loop meets, over a state of its own: whether a listener's context is done, what
  calling the listener does (it may cancel any listener), and what other goroutines do
  between one look and the next.
  */
  datatype World<!S, !L> = World(done: (S, L) -> bool, call: (S, L) -> S, meanwhile: S -> S)

  /** The listeners called, in order, and the state left behind. */
  function Called<S, L>(w: World<S, L>, list: seq<L>, s: S): (seq<L>, S)
    decreases |list|
  {
    if list == [] then ([], s)
    else
      var now := w.meanwhile(s);
      if w.done(now, list[0]) then Called(w, list[1..], now)
      else
        var (more, end) := Called(w, list[1..], w.call(now, list[0]));
        ([list[0]] + more, end)
  }

  /** Calls every listener that is live when its turn comes, once, in order, and drops the others in place. */
  method RunListeners<S, L>(w: World<S, L>, list: seq<L>, s: S) returns (kept: seq<L>, called: seq<L>, t: S)
    ensures kept == called && (called, t) == Called(w, list, s)
  {
    kept, called, t := list, [], s;
    var i := 0;
    assert kept[0..] == list;
    while i < |kept|
      invariant 0 <= i <= |kept| && called == kept[..i]
      invariant called + Called(w, kept[i..], t).0 == Called(w, list, s).0
      invariant Called(w, kept[i..], t).1 == Called(w, list, s).1
      decreases |kept| - i
    {
      var listener := kept[i];
      ghost var rest := kept[i + 1..];
      assert kept[i..][0] == listener && kept[i..][1..] == rest;
      t := w.meanwhile(t);
      if w.done(t, listener) {
        kept := kept[..i] + kept[i + 1..];
        assert kept[i..] == rest;
      } else {
        t := w.call(t, listener);
        ghost var more := Called(w, rest, t).0;
        assert called + ([listener] + more) == called + [listener] + more;
        called := called + [listener];
        i := i + 1;
      }
    }
    assert kept[i..] == [] && kept[..i] == kept && called + [] == called;
  }

  function Live<L>(list: seq<L>, dead: set<L>): seq<L> {
    if list == [] then [] else (if list[0] in dead then [] else [list[0]]) + Live(list[1..], dead)
  }

  /** If nobody is cancelled or revived on the way, those called are the live ones. */
  lemma {:induction false} CalledAreLive<S(!new), L(!new)>(w: World<S, L>, list: seq<L>, s: S, dead: set<L>)
    requires forall u, l :: w.done(u, l) <==> l in dead
    ensures Called(w, list, s).0 == Live(list, dead)
    decreases |list|
  {
    if list != [] {
      var now := w.meanwhile(s);
      CalledAreLive(w, list[1..], if w.done(now, list[0]) then now else w.call(now, list[0]), dead);
    }
  }

  /** Each is called at most as often as it is listed, and one whose context is never done exactly so often. */
  lemma {:induction false} CalledOnce<S(!new), L(!new)>(w: World<S, L>, list: seq<L>, s: S, l: L)
    ensures multiset(Called(w, list, s).0)[l] <= multiset(list)[l]
    ensures (forall u :: !w.done(u, l)) ==> multiset(Called(w, list, s).0)[l] == multiset(list)[l]
    decreases |list|
  {
    if list != [] {
      var now := w.meanwhile(s);
      var next := if w.done(now, list[0]) then now else w.call(now, list[0]);
      CalledOnce(w, list[1..], next, l);
      assert list == [list[0]] + list[1..];
      var more := Called(w, list[1..], next).0;
      assert multiset([list[0]] + more) == multiset{list[0]} + multiset(more);
    }
  }
}

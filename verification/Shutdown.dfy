/**
`shutdownChrome` of CloseBrowser.go against chromedp's contexts and its exec allocator.
The goroutines are the one that closes, one call of `Allocate` that may be under way,
the process with the goroutine that waits for it, and the one of `NewContext`.

Some steps are certain to come (a caller's own moves, a timeout, the end of a killed
process); others, such as an answer of Chrome, may never come.  Nothing is assumed of
those, nor of the order of any.
*/
module Shutdown {
  /** The buffered channel `allocated`: at most one token, and it may be closed. */
  datatype Channel = Channel(token: bool, closed: bool) {
    predicate CanReceive() { token || closed }

    /** A closed channel is received from without taking anything. */
    function Received(): Channel { if token then this.(token := false) else this }
  }

  datatype Allocation = NotCalled | Starting | Started | Taken | Failed | Succeeded

  datatype Process = NoProcess | Running | Exited

  /** The goroutine that `Allocate` starts once it has the token. */
  datatype Waiter = NoWaiter | InWait | Waited | Counted | Closed

  datatype Timer = NotMade | Live | Over

  /** Where `shutdownChrome` is; `graceful` and `ready` are variables of `Cancel`. */
  datatype Main =
    | NotBegun
    | Entering                     // Cancel(closeCtx) is called
    | Executing                    // Browser.close sent
    | AwaitTarget                  // closedTarget.Wait(), not graceful
    | Selecting(graceful: bool)    // the select on allocated and the deadline
    | Ended(graceful: bool, ready: bool)
    | AwaitAllocated               // the last receive of Cancel
    | CancelAllocator              // h.AllocCancel
    | AwaitGroup                   // a.wg.Wait()
    | CancelContext                // h.Cancel
    | AwaitTargetAgain
    | AwaitAllocatedAgain          // the receive of cancelWait
    | Finished

  datatype State = State(
    main: Main,
    channel: Channel,
    ctxDone: bool,
    closeCtx: Timer,
    closing: bool,
    browser: bool,
    replied: bool,
    targetDone: bool,
    group: nat,
    alloc: Allocation,
    process: Process,
    waiter: Waiter)

  /** `NewContext` has put the token in; nothing else has happened. */
  const INIT :=
    State(NotBegun, Channel(true, false), false, NotMade, false, false, false, false, 0, NotCalled, NoProcess, NoWaiter)

  datatype Step =
    // shutdownChrome, Cancel and the cancel functions
    | Begin | Enter | Answered(failed: bool) | DeadlineInExecute | TargetReached | TakeAllocated | DeadlineInSelect
    | EndCancel | ReceiveAllocated | DoCancelAllocator | GroupDone | DoCancelContext | TargetReachedAgain | ReceiveAgain
    // certain to come by themselves
    | Timeout | TargetGoroutine | Kill | WaitReturns | CountDown | CloseAllocated
    // may come or not
    | CallAllocate | StartFails | StartWorks | AllocateGivesUp | TakeToken | UrlFails | UrlFound
    | ProcessEnds | Reply | ConnectionLost

  predicate Certain(step: Step) {
    !(step.CallAllocate? || step.StartFails? || step.StartWorks? || step.AllocateGivesUp? || step.TakeToken?
      || step.UrlFails? || step.UrlFound? || step.ProcessEnds? || step.Reply? || step.ConnectionLost?)
  }

  /** The context of the deadline is derived from the browser's context. */
  predicate DeadlinePassed(s: State) { s.closeCtx == Over || s.ctxDone }

  predicate Enabled(s: State, step: Step) {
    match step
    case Begin => s.main.NotBegun?
    case Enter => s.main.Entering?
    case Answered(_) => s.main.Executing? && s.replied
    case DeadlineInExecute => s.main.Executing? && DeadlinePassed(s)
    case TargetReached => s.main.AwaitTarget? && s.targetDone
    case TakeAllocated => s.main.Selecting? && s.channel.CanReceive()
    case DeadlineInSelect => s.main.Selecting? && DeadlinePassed(s)
    case EndCancel => s.main.Ended?
    case ReceiveAllocated => s.main.AwaitAllocated? && s.channel.CanReceive()
    case DoCancelAllocator => s.main.CancelAllocator?
    case GroupDone => s.main.AwaitGroup? && s.group == 0
    case DoCancelContext => s.main.CancelContext?
    case TargetReachedAgain => s.main.AwaitTargetAgain? && s.targetDone
    case ReceiveAgain => s.main.AwaitAllocatedAgain? && s.channel.CanReceive()
    case Timeout => s.closeCtx.Live?
    case TargetGoroutine => s.ctxDone && !s.targetDone
    case Kill => s.process.Running? && s.ctxDone
    case WaitReturns => s.waiter.InWait? && s.process.Exited?
    case CountDown => s.waiter.Waited? && s.group > 0
    case CloseAllocated => s.waiter.Counted?
    case CallAllocate => s.alloc.NotCalled?
    case StartFails => s.alloc.Starting?
    case StartWorks => s.alloc.Starting? && !s.ctxDone
    case AllocateGivesUp => s.alloc.Started? && s.ctxDone
    case TakeToken => s.alloc.Started? && s.channel.CanReceive()
    case UrlFails => s.alloc.Taken?
    case UrlFound => s.alloc.Taken?
    case ProcessEnds => s.process.Running?
    case Reply => s.main.Executing? && !s.replied
    case ConnectionLost => s.browser && !s.closing && !s.ctxDone
  }

  /** `guarded`: whether `shutdownChrome` tests that the context has a browser before it calls `Cancel`. */
  function Do(guarded: bool, s: State, step: Step): State
    requires Enabled(s, step)
  {
    match step
    case Begin =>
      if guarded && !s.browser then s.(main := CancelAllocator) else s.(main := Entering, closeCtx := Live)
    case Enter =>
      if s.browser then s.(main := Executing, closing := true) else s.(main := AwaitTarget, ctxDone := true)
    case Answered(failed) => if failed then s.(main := CancelAllocator) else s.(main := Selecting(true))
    case DeadlineInExecute => s.(main := CancelAllocator)
    case TargetReached => s.(main := Selecting(false))
    case TakeAllocated => s.(main := Ended(s.main.graceful, true), channel := s.channel.Received())
    case DeadlineInSelect => s.(main := Ended(s.main.graceful, false))
    case EndCancel =>
      s.(main := if s.main.ready then CancelAllocator else AwaitAllocated, ctxDone := s.ctxDone || s.main.graceful)
    case ReceiveAllocated => s.(main := CancelAllocator, channel := s.channel.Received())
    case DoCancelAllocator => s.(main := AwaitGroup, ctxDone := true)
    case GroupDone => s.(main := CancelContext)
    case DoCancelContext => s.(main := AwaitTargetAgain, ctxDone := true)
    case TargetReachedAgain => s.(main := AwaitAllocatedAgain)
    case ReceiveAgain => s.(main := Finished, channel := s.channel.Received())
    case Timeout => s.(closeCtx := Over)
    case TargetGoroutine => s.(targetDone := true)
    case Kill => s.(process := Exited)
    case WaitReturns => s.(waiter := Waited)
    case CountDown => s.(waiter := Counted, group := s.group - 1)
    case CloseAllocated => s.(waiter := Closed, channel := s.channel.(closed := true))
    case CallAllocate => s.(alloc := Starting)
    case StartFails => s.(alloc := Failed)
    case StartWorks => s.(alloc := Started, process := Running)
    case AllocateGivesUp => s.(alloc := Failed)
    case TakeToken => s.(alloc := Taken, channel := s.channel.Received(), group := s.group + 1, waiter := InWait)
    case UrlFails => s.(alloc := Failed)
    case UrlFound => s.(alloc := Succeeded, browser := true)
    case ProcessEnds => s.(process := Exited)
    case Reply => s.(replied := true)
    case ConnectionLost => s.(ctxDone := true)
  }

  function Run(guarded: bool, steps: seq<Step>): State {
    if steps == [] then INIT
    else
      var s, step := Run(guarded, steps[..|steps| - 1]), steps[|steps| - 1];
      if Enabled(s, step) then Do(guarded, s, step) else s
  }

  // ---------- no run is endless ----------

  function MainRank(m: Main): nat {
    match m
    case NotBegun => 12
    case Entering => 11
    case Executing => 10
    case AwaitTarget => 10
    case Selecting(_) => 9
    case Ended(_, _) => 8
    case AwaitAllocated => 7
    case CancelAllocator => 6
    case AwaitGroup => 5
    case CancelContext => 4
    case AwaitTargetAgain => 3
    case AwaitAllocatedAgain => 2
    case Finished => 0
  }

  function Bit(b: bool): nat { if b then 1 else 0 }

  function Rank(s: State): nat {
    // making the timer costs one; the first step pays for it
    2 * MainRank(s.main) + Bit(s.closeCtx.Live?) + Bit(!s.ctxDone) + Bit(!s.replied) + Bit(!s.targetDone)
    + AllocRank(s.alloc) + ProcessRank(s.process) + WaiterRank(s.waiter)
  }

  function AllocRank(a: Allocation): nat {
    match a case NotCalled => 4 case Starting => 3 case Started => 2 case Taken => 1 case _ => 0
  }

  function ProcessRank(p: Process): nat {
    match p case NoProcess => 2 case Running => 1 case Exited => 0
  }

  function WaiterRank(w: Waiter): nat {
    match w case NoWaiter => 4 case InWait => 3 case Waited => 2 case Counted => 1 case Closed => 0
  }

  // The steps in four groups, so that each proof is about a few.

  /** Steps up to the end of `Cancel`. */
  predicate Early(step: Step) {
    || step.Begin? || step.Enter? || step.Answered? || step.DeadlineInExecute?
    || step.TargetReached? || step.TakeAllocated?
    || step.DeadlineInSelect? || step.EndCancel?
  }

  /** The receive that may end `Cancel`, and the two cancel functions. */
  predicate Late(step: Step) {
    || step.ReceiveAllocated? || step.DoCancelAllocator? || step.GroupDone?
    || step.DoCancelContext? || step.TargetReachedAgain?
    || step.ReceiveAgain?
  }

  /** The process, the goroutine that waits for it, and what happens around them. */
  predicate OfProcess(step: Step) {
    step.Kill? || step.WaitReturns? || step.CountDown? || step.CloseAllocated? || step.Timeout? || step.TargetGoroutine?
    || step.ProcessEnds? || step.Reply? || step.ConnectionLost?
  }

  /** `Allocate`. */
  predicate OfAllocate(step: Step) {
    step.CallAllocate? || step.StartFails? || step.StartWorks? || step.AllocateGivesUp? || step.TakeToken?
    || step.UrlFails? || step.UrlFound?
  }

  lemma {:induction false} EarlyRunsOut(guarded: bool, s: State, step: Step)
    requires Enabled(s, step) && Early(step)
    ensures Rank(Do(guarded, s, step)) < Rank(s)
  {
    hide AllocRank, ProcessRank, WaiterRank;
  }

  lemma {:induction false} LateRunsOut(guarded: bool, s: State, step: Step)
    requires Enabled(s, step) && Late(step)
    ensures Rank(Do(guarded, s, step)) < Rank(s)
  {
    hide AllocRank, ProcessRank, WaiterRank;
  }

  lemma {:induction false} OfProcessRunsOut(guarded: bool, s: State, step: Step)
    requires ProcessInv(s) && Enabled(s, step) && OfProcess(step)
    ensures Rank(Do(guarded, s, step)) < Rank(s)
  {
    hide MainRank;
  }

  lemma {:induction false} OfAllocateRunsOut(guarded: bool, s: State, step: Step)
    requires ProcessInv(s) && Enabled(s, step) && OfAllocate(step)
    ensures Rank(Do(guarded, s, step)) < Rank(s)
  {
    hide MainRank;
  }

  /** Every step brings the end nearer, guarded or not. */
  lemma {:induction false} StepsRunOut(guarded: bool, s: State, step: Step)
    requires Inv(s) && Enabled(s, step)
    ensures Rank(Do(guarded, s, step)) < Rank(s)
  {
    hide Rank, ProcessInv, MainInv, Do, Enabled;
    if Early(step) {
      EarlyRunsOut(guarded, s, step);
    } else if Late(step) {
      LateRunsOut(guarded, s, step);
    } else if OfProcess(step) {
      OfProcessRunsOut(guarded, s, step);
    } else {
      OfAllocateRunsOut(guarded, s, step);
    }
  }

  // ---------- the invariant ----------

  ghost predicate Inv(s: State) { ProcessInv(s) && MainInv(s) }

  ghost predicate ProcessInv(s: State) {
    && (s.alloc.NotCalled? || s.alloc.Starting? ==> s.process.NoProcess? && s.waiter.NoWaiter?)
    && (s.alloc.Started? ==> !s.process.NoProcess? && s.waiter.NoWaiter?)
    && (s.alloc.Taken? || s.alloc.Succeeded? ==> !s.waiter.NoWaiter?)
    && (!s.waiter.NoWaiter? ==> !s.process.NoProcess? && !s.channel.token)
    && (s.waiter.Waited? || s.waiter.Counted? || s.waiter.Closed? ==> s.process.Exited?)
    && (s.browser <==> s.alloc.Succeeded?)
    && (s.channel.closed <==> s.waiter.Closed?)
    && s.group == Bit(s.waiter.InWait? || s.waiter.Waited?)
  }

  ghost predicate MainInv(s: State) {
    && (s.targetDone ==> s.ctxDone)
    && (s.main.AwaitTarget? || s.main.AwaitGroup? || s.main.CancelContext? || s.main.AwaitTargetAgain? ==> s.ctxDone)
    && (s.main.AwaitAllocatedAgain? || s.main.Finished? ==> s.ctxDone && s.targetDone)
    && (s.main.Entering? || s.main.Executing? || s.main.AwaitTarget? || s.main.Selecting? ==> !s.closeCtx.NotMade?)
  }

  /** With the guard, `Cancel` only runs on a context whose token was taken by `Allocate`. */
  ghost predicate Guarded(s: State) {
    && (s.main.Entering? || s.main.Executing? || s.main.Selecting? || s.main.Ended? || s.main.AwaitAllocated?
        ==> s.browser)
    && (s.main.Selecting? ==> s.main.graceful)
    && (s.main.Ended? ==> s.main.graceful && (s.main.ready ==> s.channel.closed))
    && (s.main.AwaitAllocated? ==> s.ctxDone)
    && !s.main.AwaitTarget?
    && (!s.main.Finished? && s.waiter.NoWaiter? ==> s.channel.token)
    && (s.main.Finished? ==> !s.channel.token && (s.waiter.NoWaiter? || s.waiter.Closed?))
    && (s.main.Executing? || s.main.Selecting? || s.main.Ended? || s.main.AwaitAllocated? ==> s.closing)
  }

  lemma {:induction false} EarlyKeepsProcess(guarded: bool, s: State, step: Step)
    requires ProcessInv(s) && Enabled(s, step) && Early(step)
    ensures ProcessInv(Do(guarded, s, step))
  {
  }

  lemma {:induction false} EarlyKeepsMain(guarded: bool, s: State, step: Step)
    requires MainInv(s) && Enabled(s, step) && Early(step)
    ensures MainInv(Do(guarded, s, step))
  {
  }

  lemma {:induction false} EarlyKeepsGuarded(s: State, step: Step)
    requires ProcessInv(s) && Guarded(s) && Enabled(s, step) && Early(step)
    ensures Guarded(Do(true, s, step))
  {
  }

  lemma {:induction false} LateKeepsProcess(guarded: bool, s: State, step: Step)
    requires ProcessInv(s) && Enabled(s, step) && Late(step)
    ensures ProcessInv(Do(guarded, s, step))
  {
  }

  lemma {:induction false} LateKeepsMain(guarded: bool, s: State, step: Step)
    requires MainInv(s) && Enabled(s, step) && Late(step)
    ensures MainInv(Do(guarded, s, step))
  {
  }

  lemma {:induction false} LateKeepsGuarded(s: State, step: Step)
    requires ProcessInv(s) && Guarded(s) && Enabled(s, step) && Late(step)
    ensures Guarded(Do(true, s, step))
  {
  }

  lemma {:induction false} OfProcessKeepsProcess(guarded: bool, s: State, step: Step)
    requires ProcessInv(s) && Enabled(s, step) && OfProcess(step)
    ensures ProcessInv(Do(guarded, s, step))
  {
  }

  lemma {:induction false} OfProcessKeepsMain(guarded: bool, s: State, step: Step)
    requires MainInv(s) && Enabled(s, step) && OfProcess(step)
    ensures MainInv(Do(guarded, s, step))
  {
  }

  lemma {:induction false} OfProcessKeepsGuarded(s: State, step: Step)
    requires ProcessInv(s) && Guarded(s) && Enabled(s, step) && OfProcess(step)
    ensures Guarded(Do(true, s, step))
  {
  }

  lemma {:induction false} OfAllocateKeepsProcess(guarded: bool, s: State, step: Step)
    requires ProcessInv(s) && Enabled(s, step) && OfAllocate(step)
    ensures ProcessInv(Do(guarded, s, step))
  {
  }

  lemma {:induction false} OfAllocateKeepsMain(guarded: bool, s: State, step: Step)
    requires MainInv(s) && Enabled(s, step) && OfAllocate(step)
    ensures MainInv(Do(guarded, s, step))
  {
  }

  lemma {:induction false} OfAllocateKeepsGuarded(s: State, step: Step)
    requires ProcessInv(s) && Guarded(s) && Enabled(s, step) && OfAllocate(step)
    ensures Guarded(Do(true, s, step))
  {
  }

  lemma {:induction false} StepKeepsInv(guarded: bool, s: State, step: Step)
    requires Inv(s) && Enabled(s, step)
    ensures Inv(Do(guarded, s, step))
    ensures guarded && Guarded(s) ==> Guarded(Do(guarded, s, step))
  {
    hide ProcessInv, MainInv, Guarded, Do, Enabled;
    if Early(step) {
      EarlyKeepsProcess(guarded, s, step);
      EarlyKeepsMain(guarded, s, step);
      if guarded && Guarded(s) { EarlyKeepsGuarded(s, step); }
    } else if Late(step) {
      LateKeepsProcess(guarded, s, step);
      LateKeepsMain(guarded, s, step);
      if guarded && Guarded(s) { LateKeepsGuarded(s, step); }
    } else if OfProcess(step) {
      OfProcessKeepsProcess(guarded, s, step);
      OfProcessKeepsMain(guarded, s, step);
      if guarded && Guarded(s) { OfProcessKeepsGuarded(s, step); }
    } else {
      OfAllocateKeepsProcess(guarded, s, step);
      OfAllocateKeepsMain(guarded, s, step);
      if guarded && Guarded(s) { OfAllocateKeepsGuarded(s, step); }
    }
  }

  lemma {:induction false} RunKeepsInv(guarded: bool, steps: seq<Step>)
    ensures Inv(Run(guarded, steps)) && (guarded ==> Guarded(Run(guarded, steps)))
  {
    if steps != [] {
      var s, step := Run(guarded, steps[..|steps| - 1]), steps[|steps| - 1];
      RunKeepsInv(guarded, steps[..|steps| - 1]);
      if Enabled(s, step) {
        StepKeepsInv(guarded, s, step);
      }
    }
  }

  // ---------- with the guard ----------

  /** A receive from `allocated` finds a token, a closed channel, or one that a cancelled process will close. */
  lemma {:induction false} EveryReceiveIsServed(steps: seq<Step>)
    requires Run(true, steps).main.AwaitAllocated? || Run(true, steps).main.AwaitAllocatedAgain?
    ensures
      var s := Run(true, steps);
      s.channel.CanReceive() || (s.ctxDone && (s.waiter.InWait? || s.waiter.Waited? || s.waiter.Counted?))
  {
    RunKeepsInv(true, steps);
  }

  /** The channel is never closed twice. */
  lemma {:induction false} ClosedOnce(guarded: bool, steps: seq<Step>)
    requires Enabled(Run(guarded, steps), CloseAllocated)
    ensures !Run(guarded, steps).channel.closed
  {
    RunKeepsInv(guarded, steps);
  }

  /** As long as `shutdownChrome` has not returned, some step is certain to come. */
  lemma {:induction false} NeverStuck(steps: seq<Step>)
    requires !Run(true, steps).main.NotBegun? && !Run(true, steps).main.Finished?
    ensures exists step :: Certain(step) && Enabled(Run(true, steps), step)
  {
    RunKeepsInv(true, steps);
    var s := Run(true, steps);
    var step := NextCertain(s);
    assert Certain(step) && Enabled(s, step);
  }

  /** The step that is certain to come. */
  function NextCertain(s: State): Step {
    match s.main
    case NotBegun => Begin
    case Entering => Enter
    case Executing => if DeadlinePassed(s) then DeadlineInExecute else Timeout
    case AwaitTarget => if s.targetDone then TargetReached else TargetGoroutine
    case Selecting(_) => if DeadlinePassed(s) then DeadlineInSelect else Timeout
    case Ended(_, _) => EndCancel
    case AwaitAllocated => if s.channel.CanReceive() then ReceiveAllocated else NextOfProcess(s)
    case CancelAllocator => DoCancelAllocator
    case AwaitGroup => if s.group == 0 then GroupDone else NextOfProcess(s)
    case CancelContext => DoCancelContext
    case AwaitTargetAgain => if s.targetDone then TargetReachedAgain else TargetGoroutine
    case AwaitAllocatedAgain => if s.channel.CanReceive() then ReceiveAgain else NextOfProcess(s)
    case Finished => Timeout
  }

  function NextOfProcess(s: State): Step {
    if s.waiter == InWait then (if s.process == Running then Kill else WaitReturns)
    else if s.waiter == Waited then CountDown
    else CloseAllocated
  }

  /** Continuing with certain steps only. */
  function Finish(s: State): (t: State)
    requires Inv(s) && Guarded(s)
    ensures t.main == Finished && Inv(t)
    decreases Rank(s)
  {
    if s.main == Finished then s
    else
      CertainIsEnabled(s);
      StepsRunOut(true, s, NextCertain(s));
      StepKeepsInv(true, s, NextCertain(s));
      Finish(Do(true, s, NextCertain(s)))
  }

  lemma {:induction false} CertainIsEnabled(s: State)
    requires Inv(s) && Guarded(s) && s.main != Finished
    ensures Certain(NextCertain(s)) && Enabled(s, NextCertain(s))
  {
  }

  /** How many of the steps were possible when their turn came. */
  function StepsTaken(guarded: bool, steps: seq<Step>): nat {
    if steps == [] then 0
    else
      var init := steps[..|steps| - 1];
      StepsTaken(guarded, init) + Bit(Enabled(Run(guarded, init), steps[|steps| - 1]))
  }

  /**
  Whatever happens and in whatever order, at most `Rank(INIT)` steps are ever taken.
  With `NeverStuck`: every run that does not hold back a certain step for ever returns.
  */
  lemma {:induction false} RunsAreShort(guarded: bool, steps: seq<Step>)
    ensures StepsTaken(guarded, steps) + Rank(Run(guarded, steps)) <= Rank(INIT)
  {
    if steps != [] {
      var init := steps[..|steps| - 1];
      RunsAreShort(guarded, init);
      RunKeepsInv(guarded, init);
      if Enabled(Run(guarded, init), steps[|steps| - 1]) {
        StepsRunOut(guarded, Run(guarded, init), steps[|steps| - 1]);
      }
    }
  }

  // ---------- how Chrome is closed ----------

  /** The steps that took effect in a run. */
  ghost function TakenSteps(guarded: bool, steps: seq<Step>): set<Step> {
    if steps == [] then {}
    else
      var init, step := steps[..|steps| - 1], steps[|steps| - 1];
      TakenSteps(guarded, init) + if Enabled(Run(guarded, init), step) then {step} else {}
  }

  /** Inside `Cancel`. */
  predicate InCancel(m: Main) {
    m.Entering? || m.Executing? || m.AwaitTarget? || m.Selecting? || m.Ended? || m.AwaitAllocated?
  }

  /** The graceful close is over: from here on a Chrome that still lives is killed. */
  predicate CutOff(m: Main) { !m.NotBegun? && !InCancel(m) }

  /** What became of `Browser.close`: an answer, or the deadline. */
  ghost predicate Heard(taken: set<Step>) {
    Answered(false) in taken || Answered(true) in taken || DeadlineInExecute in taken
  }

  /** Every flag tells what has happened. */
  ghost predicate Flags(s: State, taken: set<Step>) {
    && (s.browser <==> UrlFound in taken)
    && (s.closing <==> Enter in taken)
    && (s.replied <==> Reply in taken)
    && (s.targetDone <==> TargetGoroutine in taken)
    && (s.ctxDone <==> ConnectionLost in taken || EndCancel in taken || DoCancelAllocator in taken)
    && (s.closeCtx.Over? <==> Timeout in taken)
  }

  /** So do the channel, the process and the goroutine that waits for it. */
  ghost predicate Holdings(s: State, taken: set<Step>) {
    && (s.channel.token <==> TakeToken !in taken && ReceiveAgain !in taken)
    && (s.channel.closed <==> CloseAllocated in taken)
    && (s.process.NoProcess? <==> StartWorks !in taken)
    && (s.process.Exited? <==> Kill in taken || ProcessEnds in taken)
    && (s.waiter.NoWaiter? <==> TakeToken !in taken)
    && (s.waiter.NoWaiter? || s.waiter.InWait? <==> WaitReturns !in taken)
    && (s.waiter.Counted? || s.waiter.Closed? <==> CountDown in taken)
  }

  /** How far `shutdownChrome` is. */
  ghost predicate Stages(s: State, taken: set<Step>) {
    && (s.main.NotBegun? <==> Begin !in taken)
    && (s.closeCtx.NotMade? ==> !InCancel(s.main) && Enter !in taken)
    && (s.main.NotBegun? ==> s.closeCtx.NotMade?)
    && (s.main.Entering? || s.main.Executing? ==> !Heard(taken))
    && (s.main.Selecting? || s.main.Ended? || s.main.AwaitAllocated? ==> Heard(taken))
    && (Heard(taken) ==> Enter in taken)
    && (CutOff(s.main) && !s.closeCtx.NotMade? ==> Heard(taken))
    && (s.main.Entering? ==> Enter !in taken)
    && (s.main.NotBegun? || s.main.Entering? || s.main.Executing? || s.main.Selecting? || s.main.Ended?
        ==> EndCancel !in taken)
  }

  /** The cancel functions come in their order. */
  ghost predicate Order(s: State, taken: set<Step>) {
    && (DoCancelAllocator in taken <==> CutOff(s.main) && !s.main.CancelAllocator?)
    && (GroupDone in taken <==> CutOff(s.main) && !s.main.CancelAllocator? && !s.main.AwaitGroup?)
    && (DoCancelContext in taken <==> s.main.AwaitTargetAgain? || s.main.AwaitAllocatedAgain? || s.main.Finished?)
    && (TargetReachedAgain in taken <==> s.main.AwaitAllocatedAgain? || s.main.Finished?)
    && (ReceiveAgain in taken <==> s.main.Finished?)
  }

  /** What a graceful close leads to. */
  ghost predicate Closes(s: State, taken: set<Step>) {
    && (s.main.Selecting? || s.main.Ended? || s.main.AwaitAllocated? ==> Answered(false) in taken)
    && (s.main.Selecting? || s.main.Ended? ==> Answered(true) !in taken && DeadlineInExecute !in taken)
    && (s.main.AwaitAllocated? ==> Answered(true) !in taken && DeadlineInExecute !in taken)
    && (CutOff(s.main) && Answered(false) in taken ==> s.channel.closed)
    && (s.main.AwaitAllocated? || (s.main.Ended? && !s.main.ready) ==> DeadlineInSelect in taken)
    && (EndCancel in taken ==> DeadlineInSelect in taken || s.channel.closed)
  }

  /** What an answer, a missed deadline and a kill come from. */
  ghost predicate Causes(s: State, taken: set<Step>) {
    && (DeadlineInSelect in taken || DeadlineInExecute in taken ==> Timeout in taken || ConnectionLost in taken)
    && (Answered(false) in taken || Answered(true) in taken ==> Reply in taken)
    && (s.main.Executing? || Reply in taken ==> Enter in taken)
    && (Kill in taken || AllocateGivesUp in taken ==> s.ctxDone)
    && (Kill in taken && Answered(false) in taken ==> DeadlineInSelect in taken || ConnectionLost in taken)
  }

  ghost predicate Recorded(s: State, taken: set<Step>) {
    && Inv(s) && Guarded(s)
    && Flags(s, taken) && Holdings(s, taken) && Stages(s, taken) && Order(s, taken)
    && Closes(s, taken) && Causes(s, taken)
  }

  predicate Other(step: Step) { OfProcess(step) || OfAllocate(step) }

  lemma {:induction false} OthersLeaveMain(s: State, step: Step)
    requires Enabled(s, step) && Other(step)
    ensures Do(true, s, step).main == s.main
    ensures Do(true, s, step).closeCtx.NotMade? <==> s.closeCtx.NotMade?
  {
    match step
    case Timeout =>
    case TargetGoroutine =>
    case Kill =>
    case WaitReturns =>
    case CountDown =>
    case CloseAllocated =>
    case ProcessEnds =>
    case Reply =>
    case ConnectionLost =>
    case CallAllocate =>
    case StartFails =>
    case StartWorks =>
    case AllocateGivesUp =>
    case TakeToken =>
    case UrlFails =>
    case UrlFound =>
  }


  lemma {:induction false} FlagsByEarly(s: State, taken: set<Step>, step: Step)
    requires Recorded(s, taken) && Enabled(s, step) && Early(step)
    ensures Flags(Do(true, s, step), taken + {step})
  {
    hide Causes, Closes, ProcessInv, Holdings, Order;
  }

  lemma {:induction false} FlagsByLate(s: State, taken: set<Step>, step: Step)
    requires Recorded(s, taken) && Enabled(s, step) && Late(step)
    ensures Flags(Do(true, s, step), taken + {step})
  {
    hide Causes, Closes, ProcessInv, Holdings, Stages;
  }

  lemma {:induction false} FlagsByOfProcess(s: State, taken: set<Step>, step: Step)
    requires Recorded(s, taken) && Enabled(s, step) && OfProcess(step)
    ensures Flags(Do(true, s, step), taken + {step})
  {
    hide Causes, Closes, ProcessInv, MainInv, Guarded, Holdings, Stages, Order;
    match step
    case Timeout =>
    case TargetGoroutine =>
    case Kill =>
    case WaitReturns =>
    case CountDown =>
    case CloseAllocated =>
    case ProcessEnds =>
    case Reply =>
    case ConnectionLost =>
  }


  lemma {:induction false} FlagsByOfAllocate(s: State, taken: set<Step>, step: Step)
    requires Recorded(s, taken) && Enabled(s, step) && OfAllocate(step)
    ensures Flags(Do(true, s, step), taken + {step})
  {
    hide Causes, Closes, ProcessInv, MainInv, Guarded, Holdings, Stages, Order;
  }

  lemma {:induction false} HoldingsByEarly(s: State, taken: set<Step>, step: Step)
    requires Recorded(s, taken) && Enabled(s, step) && Early(step)
    ensures Holdings(Do(true, s, step), taken + {step})
  {
    hide Causes, Flags, Closes, MainInv, Order, Stages;
  }

  lemma {:induction false} HoldingsByLate(s: State, taken: set<Step>, step: Step)
    requires Recorded(s, taken) && Enabled(s, step) && Late(step)
    ensures Holdings(Do(true, s, step), taken + {step})
  {
    hide Causes, Flags, Closes, MainInv, Stages;
  }

  lemma {:induction false} HoldingsByOfProcess(s: State, taken: set<Step>, step: Step)
    requires Recorded(s, taken) && Enabled(s, step) && OfProcess(step)
    ensures Holdings(Do(true, s, step), taken + {step})
  {
    hide Causes, Flags, Closes, MainInv, Stages;
    match step
    case Timeout =>
    case TargetGoroutine =>
    case Kill =>
    case WaitReturns =>
    case CountDown =>
    case CloseAllocated =>
    case ProcessEnds =>
    case Reply =>
    case ConnectionLost =>
  }


  lemma {:induction false} HoldingsByOfAllocate(s: State, taken: set<Step>, step: Step)
    requires Recorded(s, taken) && Enabled(s, step) && OfAllocate(step)
    ensures Holdings(Do(true, s, step), taken + {step})
  {
    hide Causes, Flags, Closes, MainInv, Stages;
  }

  lemma {:induction false} StagesByEarly(s: State, taken: set<Step>, step: Step)
    requires Recorded(s, taken) && Enabled(s, step) && Early(step)
    ensures Stages(Do(true, s, step), taken + {step})
  {
    hide Causes, Closes, Holdings, ProcessInv, MainInv, Order;
  }

  lemma {:induction false} StagesByLate(s: State, taken: set<Step>, step: Step)
    requires Recorded(s, taken) && Enabled(s, step) && Late(step)
    ensures Stages(Do(true, s, step), taken + {step})
  {
    hide Causes, Closes, Flags, Holdings, ProcessInv, MainInv, Order;
  }

  lemma {:induction false} StagesByOthers(s: State, taken: set<Step>, step: Step)
    requires Recorded(s, taken) && Enabled(s, step) && Other(step)
    ensures Stages(Do(true, s, step), taken + {step})
  {
    hide Causes, Closes, Flags, Holdings, ProcessInv, MainInv, Guarded, Order, Do, Enabled;
    OthersLeaveMain(s, step);
  }

  lemma {:induction false} OrderByEarly(s: State, taken: set<Step>, step: Step)
    requires Recorded(s, taken) && Enabled(s, step) && Early(step)
    ensures Order(Do(true, s, step), taken + {step})
  {
    hide Causes, Closes, Flags, Holdings, ProcessInv, MainInv, Stages;
  }

  lemma {:induction false} OrderByLate(s: State, taken: set<Step>, step: Step)
    requires Recorded(s, taken) && Enabled(s, step) && Late(step)
    ensures Order(Do(true, s, step), taken + {step})
  {
    hide Causes, Closes, Flags, Holdings, ProcessInv, MainInv, Stages;
  }

  lemma {:induction false} OrderByOthers(s: State, taken: set<Step>, step: Step)
    requires Recorded(s, taken) && Enabled(s, step) && Other(step)
    ensures Order(Do(true, s, step), taken + {step})
  {
    hide Causes, Closes, Flags, Holdings, ProcessInv, MainInv, Stages, Guarded, Do, Enabled;
    OthersLeaveMain(s, step);
  }

  lemma {:induction false} ClosesByEarly(s: State, taken: set<Step>, step: Step)
    requires Recorded(s, taken) && Enabled(s, step) && Early(step)
    ensures Closes(Do(true, s, step), taken + {step})
  {
    hide Causes, MainInv, Holdings;
  }

  lemma {:induction false} ClosesByLate(s: State, taken: set<Step>, step: Step)
    requires Recorded(s, taken) && Enabled(s, step) && Late(step)
    ensures Closes(Do(true, s, step), taken + {step})
  {
    hide Causes, MainInv, Holdings, Order;
  }

  lemma {:induction false} ClosesByOfProcess(s: State, taken: set<Step>, step: Step)
    requires Recorded(s, taken) && Enabled(s, step) && OfProcess(step)
    ensures Closes(Do(true, s, step), taken + {step})
  {
    hide Causes, MainInv, Guarded, Holdings, Stages;
    match step
    case Timeout =>
    case TargetGoroutine =>
    case Kill =>
    case WaitReturns =>
    case CountDown =>
    case CloseAllocated =>
    case ProcessEnds =>
    case Reply =>
    case ConnectionLost =>
  }


  lemma {:induction false} ClosesByOfAllocate(s: State, taken: set<Step>, step: Step)
    requires Recorded(s, taken) && Enabled(s, step) && OfAllocate(step)
    ensures Closes(Do(true, s, step), taken + {step})
  {
    hide Causes, MainInv, Guarded, ProcessInv, Holdings, Stages, Order, Flags;
  }

  lemma {:induction false} CausesByEarly(s: State, taken: set<Step>, step: Step)
    requires Recorded(s, taken) && Enabled(s, step) && Early(step)
    ensures Causes(Do(true, s, step), taken + {step})
  {
    hide Holdings, ProcessInv, MainInv, Guarded;
  }

  lemma {:induction false} CausesByLate(s: State, taken: set<Step>, step: Step)
    requires Recorded(s, taken) && Enabled(s, step) && Late(step)
    ensures Causes(Do(true, s, step), taken + {step})
  {
    hide Holdings, ProcessInv, MainInv, Guarded;
  }

  lemma {:induction false} CausesByOfProcess(s: State, taken: set<Step>, step: Step)
    requires Recorded(s, taken) && Enabled(s, step) && OfProcess(step)
    ensures Causes(Do(true, s, step), taken + {step})
  {
    hide Holdings, MainInv, Guarded, Stages;
    match step
    case Timeout =>
    case TargetGoroutine =>
    case Kill =>
    case WaitReturns =>
    case CountDown =>
    case CloseAllocated =>
    case ProcessEnds =>
    case Reply =>
    case ConnectionLost =>
  }

  lemma {:induction false} CausesByOfAllocate(s: State, taken: set<Step>, step: Step)
    requires Recorded(s, taken) && Enabled(s, step) && OfAllocate(step)
    ensures Causes(Do(true, s, step), taken + {step})
  {
    hide Flags, Holdings, ProcessInv, MainInv, Guarded, Stages, Order, Closes;
  }

  /** The record of every run with the guard. */
  lemma {:induction false} RunIsRecorded(steps: seq<Step>)
    ensures Recorded(Run(true, steps), TakenSteps(true, steps))
  {
    hide Recorded, Enabled, Do;
    if steps == [] {
      StartIsRecorded();
    } else {
      var init, step := steps[..|steps| - 1], steps[|steps| - 1];
      RunIsRecorded(init);
      if Enabled(Run(true, init), step) {
        RecordedOn(Run(true, init), TakenSteps(true, init), step);
      } else {
        assert TakenSteps(true, steps) == TakenSteps(true, init);
      }
    }
  }

  lemma {:induction false} StartIsRecorded()
    ensures Recorded(INIT, {})
  {
  }

  lemma {:induction false} OthersAreRecorded(s: State, taken: set<Step>, step: Step)
    requires Recorded(s, taken) && Enabled(s, step) && Other(step)
    ensures
      var t, now := Do(true, s, step), taken + {step};
      Flags(t, now) && Holdings(t, now) && Stages(t, now) && Order(t, now) && Closes(t, now) && Causes(t, now)
  {
    hide Recorded, Flags, Holdings, Stages, Order, Closes, Causes, Enabled, Do, OfProcess, OfAllocate;
    StagesByOthers(s, taken, step);
    OrderByOthers(s, taken, step);
    if OfProcess(step) {
      FlagsByOfProcess(s, taken, step);
      HoldingsByOfProcess(s, taken, step);
      ClosesByOfProcess(s, taken, step);
      CausesByOfProcess(s, taken, step);
    } else {
      FlagsByOfAllocate(s, taken, step);
      HoldingsByOfAllocate(s, taken, step);
      ClosesByOfAllocate(s, taken, step);
      CausesByOfAllocate(s, taken, step);
    }
  }

  lemma {:induction false} RecordedOn(s: State, taken: set<Step>, step: Step)
    requires Recorded(s, taken) && Enabled(s, step)
    ensures Recorded(Do(true, s, step), taken + {step})
  {
    hide Flags, Holdings, Stages, Order, Closes, Causes, ProcessInv, MainInv, Guarded, Enabled, Do;
    StepKeepsInv(true, s, step);
    if Early(step) {
      FlagsByEarly(s, taken, step);
      HoldingsByEarly(s, taken, step);
      StagesByEarly(s, taken, step);
      OrderByEarly(s, taken, step);
      ClosesByEarly(s, taken, step);
      CausesByEarly(s, taken, step);
    } else if Late(step) {
      FlagsByLate(s, taken, step);
      HoldingsByLate(s, taken, step);
      StagesByLate(s, taken, step);
      OrderByLate(s, taken, step);
      ClosesByLate(s, taken, step);
      CausesByLate(s, taken, step);
    } else {
      OthersAreRecorded(s, taken, step);
    }
  }

  lemma {:induction false} TimerStays(s: State, step: Step)
    requires Enabled(s, step)
    ensures !s.main.NotBegun? ==>
      !Do(true, s, step).main.NotBegun? && (Do(true, s, step).closeCtx.NotMade? <==> s.closeCtx.NotMade?)
  {
    if Early(step) {
    } else if Late(step) {
    } else if OfProcess(step) {
    }
  }

  /** A timer is made exactly by a `Begin` that finds a browser. */
  lemma {:induction false} TimerOfBegin(before: seq<Step>, after: seq<Step>)
    requires Run(true, before).main.NotBegun?
    ensures
      var s := Run(true, before + [Begin] + after);
      !s.main.NotBegun? && (s.closeCtx.NotMade? <==> !Run(true, before).browser)
    decreases |after|
  {
    hide Run, Do, Enabled;
    if after == [] {
      assert before + [Begin] + after == before + [Begin];
      OneMore(true, before, Begin);
      BeginOf(before);
    } else {
      var n := |after| - 1;
      var init := before + [Begin] + after[..n];
      assert before + [Begin] + after == init + [after[n]];
      TimerOfBegin(before, after[..n]);
      OneMore(true, init, after[n]);
      if Enabled(Run(true, init), after[n]) {
        TimerStays(Run(true, init), after[n]);
      }
    }
  }

  lemma {:induction false} BeginOf(before: seq<Step>)
    requires Run(true, before).main.NotBegun?
    ensures Enabled(Run(true, before), Begin)
    ensures
      var t := Do(true, Run(true, before), Begin);
      !t.main.NotBegun? && (t.closeCtx.NotMade? <==> !Run(true, before).browser)
  {
    hide Run, Flags, Holdings, Order, Closes, Inv, Guarded;
    RunIsRecorded(before);
  }

  /**
  When a browser exists as `shutdownChrome` begins, it is asked to close before anything is
  cut off, and the cut comes only after an answer or the deadline: after an answer without
  error only once the process is gone.  When there is none, nothing is asked and `Cancel` is
  never entered.
  */
  lemma {:induction false} GracefulFirst(before: seq<Step>, after: seq<Step>)
    requires Run(true, before).main.NotBegun?
    ensures
      var s, taken := Run(true, before + [Begin] + after), TakenSteps(true, before + [Begin] + after);
      if Run(true, before).browser then
        CutOff(s.main) ==>
          && s.closing
          && ((Answered(true) in taken && Reply in taken)
              || (Answered(false) in taken && Reply in taken && s.channel.closed && s.process.Exited?)
              || (DeadlineInExecute in taken && (Timeout in taken || ConnectionLost in taken)))
      else
        !s.closing && CutOff(s.main)
  {
    TimerOfBegin(before, after);
    RunIsRecorded(before + [Begin] + after);
  }

  /**
  A Chrome that answers without error and ends before the deadline is not killed: it has ended by
  itself.  A Chrome is killed, and its start given up, only after its connection was lost or `Cancel`
  is through with it.
  */
  lemma {:induction false} GracefulIsGentle(steps: seq<Step>)
    ensures
      var s, taken := Run(true, steps), TakenSteps(true, steps);
      && (CutOff(s.main) && Answered(false) in taken && DeadlineInSelect !in taken && ConnectionLost !in taken
          ==> ProcessEnds in taken && Kill !in taken)
      && (Kill in taken || AllocateGivesUp in taken
          ==> ConnectionLost in taken || EndCancel in taken || DoCancelAllocator in taken)
      && (EndCancel in taken ==> CloseAllocated in taken || Timeout in taken || ConnectionLost in taken)
  {
    RunIsRecorded(steps);
  }

  /**
  When `shutdownChrome` has returned, the allocator was cancelled and waited for before the context
  was; a Chrome whose start the allocator has seen is gone; and one that it has not seen yet is
  about to be killed.
  */
  lemma {:induction false} NoChromeSurvives(steps: seq<Step>)
    requires Run(true, steps).main.Finished?
    ensures
      var s, taken := Run(true, steps), TakenSteps(true, steps);
      && taken >= {Begin, DoCancelAllocator, GroupDone, DoCancelContext}
      && taken >= {TargetGoroutine, TargetReachedAgain, ReceiveAgain}
      && (TakeToken in taken ==> s.process.Exited? && CloseAllocated in taken)
      && (s.process.Running? ==> Enabled(s, Kill) && s.alloc != Succeeded)
      && !Enabled(s, StartWorks) && !Enabled(s, TakeToken)
  {
    RunIsRecorded(steps);
  }

  /** The allocator is waited for: a process that it has seen start is over, and counted down, by then. */
  lemma {:induction false} AllocatorIsAwaited(steps: seq<Step>)
    requires Run(true, steps).main.AwaitGroup? && Enabled(Run(true, steps), GroupDone)
    ensures
      var taken := TakenSteps(true, steps);
      TakeToken in taken ==> CountDown in taken && (Kill in taken || ProcessEnds in taken)
  {
    RunIsRecorded(steps);
  }

  /** Once Chrome is asked to close, a lost connection no longer cancels the context. */
  lemma {:induction false} LossIsExpected(before: seq<Step>, after: seq<Step>)
    requires Run(true, before).closing
    ensures ConnectionLost in TakenSteps(true, before + after) ==> ConnectionLost in TakenSteps(true, before)
    ensures Run(true, before + after).closing
    decreases |after|
  {
    hide Run, Do, Enabled;
    if after == [] {
      assert before + after == before;
    } else {
      var n := |after| - 1;
      var init := before + after[..n];
      LossIsExpected(before, after[..n]);
      assert before + after == init + [after[n]] && (before + after)[..|before + after| - 1] == init;
      OneMore(true, init, after[n]);
      if Enabled(Run(true, init), after[n]) {
        ClosingStays(Run(true, init), after[n]);
      }
    }
  }

  lemma {:induction false} ClosingStays(s: State, step: Step)
    requires Enabled(s, step) && s.closing
    ensures Do(true, s, step).closing && !step.ConnectionLost?
  {
    if Early(step) {
    } else if Late(step) {
    } else if OfProcess(step) {
    }
  }

  // ---------- a willing Chrome, and one that hangs ----------

  lemma {:induction false} Grow(steps: seq<Step>, step: Step) returns (more: seq<Step>)
    requires Enabled(Run(true, steps), step)
    ensures more == steps + [step]
    ensures Run(true, more) == Do(true, Run(true, steps), step)
    ensures TakenSteps(true, more) == TakenSteps(true, steps) + {step}
  {
    hide Enabled, Do;
    more := steps + [step];
    assert more[..|steps|] == steps;
  }

  /** Beginning on a context whose Chrome runs. */
  lemma {:induction false} BeginWithChrome(before: seq<Step>) returns (run: seq<Step>)
    requires Run(true, before).main.NotBegun? && Run(true, before).browser
    requires Run(true, before).process.Running? && !Run(true, before).ctxDone
    ensures before <= run
    ensures
      var s := Run(true, run);
      && s.main.Executing? && s.closing && !s.replied && !s.ctxDone && !s.targetDone && s.closeCtx.Live?
      && s.process.Running? && s.waiter.InWait? && s.group == 1
    ensures TakenSteps(true, run) == TakenSteps(true, before) + {Begin, Enter}
  {
    hide Run, TakenSteps, Holdings;
    RunIsRecorded(before);
    run := Grow(before, Begin);
    run := Grow(run, Enter);
  }

  /** The process is over: its goroutine closes the channel. */
  lemma {:induction false} ProcessIsOver(before: seq<Step>) returns (run: seq<Step>)
    requires Run(true, before).process.Exited? && Run(true, before).waiter.InWait? && Run(true, before).group == 1
    ensures before <= run
    ensures Run(true, run).channel.closed && Run(true, run).group == 0
    ensures Run(true, run) ==
      Run(true, before).(waiter := Closed, group := 0, channel := Run(true, before).channel.(closed := true))
    ensures TakenSteps(true, run) == TakenSteps(true, before) + {WaitReturns, CountDown, CloseAllocated}
  {
    hide Run, TakenSteps;
    run := Grow(before, WaitReturns);
    run := Grow(run, CountDown);
    run := Grow(run, CloseAllocated);
  }

  /** The last part of the return. */
  lemma {:induction false} ReturnFrom(before: seq<Step>) returns (run: seq<Step>)
    requires Run(true, before).main.AwaitGroup? && Run(true, before).group == 0 && Run(true, before).channel.closed
    requires Run(true, before).ctxDone && !Run(true, before).targetDone
    ensures before <= run && Run(true, run).main.Finished?
    ensures TakenSteps(true, run) ==
      TakenSteps(true, before) + {GroupDone, DoCancelContext, TargetGoroutine, TargetReachedAgain, ReceiveAgain}
  {
    hide Run, TakenSteps;
    run := Grow(before, GroupDone);
    run := Grow(run, DoCancelContext);
    run := Grow(run, TargetGoroutine);
    run := Grow(run, TargetReachedAgain);
    run := Grow(run, ReceiveAgain);
  }

  /** An answer, and the end of the process, in time. */
  lemma {:induction false} ObeyAndEnd(before: seq<Step>) returns (run: seq<Step>)
    requires Run(true, before).main.Executing? && !Run(true, before).replied && Run(true, before).process.Running?
    requires Run(true, before).waiter.InWait? && Run(true, before).group == 1
    ensures before <= run
    ensures Run(true, run).main == Selecting(true) && Run(true, run).group == 0 && Run(true, run).channel.closed
    ensures Run(true, run).targetDone == Run(true, before).targetDone
    ensures TakenSteps(true, run) == TakenSteps(true, before) + {
      Reply, Answered(false), ProcessEnds, WaitReturns, CountDown, CloseAllocated}
  {
    hide Run, TakenSteps;
    run := Grow(before, Reply);
    run := Grow(run, Answered(false));
    run := Grow(run, ProcessEnds);
    run := ProcessIsOver(run);
  }

  /** The process being gone, `Cancel` goes through, and the allocator is cancelled. */
  lemma {:induction false} CancelGoesThrough(before: seq<Step>) returns (run: seq<Step>)
    requires Run(true, before).main == Selecting(true) && Run(true, before).channel.closed
    ensures before <= run
    ensures Run(true, run).main.AwaitGroup? && Run(true, run).ctxDone && Run(true, run).channel.closed
    ensures Run(true, run).group == Run(true, before).group
    ensures Run(true, run).targetDone == Run(true, before).targetDone
    ensures TakenSteps(true, run) == TakenSteps(true, before) + {TakeAllocated, EndCancel, DoCancelAllocator}
  {
    hide Run, TakenSteps;
    run := Grow(before, TakeAllocated);
    run := Grow(run, EndCancel);
    run := Grow(run, DoCancelAllocator);
  }

  /** From every run that leaves a Chrome running, a Chrome that obeys lets `shutdownChrome` return with no kill. */
  lemma {:induction false} WillingChrome(before: seq<Step>) returns (run: seq<Step>)
    requires Run(true, before).main.NotBegun? && Run(true, before).browser
    requires Run(true, before).process.Running? && !Run(true, before).ctxDone
    ensures before <= run && Run(true, run).main.Finished?
    ensures TakenSteps(true, run) == TakenSteps(true, before) + {
      Begin, Enter, Reply, Answered(false), ProcessEnds, WaitReturns, CountDown, CloseAllocated, TakeAllocated,
      EndCancel, DoCancelAllocator, GroupDone, DoCancelContext, TargetGoroutine, TargetReachedAgain, ReceiveAgain}
    ensures Kill !in TakenSteps(true, run)
  {
    hide Run, TakenSteps, Do, Enabled;
    run := BeginWithChrome(before);
    run := ObeyAndEnd(run);
    run := CancelGoesThrough(run);
    run := ReturnFrom(run);
    KillHasADoneContext(before);
  }

  lemma {:induction false} KillHasADoneContext(steps: seq<Step>)
    ensures Kill in TakenSteps(true, steps) ==> Run(true, steps).ctxDone
  {
    RunIsRecorded(steps);
  }

  /** One that never answers is killed after the deadline, and the return comes all the same. */
  lemma {:induction false} HungChrome(before: seq<Step>) returns (run: seq<Step>)
    requires Run(true, before).main.NotBegun? && Run(true, before).browser
    requires Run(true, before).process.Running? && !Run(true, before).ctxDone
    ensures before <= run && Run(true, run).main.Finished? && Run(true, run).process.Exited?
    ensures TakenSteps(true, run) == TakenSteps(true, before) + {
      Begin, Enter, Timeout, DeadlineInExecute, DoCancelAllocator, Kill, WaitReturns, CountDown, CloseAllocated,
      GroupDone, DoCancelContext, TargetGoroutine, TargetReachedAgain, ReceiveAgain}
  {
    hide Run, TakenSteps;
    run := BeginWithChrome(before);
    run := Grow(run, Timeout);
    run := Grow(run, DeadlineInExecute);
    run := Grow(run, DoCancelAllocator);
    run := Grow(run, Kill);
    run := ProcessIsOver(run);
    run := ReturnFrom(run);
    RunIsRecorded(run);
  }

  /** A Chrome whose start the allocator sees only after the cancel is killed, and its goroutine closes the channel. */
  lemma {:induction false} LateStartIsKilled(before: seq<Step>) returns (run: seq<Step>)
    requires Run(true, before).alloc.Started? && Run(true, before).ctxDone && Run(true, before).process.Running?
    requires Run(true, before).channel.token
    ensures before <= run && Run(true, run).process.Exited? && Run(true, run).channel.closed
    ensures TakenSteps(true, run) ==
      TakenSteps(true, before) + {TakeToken, Kill, WaitReturns, CountDown, CloseAllocated}
  {
    hide Run, TakenSteps;
    NotYetCounted(before);
    run := Grow(before, TakeToken);
    run := Grow(run, Kill);
    run := ProcessIsOver(run);
  }

  lemma {:induction false} NotYetCounted(steps: seq<Step>)
    requires Run(true, steps).alloc.Started?
    ensures Run(true, steps).group == 0
  {
    RunIsRecorded(steps);
  }

  // ---------- without the guard ----------

  lemma {:induction false} OneMore(guarded: bool, steps: seq<Step>, step: Step)
    ensures
      var s := Run(guarded, steps);
      Run(guarded, steps + [step]) == if Enabled(s, step) then Do(guarded, s, step) else s
  {
    assert (steps + [step])[..|steps|] == steps;
  }

  const PLAN: seq<Step> := [
    Begin, Enter, TargetGoroutine, TargetReached, TakeAllocated, EndCancel, DoCancelAllocator, GroupDone,
    DoCancelContext, TargetReachedAgain, Timeout, CallAllocate, StartFails]

  /** `Cancel` takes the token of a context that never allocated; the last receive then waits for ever. */
  lemma {:induction false} WithoutGuardItBlocks() returns (steps: seq<Step>)
    ensures
      var s := Run(false, steps);
      s.main == AwaitAllocatedAgain && forall step :: !Enabled(s, step)
  {
    hide Enabled, Do, PlanState;
    steps := [];
    PlanFrom();
    for i := 0 to |PLAN|
      invariant Run(false, steps) == PlanState(i)
    {
      OneMore(false, steps, PLAN[i]);
      PlanStep(i, PLAN[i]);
      steps := steps + [PLAN[i]];
    }
    PlanIsOver();
  }

  lemma {:induction false} PlanFrom()
    ensures PlanState(0) == Run(false, [])
  {
  }

  lemma {:induction false} PlanIsOver()
    ensures PlanState(13).main == AwaitAllocatedAgain && forall step :: !Enabled(PlanState(13), step)
  {
  }

  lemma {:induction false} PlanStep(i: nat, step: Step)
    requires i < 13 && step == PLAN[i]
    ensures Enabled(PlanState(i), step) && Do(false, PlanState(i), step) == PlanState(i + 1)
  {
    if i < 5 {
      PlanBegins(i);
    } else if i < 9 {
      PlanGoesOn(i);
    } else {
      PlanEnds(i);
    }
  }

  lemma {:induction false} PlanBegins(i: nat)
    requires i < 5
    ensures Enabled(PlanState(i), PLAN[i]) && Do(false, PlanState(i), PLAN[i]) == PlanState(i + 1)
  {
  }

  lemma {:induction false} PlanGoesOn(i: nat)
    requires 5 <= i < 9
    ensures Enabled(PlanState(i), PLAN[i]) && Do(false, PlanState(i), PLAN[i]) == PlanState(i + 1)
  {
  }

  lemma {:induction false} PlanEnds(i: nat)
    requires 9 <= i < 13
    ensures Enabled(PlanState(i), PLAN[i]) && Do(false, PlanState(i), PLAN[i]) == PlanState(i + 1)
  {
  }

  /** The states of the blocking run. */
  function PlanState(i: nat): State {
    var entered := INIT.(main := Entering, closeCtx := Live);
    var cancelled := entered.(main := AwaitTarget, ctxDone := true);
    var selecting := cancelled.(main := Selecting(false), targetDone := true);
    var taken := selecting.(channel := Channel(false, false));
    match i
    case 0 => INIT
    case 1 => entered
    case 2 => cancelled
    case 3 => cancelled.(targetDone := true)
    case 4 => selecting
    case 5 => taken.(main := Ended(false, true))
    case 6 => taken.(main := CancelAllocator)
    case 7 => taken.(main := AwaitGroup)
    case 8 => taken.(main := CancelContext)
    case 9 => taken.(main := AwaitTargetAgain)
    case 10 => taken.(main := AwaitAllocatedAgain)
    case 11 => taken.(main := AwaitAllocatedAgain, closeCtx := Over)
    case 12 => taken.(main := AwaitAllocatedAgain, closeCtx := Over, alloc := Starting)
    case _ => taken.(main := AwaitAllocatedAgain, closeCtx := Over, alloc := Failed)
  }
}

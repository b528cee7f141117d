/**
`responseAction` of chromedp/chromedp.go: events are buffered until the loader of the
navigation is known, then replayed.  The class holds the variables the closures share.
*/
module Navigation {
  import opened Optional

  /** An empty id is the empty string, as in the source. */
  datatype Event =
    | RequestWillBeSent(loaderID: string, frameID: string, requestID: string, isDocument: bool)
    | LoadingFailed(requestID: string, text: string, canceled: bool)
    | ResponseReceived(requestID: string, response: int)
    | Lifecycle(frameID: string, loaderID: string, name: string)
    | LoadEventFired
    | FrameNavigated(frameID: string, parentID: string)
    | NavigatedWithinDocument
    | Unrelated

  /** What `handleEvent` updates. */
  datatype View = View(reqID: string, loadErr: Option<string>, response: Option<int>, hasInit: bool, finished: bool)

  const FRESH := View("", None, None, false, false)

  /** `handleEvent` for a known loader and frame. */
  function Handled(loaderID: string, frameID: string, v: View, ev: Event): View {
    match ev
    case RequestWillBeSent(loader, _, request, isDocument) =>
      if loader == loaderID && isDocument then v.(reqID := request) else v
    case LoadingFailed(request, text, canceled) =>
      if request == v.reqID then v.(loadErr := Some(text), finished := v.finished || canceled) else v
    case ResponseReceived(request, response) =>
      if request == v.reqID then v.(response := Some(response)) else v
    case Lifecycle(frame, _, name) =>
      if frame == frameID && name == "init" then v.(hasInit := true) else v
    case LoadEventFired => if v.hasInit then v.(finished := true) else v
    case _ => v
  }

  /** A load event after the init event, or the end of the request: `lcancel` is called. */
  predicate Ends(v: View, ev: Event) {
    (ev.LoadEventFired? && v.hasInit) || (ev.LoadingFailed? && ev.canceled && ev.requestID == v.reqID)
  }

  /** All the events, handled in order. */
  function Fold(loaderID: string, frameID: string, events: seq<Event>): View {
    if events == [] then FRESH
    else Handled(loaderID, frameID, Fold(loaderID, frameID, events[..|events| - 1]), events[|events| - 1])
  }

  lemma {:induction false} FoldOneMore(loaderID: string, frameID: string, events: seq<Event>, ev: Event)
    ensures
      var before, after := Fold(loaderID, frameID, events), Fold(loaderID, frameID, events + [ev]);
      after == Handled(loaderID, frameID, before, ev) && (after.finished <==> before.finished || Ends(before, ev))
  {
    assert (events + [ev])[..|events|] == events;
  }

  /** What one event makes of the ids while the loader is unknown. */
  function Discovered(loaderID: string, frameID: string, ev: Event): (string, string) {
    match ev
    case FrameNavigated(frame, parent) => (loaderID, if parent == "" then frame else frameID)
    case RequestWillBeSent(loader, frame, request, _) =>
      (if frame == frameID && loader == request then loader else loaderID, frameID)
    case Lifecycle(frame, loader, name) =>
      (if frame == frameID && name == "init" then loader else loaderID, frameID)
    case _ => (loaderID, frameID)
  }

  /** The loader and the frame after the events; they stay as they are once the loader is known. */
  function Ids(frame0: string, events: seq<Event>): (string, string) {
    if events == [] then ("", frame0)
    else
      var (loader, frame) := Ids(frame0, events[..|events| - 1]);
      if loader != "" then (loader, frame) else Discovered(loader, frame, events[|events| - 1])
  }

  lemma {:induction false} IdsOneMore(frame0: string, events: seq<Event>, ev: Event)
    ensures
      var (loader, frame) := Ids(frame0, events);
      Ids(frame0, events + [ev]) == if loader != "" then (loader, frame) else Discovered(loader, frame, ev)
  {
    assert (events + [ev])[..|events|] == events;
  }

  /** A fragment navigation was seen. */
  predicate WithinDocument(events: seq<Event>) { exists i :: 0 <= i < |events| && events[i].NavigatedWithinDocument? }

  lemma {:induction false} WithinOneMore(events: seq<Event>, ev: Event)
    ensures WithinDocument(events + [ev]) <==> WithinDocument(events) || ev.NavigatedWithinDocument?
  {
    assert (events + [ev])[|events|] == ev && forall i :: 0 <= i < |events| ==> (events + [ev])[i] == events[i];
  }

  class ResponseAction {
    var loaderID: string
    var frameID: string
    var view: View
    var earlyEvents: seq<Event>
    /** The listener's context; a cancelled listener is called no more. */
    var cancelled: bool

    /** The target's frame at the start, and the events the listener was called with. */
    ghost const frame0: string
    ghost var delivered: seq<Event>
    /** The caller's context ended the listener. */
    ghost var outside: bool

    constructor (currentFrame: string)
      ensures Valid() && delivered == [] && !cancelled && !outside && frame0 == currentFrame
    {
      loaderID, frameID, view, earlyEvents, cancelled := "", currentFrame, FRESH, [], false;
      frame0 := currentFrame;
      delivered, outside := [], false;
    }

    ghost predicate Valid()
      reads this
    {
      && (loaderID, frameID) == Ids(frame0, delivered)
      && (cancelled <==> view.finished || outside)
      && if loaderID == "" then earlyEvents == delivered && view == FRESH.(finished := WithinDocument(delivered))
         else earlyEvents == [] && view == Fold(loaderID, frameID, delivered)
    }

    /** `handleEvent`. */
    method HandleEvent(ev: Event)
      modifies this`view, this`cancelled
      ensures view == Handled(loaderID, frameID, old(view), ev)
      ensures cancelled <==> old(cancelled) || Ends(old(view), ev)
    {
      match ev
      case RequestWillBeSent(loader, _, request, isDocument) =>
        if loader == loaderID && isDocument {
          view := view.(reqID := request);
        }
      case LoadingFailed(request, text, canceled) =>
        if request == view.reqID {
          view := view.(loadErr := Some(text));
          if canceled {
            view := view.(finished := true);
            cancelled := true;
          }
        }
      case ResponseReceived(request, response) =>
        if request == view.reqID {
          view := view.(response := Some(response));
        }
      case Lifecycle(frame, _, name) =>
        if frame == frameID && name == "init" {
          view := view.(hasInit := true);
        }
      case LoadEventFired =>
        if view.hasInit {
          view := view.(finished := true);
          cancelled := true;
        }
      case _ =>
    }

    /** The listener: handles the event, or buffers it and replays the buffer once the loader is known. */
    method Listen(ev: Event)
      requires Valid() && !cancelled
      modifies this
      ensures Valid() && delivered == old(delivered) + [ev] && outside == old(outside)
    {
      hide Fold, Handled, Ends, Ids, WithinDocument;
      IdsOneMore(frame0, delivered, ev);
      FoldOneMore(loaderID, frameID, delivered, ev);
      WithinOneMore(delivered, ev);
      delivered := delivered + [ev];
      if loaderID != "" {
        HandleEvent(ev);
        return;
      }
      earlyEvents := earlyEvents + [ev];
      match ev {
        case FrameNavigated(frame, parent) =>
          if parent == "" {
            frameID := frame;
          }
        case RequestWillBeSent(loader, frame, request, _) =>
          if frame == frameID && loader == request {
            loaderID := loader;
          }
        case Lifecycle(frame, loader, name) =>
          if frame == frameID && name == "init" {
            loaderID := loader;
          }
        case NavigatedWithinDocument =>
          view := view.(finished := true);
          cancelled := true;
        case _ =>
      }
      if loaderID != "" {
        Replay();
        earlyEvents := [];
      }
    }

    method Replay()
      requires loaderID != "" && view == FRESH && !cancelled
      modifies this`view, this`cancelled
      ensures view == Fold(loaderID, frameID, earlyEvents) && cancelled == view.finished
    {
      for i := 0 to |earlyEvents|
        invariant view == Fold(loaderID, frameID, earlyEvents[..i]) && cancelled == view.finished
      {
        assert earlyEvents[..i + 1][..i] == earlyEvents[..i];
        HandleEvent(earlyEvents[i]);
      }
      assert earlyEvents[..|earlyEvents|] == earlyEvents;
    }

    /** `runListeners` for this listener: skipped once its context is cancelled. */
    method Deliver(ev: Event)
      requires Valid()
      modifies this
      ensures Valid()
      ensures delivered == if old(cancelled) then old(delivered) else old(delivered) + [ev]
      ensures outside == old(outside) && (old(cancelled) ==> cancelled && view == old(view))
    {
      if !cancelled {
        Listen(ev);
      }
    }

    /** The caller's context may end the listener at any time. */
    method CancelFromOutside()
      requires Valid()
      modifies this`cancelled, this`outside
      ensures Valid() && cancelled && outside
    {
      cancelled, outside := true, true;
    }
  }

  // ---------- which events count, by their places ----------

  predicate IsDocument(loaderID: string, ev: Event) {
    ev.RequestWillBeSent? && ev.loaderID == loaderID && ev.isDocument
  }

  /** The place of the loader's last document request, or -1. */
  function LastDocument(loaderID: string, events: seq<Event>): (i: int)
    ensures -1 <= i < |events| && (i >= 0 ==> IsDocument(loaderID, events[i]))
    ensures forall k :: i < k < |events| ==> !IsDocument(loaderID, events[k])
  {
    if events == [] then -1
    else if IsDocument(loaderID, events[|events| - 1]) then |events| - 1
    else LastDocument(loaderID, events[..|events| - 1])
  }

  /** The request of that document request, or the empty id. */
  function Current(loaderID: string, events: seq<Event>): string {
    var i := LastDocument(loaderID, events);
    if i < 0 then "" else events[i].requestID
  }

  /** A failure, and a response, of the request that is current where it comes. */
  predicate FailedAt(loaderID: string, events: seq<Event>, j: nat)
    requires j < |events|
  {
    events[j].LoadingFailed? && events[j].requestID == Current(loaderID, events[..j])
  }

  predicate RespondedAt(loaderID: string, events: seq<Event>, j: nat)
    requires j < |events|
  {
    events[j].ResponseReceived? && events[j].requestID == Current(loaderID, events[..j])
  }

  /** What comes later makes no difference. */
  lemma {:induction false} CountsBefore(loaderID: string, events: seq<Event>, n: nat, j: nat)
    requires j < n <= |events|
    ensures FailedAt(loaderID, events[..n], j) <==> FailedAt(loaderID, events, j)
    ensures RespondedAt(loaderID, events[..n], j) <==> RespondedAt(loaderID, events, j)
  {
    assert events[..n][..j] == events[..j];
  }

  lemma {:induction false} AllBefore(loaderID: string, events: seq<Event>, n: nat)
    requires n <= |events|
    ensures forall k :: 0 <= k < n ==> (FailedAt(loaderID, events, k) <==> FailedAt(loaderID, events[..n], k))
    ensures forall k :: 0 <= k < n ==> (RespondedAt(loaderID, events, k) <==> RespondedAt(loaderID, events[..n], k))
  {
    forall k | 0 <= k < n
      ensures FailedAt(loaderID, events, k) <==> FailedAt(loaderID, events[..n], k)
      ensures RespondedAt(loaderID, events, k) <==> RespondedAt(loaderID, events[..n], k)
    {
      CountsBefore(loaderID, events, n, k);
    }
  }

  /** The places of the last such failure and response, or -1. */
  function LastFailure(loaderID: string, events: seq<Event>): (i: int)
    ensures -1 <= i < |events| && (i >= 0 ==> FailedAt(loaderID, events, i))
    ensures forall k :: i < k < |events| ==> !FailedAt(loaderID, events, k)
  {
    if events == [] then -1
    else
      var n := |events| - 1;
      if FailedAt(loaderID, events, n) then n
      else
        var i := LastFailure(loaderID, events[..n]);
        AllBefore(loaderID, events, n);
        i
  }

  function LastResponse(loaderID: string, events: seq<Event>): (i: int)
    ensures -1 <= i < |events| && (i >= 0 ==> RespondedAt(loaderID, events, i))
    ensures forall k :: i < k < |events| ==> !RespondedAt(loaderID, events, k)
  {
    if events == [] then -1
    else
      var n := |events| - 1;
      if RespondedAt(loaderID, events, n) then n
      else
        var i := LastResponse(loaderID, events[..n]);
        AllBefore(loaderID, events, n);
        i
  }

  predicate IsInit(frameID: string, ev: Event) { ev.Lifecycle? && ev.frameID == frameID && ev.name == "init" }

  predicate InitIn(frameID: string, events: seq<Event>) {
    exists i :: 0 <= i < |events| && IsInit(frameID, events[i])
  }

  /** A load event that counts: an init event of the frame came before it. */
  predicate LoadsAt(frameID: string, events: seq<Event>, j: nat)
    requires j < |events|
  {
    events[j].LoadEventFired? && InitIn(frameID, events[..j])
  }

  /** A failure that ends the action. */
  predicate FailsAt(loaderID: string, events: seq<Event>, j: nat)
    requires j < |events|
  {
    FailedAt(loaderID, events, j) && events[j].canceled
  }

  // ---------- what the fold says ----------

  /** The request id: that of the last document request of the loader, or empty when there is none. */
  lemma {:induction false} RequestMeans(loaderID: string, frameID: string, events: seq<Event>)
    ensures Fold(loaderID, frameID, events).reqID == Current(loaderID, events)
  {
    if events != [] {
      RequestMeans(loaderID, frameID, events[..|events| - 1]);
    }
  }

  /** The load error: the text of the last failure whose request was current where it came, none without one. */
  lemma {:induction false} LoadErrMeans(loaderID: string, frameID: string, events: seq<Event>)
    ensures
      var i := LastFailure(loaderID, events);
      Fold(loaderID, frameID, events).loadErr == if i < 0 then None else Some(events[i].text)
  {
    hide Current;
    if events != [] {
      LoadErrMeans(loaderID, frameID, events[..|events| - 1]);
      RequestMeans(loaderID, frameID, events[..|events| - 1]);
    }
  }

  /** The response: that of the last `ResponseReceived` for the request current where it came, likewise. */
  lemma {:induction false} ResponseMeans(loaderID: string, frameID: string, events: seq<Event>)
    ensures
      var i := LastResponse(loaderID, events);
      Fold(loaderID, frameID, events).response == if i < 0 then None else Some(events[i].response)
  {
    hide Current;
    if events != [] {
      ResponseMeans(loaderID, frameID, events[..|events| - 1]);
      RequestMeans(loaderID, frameID, events[..|events| - 1]);
    }
  }

  lemma {:induction false} InitOneMore(frameID: string, events: seq<Event>)
    requires events != []
    ensures
      var n := |events| - 1;
      InitIn(frameID, events) <==> InitIn(frameID, events[..n]) || IsInit(frameID, events[n])
  {
    var n := |events| - 1;
    assert forall i :: 0 <= i < n ==> events[..n][i] == events[i];
    if InitIn(frameID, events[..n]) {
      var i :| 0 <= i < n && IsInit(frameID, events[..n][i]);
      assert IsInit(frameID, events[i]);
    }
  }

  lemma {:induction false} HasInitMeans(loaderID: string, frameID: string, events: seq<Event>)
    ensures Fold(loaderID, frameID, events).hasInit <==> InitIn(frameID, events)
  {
    hide InitIn;
    if events == [] {
      NoInit(frameID);
    } else {
      HasInitMeans(loaderID, frameID, events[..|events| - 1]);
      InitOneMore(frameID, events);
    }
  }

  lemma {:induction false} NoInit(frameID: string)
    ensures !InitIn(frameID, [])
  {
  }

  /** Some event so far loads the page or fails for good. */
  predicate EndedBy(loaderID: string, frameID: string, events: seq<Event>) {
    exists j :: 0 <= j < |events| && (LoadsAt(frameID, events, j) || FailsAt(loaderID, events, j))
  }

  lemma {:induction false} EndedOneMore(loaderID: string, frameID: string, events: seq<Event>)
    requires events != []
    ensures
      var n := |events| - 1;
      EndedBy(loaderID, frameID, events)
      <==> EndedBy(loaderID, frameID, events[..n]) || LoadsAt(frameID, events, n) || FailsAt(loaderID, events, n)
  {
    hide InitIn, FailedAt;
    var n := |events| - 1;
    forall j | 0 <= j < n
      ensures LoadsAt(frameID, events, j) <==> LoadsAt(frameID, events[..n], j)
      ensures FailsAt(loaderID, events, j) <==> FailsAt(loaderID, events[..n], j)
    {
      assert events[..n][..j] == events[..j];
      CountsBefore(loaderID, events, n, j);
    }
    if EndedBy(loaderID, frameID, events[..n]) {
      var j :| 0 <= j < n && (LoadsAt(frameID, events[..n], j) || FailsAt(loaderID, events[..n], j));
      assert LoadsAt(frameID, events, j) || FailsAt(loaderID, events, j);
    }
  }

  /**
  The action finishes exactly when a load event came after an init event of the frame,
  or the current request failed for good; a load event alone never finishes it.
  */
  lemma {:induction false} FinishedMeans(loaderID: string, frameID: string, events: seq<Event>)
    ensures Fold(loaderID, frameID, events).finished
      <==> exists j :: 0 <= j < |events| && (LoadsAt(frameID, events, j) || FailsAt(loaderID, events, j))
  {
    hide InitIn, Current;
    if events != [] {
      var n := |events| - 1;
      FinishedMeans(loaderID, frameID, events[..n]);
      HasInitMeans(loaderID, frameID, events[..n]);
      RequestMeans(loaderID, frameID, events[..n]);
      EndedOneMore(loaderID, frameID, events);
    }
  }

  // ---------- which loader and frame ----------

  predicate NavigatesRoot(ev: Event) { ev.FrameNavigated? && ev.parentID == "" }

  /** The place of the last navigation of a frame without a parent, or -1. */
  function LastRoot(events: seq<Event>): (i: int)
    ensures -1 <= i < |events| && (i >= 0 ==> NavigatesRoot(events[i]))
    ensures forall k :: i < k < |events| ==> !NavigatesRoot(events[k])
  {
    if events == [] then -1
    else if NavigatesRoot(events[|events| - 1]) then |events| - 1
    else LastRoot(events[..|events| - 1])
  }

  /** That frame, or the one at the start. */
  function Root(frame0: string, events: seq<Event>): string {
    var i := LastRoot(events);
    if i < 0 then frame0 else events[i].frameID
  }

  /** An event that names the loader: a request with the loader's own id, or the init, of the root frame there. */
  predicate NamesLoader(frame0: string, events: seq<Event>, j: nat)
    requires j < |events|
  {
    var ev := events[j];
    && ((ev.RequestWillBeSent? && ev.requestID == ev.loaderID) || (ev.Lifecycle? && ev.name == "init"))
    && ev.loaderID != "" && ev.frameID == Root(frame0, events[..j])
  }

  lemma {:induction false} NamesBefore(frame0: string, events: seq<Event>, n: nat)
    requires n <= |events|
    ensures forall k :: 0 <= k < n ==> (NamesLoader(frame0, events, k) <==> NamesLoader(frame0, events[..n], k))
  {
    assert forall k :: 0 <= k < n ==> events[..n][..k] == events[..k];
  }

  /** The place of the first such event, or -1. */
  function FirstNamed(frame0: string, events: seq<Event>): (d: int)
    ensures -1 <= d < |events| && (d >= 0 ==> NamesLoader(frame0, events, d))
    ensures forall k :: 0 <= k < (if d < 0 then |events| else d) ==> !NamesLoader(frame0, events, k)
  {
    if events == [] then -1
    else
      var n := |events| - 1;
      NamesBefore(frame0, events, n);
      var d := FirstNamed(frame0, events[..n]);
      if d >= 0 then d else if NamesLoader(frame0, events, n) then n else -1
  }

  /** The loader is that of the first event that names one, and the frame the root in front of that event. */
  lemma {:induction false} IdsMean(frame0: string, events: seq<Event>)
    ensures
      var d := FirstNamed(frame0, events);
      Ids(frame0, events) ==
        if d < 0 then ("", Root(frame0, events)) else (events[d].loaderID, Root(frame0, events[..d]))
  {
    if events != [] {
      var n := |events| - 1;
      IdsMean(frame0, events[..n]);
      var d := FirstNamed(frame0, events[..n]);
      assert d >= 0 ==> events[..n][..d] == events[..d];
    }
  }

  // ---------- the action ----------

  /** What the select at the end returns, when the listener's context is done. */
  datatype Result = Loaded | LoadError(text: string) | CallerError

  function Returned(v: View): Result {
    if v.loadErr.Some? then LoadError(v.loadErr.value) else if v.finished then Loaded else CallerError
  }

  /**
  Buffering and replaying cannot be told from handling every event at once: when the
  loader is known, the view is one fold, with the ids discovered on the way.
  */
  lemma {:induction false} BufferingIsInvisible(a: ResponseAction)
    requires a.Valid() && FirstNamed(a.frame0, a.delivered) >= 0
    ensures
      var d := FirstNamed(a.frame0, a.delivered);
      var loaderID, frameID := a.delivered[d].loaderID, Root(a.frame0, a.delivered[..d]);
      && a.loaderID == loaderID && a.frameID == frameID && a.earlyEvents == []
      && a.view == Fold(loaderID, frameID, a.delivered)
      && (a.view.finished <==> EndedBy(loaderID, frameID, a.delivered))
      && a.view.reqID == Current(loaderID, a.delivered)
  {
    hide Current, Root, NamesLoader;
    IdsMean(a.frame0, a.delivered);
    NamedIsKnown(a.frame0, a.delivered, FirstNamed(a.frame0, a.delivered));
    FinishedMeans(a.loaderID, a.frameID, a.delivered);
    RequestMeans(a.loaderID, a.frameID, a.delivered);
  }

  lemma {:induction false} NamedIsKnown(frame0: string, events: seq<Event>, d: nat)
    requires d < |events| && NamesLoader(frame0, events, d)
    ensures (events[d].RequestWillBeSent? || events[d].Lifecycle?) && events[d].loaderID != ""
  {
  }

  /**
  What the action returns once its listener is cancelled: before any loader is named, success for a
  fragment navigation and the caller's error otherwise; after that the last failure of a current
  request if there was one, then success if the page was loaded after its init, else the caller's error.
  */
  lemma {:induction false} ResultMeans(a: ResponseAction)
    requires a.Valid() && a.cancelled
    ensures
      var d := FirstNamed(a.frame0, a.delivered);
      if d < 0 then
        Returned(a.view) == (if WithinDocument(a.delivered) then Loaded else CallerError)
      else
        var loaderID, frameID := a.delivered[d].loaderID, Root(a.frame0, a.delivered[..d]);
        var i := LastFailure(loaderID, a.delivered);
        Returned(a.view) ==
          if i >= 0 then LoadError(a.delivered[i].text)
          else if exists j :: 0 <= j < |a.delivered| && LoadsAt(frameID, a.delivered, j) then Loaded
          else CallerError
    ensures Returned(a.view) == CallerError ==> a.outside
  {
    hide Current, Root, NamesLoader, LastFailure, InitIn, FailedAt, Ids, Fold;
    IdsMean(a.frame0, a.delivered);
    var d := FirstNamed(a.frame0, a.delivered);
    if d >= 0 {
      NamedIsKnown(a.frame0, a.delivered, d);
      FinishedMeans(a.loaderID, a.frameID, a.delivered);
      LoadErrMeans(a.loaderID, a.frameID, a.delivered);
    }
  }
}

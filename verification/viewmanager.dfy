/** The state machine both managers share: the three pieces of state and the
    guarded transition behind `showView`. The two managers differ only in how
    they are constructed and in how they tear the outgoing view down. */
module ViewManager {
  import opened Js
  import opened Dom
  import opened Views
  import opened Trace
  import opened ShowOptions

  /** `anchor` and `context` locate the container; `currentView` is the view
      last made current, if any. */
  datatype Manager = Manager(anchor: Value, context: Value, currentView: Option<ViewRef>)

  /** The anchor both managers fall back to when given a falsy one. */
  const DefaultAnchor: Value := Str("#content")

  /** The pair `$(anchor, context)` resolves. */
  function TargetOf(m: Manager): Target {
    Target(m.anchor, m.context)
  }

  /** A method the manager calls without checking that it exists. */
  datatype MethodName = CloseMethod | RemoveMethod | RenderMethod

  /** How a call ends: normally, or with the `TypeError` that calling a
      missing method raises (nothing catches it, so the call stops there). */
  datatype Outcome = Returned | Threw(view: ViewRef, missing: MethodName)

  /** What the teardown of the outgoing view did. */
  datatype TeardownResult = NoTeardown | TornDown(call: Event) | Missing(view: ViewRef, missingMethod: MethodName)

  /** The manager and the document after one call, the calls it made in
      order, and how it ended. */
  datatype Step = Step(mgr: Manager, doc: Document, trace: seq<Event>, outcome: Outcome)

  /** The current view, when there is one, is a live view. */
  predicate Tracks(m: Manager, heap: Heap) {
    m.currentView.Some? ==> m.currentView.value in heap
  }

  /** The guard of the swap path: a different view by identity, or a forced redraw. */
  predicate Swaps(m: Manager, view: ViewRef, s: Resolved) {
    m.currentView != Some(view) || s.force
  }

  function TeardownCalls(td: TeardownResult): seq<Event> {
    if td.TornDown? then [td.call] else []
  }

  /** The no-show path: only `onNoShow` runs between `first` and `last`. */
  function NoShow(m: Manager, doc: Document): (r: Step)
    ensures r.mgr == m && r.doc == doc && r.outcome == Returned
    ensures Count(r.trace, First) == 1 && Count(r.trace, OnNoShow) == 1 && Count(r.trace, Last) == 1
    ensures r.trace[0] == First && r.trace[|r.trace| - 1] == Last
    ensures Project(r.trace, ViewCall) == [] && Project(r.trace, ContainerCall) == []
  {
    NoShowCounts();
    Step(m, doc, NoShowTrace, Returned)
  }

  lemma NoShowCounts()
    ensures Count(NoShowTrace, First) == 1 && Count(NoShowTrace, OnNoShow) == 1 && Count(NoShowTrace, Last) == 1
    ensures Project(NoShowTrace, ViewCall) == [] && Project(NoShowTrace, ContainerCall) == []
  {
    assert NoShowTrace == [First] + ([OnNoShow] + [Last]);
    forall e | e == First || e == OnNoShow || e == Last
      ensures Count(NoShowTrace, e) == 1
    {
      CountCons(First, [OnNoShow] + [Last], e);
      CountCons(OnNoShow, [Last], e);
      CountSingleton(Last, e);
    }
    forall c | c == ViewCall || c == ContainerCall
      ensures Project(NoShowTrace, c) == []
    {
      ProjectCons(First, [OnNoShow] + [Last], c);
      ProjectCons(OnNoShow, [Last], c);
      ProjectSingleton(Last, c);
    }
  }

  /** The swap path, after the outgoing view's teardown `td`: make `view`
      current, render it between the render hooks unless rendering is off,
      then replace the container's contents with its element between the show
      hooks. A missing method stops the call where it is raised. */
  function Swap(m: Manager, heap: Heap, doc: Document, view: ViewRef, s: Resolved, td: TeardownResult): (r: Step)
    requires view in heap
    requires td.TornDown? ==> IsTeardown(td.call)
    ensures Bracketed(r.trace, r.outcome.Returned?) && Count(r.trace, OnNoShow) == 0
    ensures r.mgr.anchor == m.anchor && r.mgr.context == m.context
    ensures r.outcome.Returned? ==> r.mgr == m.(currentView := Some(view))
  {
    if td.Missing? then TeardownRaised(m, doc, td.view, td.missingMethod)
    else if s.doRender && !heap[view].hasRender then RenderRaised(m, doc, view, TeardownCalls(td))
    else Completed(m, doc, view, heap[view].el, TeardownCalls(td), s.doRender)
  }

  /** The views see the teardown, then the render when the call completes one. */
  lemma SwapViewCalls(m: Manager, heap: Heap, doc: Document, view: ViewRef, s: Resolved, td: TeardownResult)
    requires view in heap
    requires td.TornDown? ==> IsTeardown(td.call)
    ensures var r := Swap(m, heap, doc, view, s, td);
            Project(r.trace, ViewCall)
            == TeardownCalls(td) + (if r.outcome.Returned? && s.doRender then [Render(view)] else [])
  {
    if !td.Missing? {
      if s.doRender && !heap[view].hasRender {
        CountPrefix(TeardownCalls(td));
      } else {
        SwapTraceProjections(TeardownCalls(td), view, heap[view].el, s.doRender);
      }
    }
  }

  /** The only view methods the swap path calls are the teardown and, when
      rendering is on, the render of the incoming view. */
  lemma SwapViewCallsOnly(m: Manager, heap: Heap, doc: Document, view: ViewRef, s: Resolved, td: TeardownResult, e: Event)
    requires view in heap
    requires td.TornDown? ==> IsTeardown(td.call)
    requires ChannelOf(e) == ViewCall
    requires e !in TeardownCalls(td) && (s.doRender ==> e != Render(view))
    ensures e !in Swap(m, heap, doc, view, s, td).trace
  {
    var r := Swap(m, heap, doc, view, s, td);
    SwapViewCalls(m, heap, doc, view, s, td);
    AbsentFromProjection(r.trace, ViewCall, e);
  }

  /** A completed swap runs the documented order and leaves the view's
      element alone in the container. */
  lemma SwapCompleted(m: Manager, heap: Heap, doc: Document, view: ViewRef, s: Resolved, td: TeardownResult)
    requires view in heap
    requires td.TornDown? ==> IsTeardown(td.call)
    requires Swap(m, heap, doc, view, s, td).outcome.Returned?
    ensures var r := Swap(m, heap, doc, view, s, td);
            && r.doc == Replace(doc, TargetOf(m), heap[view].el)
            && r.trace == SwapTrace(TeardownCalls(td), view, heap[view].el, s.doRender)
            && Project(r.trace, HookCall) == SwapHooks
            && Project(r.trace, ViewCall) == TeardownCalls(td) + (if s.doRender then [Render(view)] else [])
            && Project(r.trace, ContainerCall) == [Attach(heap[view].el)]
  {
    SwapTraceProjections(TeardownCalls(td), view, heap[view].el, s.doRender);
  }

  /** When the swap path raises: a missing teardown method stops it right
      after `first` with nothing changed; a missing `render` stops it after
      the render hook with the view already current and nothing shown. */
  lemma SwapRaises(m: Manager, heap: Heap, doc: Document, view: ViewRef, s: Resolved, td: TeardownResult)
    requires view in heap
    requires td.TornDown? ==> IsTeardown(td.call)
    ensures Swap(m, heap, doc, view, s, td).outcome.Returned? <==> !td.Missing? && (s.doRender ==> heap[view].hasRender)
    ensures td.Missing? ==> Swap(m, heap, doc, view, s, td) == Step(m, doc, [First], Threw(td.view, td.missingMethod))
    ensures var r := Swap(m, heap, doc, view, s, td);
            !td.Missing? && s.doRender && !heap[view].hasRender ==>
              && r.mgr == m.(currentView := Some(view))
              && r.doc == doc
              && r.outcome == Threw(view, RenderMethod)
              && r.trace == [First] + (TeardownCalls(td) + [BeforeRender])
  {}

  /** The teardown of the outgoing view raised right after `first`. */
  function TeardownRaised(m: Manager, doc: Document, outgoing: ViewRef, missing: MethodName): (r: Step)
    ensures r.mgr == m && r.doc == doc && r.outcome == Threw(outgoing, missing)
    ensures r.trace == [First]
    ensures Bracketed(r.trace, false) && Count(r.trace, OnNoShow) == 0
    ensures Project(r.trace, ViewCall) == []
  {
    CountSingleton(First, First);
    CountSingleton(First, Last);
    CountSingleton(First, OnNoShow);
    ProjectSingleton(First, ViewCall);
    Step(m, doc, [First], Threw(outgoing, missing))
  }

  /** `render` was missing: the view is current, the render hook ran, and
      nothing was shown. */
  function RenderRaised(m: Manager, doc: Document, view: ViewRef, teardown: seq<Event>): (r: Step)
    requires |teardown| <= 1 && (teardown != [] ==> IsTeardown(teardown[0]))
    ensures r.mgr == m.(currentView := Some(view)) && r.doc == doc && r.outcome == Threw(view, RenderMethod)
    ensures r.trace == [First] + (teardown + [BeforeRender])
    ensures r.trace[|r.trace| - 1] == BeforeRender
    ensures Bracketed(r.trace, false) && Count(r.trace, OnNoShow) == 0
  {
    CountPrefix(teardown);
    Step(m.(currentView := Some(view)), doc, [First] + (teardown + [BeforeRender]), Threw(view, RenderMethod))
  }

  /** A completed swap: the calls in the documented order and the view's
      element alone in the container. */
  function Completed(m: Manager, doc: Document, view: ViewRef, el: Node, teardown: seq<Event>, doRender: bool): (r: Step)
    requires forall i :: 0 <= i < |teardown| ==> IsTeardown(teardown[i])
    ensures r.mgr == m.(currentView := Some(view)) && r.doc == Replace(doc, TargetOf(m), el) && r.outcome == Returned
    ensures r.trace == SwapTrace(teardown, view, el, doRender)
    ensures Bracketed(r.trace, true) && Count(r.trace, OnNoShow) == 0
  {
    SwapTraceProjections(teardown, view, el, doRender);
    Step(m.(currentView := Some(view)), Replace(doc, TargetOf(m), el), SwapTrace(teardown, view, el, doRender), Returned)
  }

  /** The calls made before a render that raises. */
  lemma CountPrefix(teardown: seq<Event>)
    requires |teardown| <= 1 && (teardown != [] ==> IsTeardown(teardown[0]))
    ensures Count([First] + (teardown + [BeforeRender]), First) == 1
    ensures Count([First] + (teardown + [BeforeRender]), Last) == 0
    ensures Count([First] + (teardown + [BeforeRender]), OnNoShow) == 0
    ensures Project([First] + (teardown + [BeforeRender]), ViewCall) == teardown
  {
    TeardownProjections(teardown);
    ProjectCons(First, teardown + [BeforeRender], ViewCall);
    ProjectAppend(teardown, [BeforeRender], ViewCall);
    ProjectSingleton(BeforeRender, ViewCall);
    PrefixCount(teardown, First);
    PrefixCount(teardown, Last);
    PrefixCount(teardown, OnNoShow);
  }

  /** A hook other than `beforeRender` occurs in the calls before a render
      that raises only if it is `first`, and then once. */
  lemma PrefixCount(teardown: seq<Event>, e: Event)
    requires forall i :: 0 <= i < |teardown| ==> IsTeardown(teardown[i])
    requires ChannelOf(e) == HookCall && e != BeforeRender
    ensures Count([First] + (teardown + [BeforeRender]), e) == if e == First then 1 else 0
  {
    TeardownProjections(teardown);
    ProjectCount(teardown, HookCall, e);
    CountCons(First, teardown + [BeforeRender], e);
    CountAppend(teardown, [BeforeRender], e);
    CountSingleton(BeforeRender, e);
  }
}

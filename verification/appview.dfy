/** `AppView`, the older manager: anchor and context fixed at construction
    (a falsy context becomes `null`), no accessors, and a `showView` whose
    teardown always calls `close`. */
module AppView {
  import opened Js
  import opened Dom
  import opened Views
  import opened Trace
  import opened ShowOptions
  import opened ViewManager

  /** `new AppView(anchor, context)`; an omitted argument is `Undefined`. */
  function New(anchor: Value, context: Value): (m: Manager)
    ensures Falsy(anchor) ==> m.anchor == DefaultAnchor
    ensures !Falsy(anchor) ==> m.anchor == anchor
    ensures Falsy(context) ==> m.context == Null
    ensures !Falsy(context) ==> m.context == context
    ensures m.currentView == None
  {
    Manager(Or(anchor, DefaultAnchor), Or(context, Null), None)
  }

  /** `this.currentView && this.currentView.close()`: `close` is called
      without a check and raises when it is missing. */
  function Teardown(heap: Heap, current: Option<ViewRef>): (r: TeardownResult)
    requires current.Some? ==> current.value in heap
    ensures current.None? ==> r == NoTeardown
    ensures current.Some? && heap[current.value].hasClose ==> r == TornDown(Close(current.value))
    ensures current.Some? && !heap[current.value].hasClose ==> r == Missing(current.value, CloseMethod)
  {
    match current
    case None => NoTeardown
    case Some(outgoing) =>
      if heap[outgoing].hasClose then TornDown(Close(outgoing)) else Missing(outgoing, CloseMethod)
  }

  /** `showView(view, options)`. */
  function ShowView(m: Manager, heap: Heap, doc: Document, view: ViewRef, options: Option<Options>): (r: Step)
    requires view in heap && Tracks(m, heap)
    // `first` runs first and exactly once; `last` runs last, once, whenever the call returns.
    ensures |r.trace| > 0 && r.trace[0] == First && Count(r.trace, First) == 1
    ensures r.outcome.Returned? <==> r.trace[|r.trace| - 1] == Last
    ensures Count(r.trace, Last) == if r.outcome.Returned? then 1 else 0
    // The branch: the no-show path exactly when the same view is shown unforced.
    ensures Count(r.trace, OnNoShow) == if Swaps(m, view, Merge(options)) then 0 else 1
    ensures !Swaps(m, view, Merge(options)) ==> r == Step(m, doc, NoShowTrace, Returned)
    ensures r.outcome.Returned? ==> r.mgr == m.(currentView := Some(view))
    ensures r.mgr.anchor == m.anchor && r.mgr.context == m.context
    // The teardown never calls `remove`.
    ensures r.outcome.Threw? ==> r.outcome.missing != RemoveMethod
  {
    var s := Merge(options);
    if Swaps(m, view, s) then
      Swap(m, heap, doc, view, s, Teardown(heap, m.currentView))
    else
      NoShow(m, doc)
  }

  /** A completed swap: `close` on the outgoing view (never `remove`), then
      the render between the render hooks and the attachment between the show
      hooks, and the view's element alone in the container. */
  lemma CompletedSwap(m: Manager, heap: Heap, doc: Document, view: ViewRef, options: Option<Options>)
    requires view in heap && Tracks(m, heap)
    requires Swaps(m, view, Merge(options)) && ShowView(m, heap, doc, view, options).outcome.Returned?
    ensures var r := ShowView(m, heap, doc, view, options);
            && Project(r.trace, HookCall) == SwapHooks
            && Project(r.trace, ViewCall)
               == (if m.currentView.Some? then [Close(m.currentView.value)] else [])
                  + (if Merge(options).doRender then [Render(view)] else [])
            && Project(r.trace, ContainerCall) == [Attach(heap[view].el)]
            && r.trace == SwapTrace(if m.currentView.Some? then [Close(m.currentView.value)] else [],
                                    view, heap[view].el, Merge(options).doRender)
            && r.doc == Replace(doc, TargetOf(m), heap[view].el)
  {
    SwapCompleted(m, heap, doc, view, Merge(options), Teardown(heap, m.currentView));
  }

  /** The call raises only on a swap, when a method it calls is missing: the
      outgoing view has no `close`, and then nothing has changed, or rendering
      is on and the view has no `render`, and then the view is current but not
      shown. */
  lemma RaisesOnlyOnMissingMethod(m: Manager, heap: Heap, doc: Document, view: ViewRef, options: Option<Options>)
    requires view in heap && Tracks(m, heap)
    ensures var r := ShowView(m, heap, doc, view, options);
            r.outcome.Threw? <==>
              && Swaps(m, view, Merge(options))
              && ((m.currentView.Some? && !heap[m.currentView.value].hasClose)
                  || (Merge(options).doRender && !heap[view].hasRender))
    ensures var r := ShowView(m, heap, doc, view, options);
            r.outcome.Threw? && r.outcome.missing == CloseMethod ==>
              r.mgr == m && r.doc == doc && r.trace == [First] && m.currentView == Some(r.outcome.view)
    ensures var r := ShowView(m, heap, doc, view, options);
            r.outcome.Threw? && r.outcome.missing == RenderMethod ==>
              r.mgr.currentView == Some(view) && r.doc == doc && r.trace[|r.trace| - 1] == BeforeRender
  {
    var s := Merge(options);
    if Swaps(m, view, s) {
      SwapRaises(m, heap, doc, view, s, Teardown(heap, m.currentView));
    }
  }


  /** Showing the view a returned call just showed, unforced, changes nothing
      and runs only `onNoShow` between `first` and `last`. */
  lemma RepeatedShowIsNoShow(m: Manager, heap: Heap, doc: Document, view: ViewRef,
                             options: Option<Options>, options': Option<Options>)
    requires view in heap && Tracks(m, heap)
    requires ShowView(m, heap, doc, view, options).outcome.Returned?
    requires !Merge(options').force
    ensures var r := ShowView(m, heap, doc, view, options);
            ShowView(r.mgr, heap, r.doc, view, options') == Step(r.mgr, r.doc, NoShowTrace, Returned)
  {}

  /** Unlike the current manager, this one never calls `remove`, whatever
      methods the views have. */
  lemma NeverCallsRemove(m: Manager, heap: Heap, doc: Document, view: ViewRef, options: Option<Options>, v: ViewRef)
    requires view in heap && Tracks(m, heap)
    ensures Remove(v) !in ShowView(m, heap, doc, view, options).trace
  {
    var r := ShowView(m, heap, doc, view, options);
    var s := Merge(options);
    if Swaps(m, view, s) {
      SwapViewCallsOnly(m, heap, doc, view, s, Teardown(heap, m.currentView), Remove(v));
    } else {
      ShowCurrentIsNoShow(m, heap, doc, view, options);
      AbsentFromProjection(r.trace, ViewCall, Remove(v));
    }
  }

  /** Showing the current view without `force` takes the no-show path. */
  lemma ShowCurrentIsNoShow(m: Manager, heap: Heap, doc: Document, view: ViewRef, options: Option<Options>)
    requires view in heap && Tracks(m, heap)
    requires !Swaps(m, view, Merge(options))
    ensures ShowView(m, heap, doc, view, options) == NoShow(m, doc)
  {}
}

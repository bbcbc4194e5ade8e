/** `BackboneAppview`, the current manager: an anchor defaulting to
    `#content`, a context kept as given, accessors for both, and `showView`
    whose teardown prefers `close` and falls back to `remove`. */
module BackboneAppview {
  import opened Js
  import opened Dom
  import opened Views
  import opened Trace
  import opened ShowOptions
  import opened ViewManager

  /** `new BackboneAppview(anchor, context)`; an omitted argument is `Undefined`. */
  function New(anchor: Value, context: Value): (m: Manager)
    ensures Falsy(anchor) ==> m.anchor == DefaultAnchor
    ensures !Falsy(anchor) ==> m.anchor == anchor
    ensures m.context == context
    ensures m.currentView == None
  {
    Manager(Or(anchor, DefaultAnchor), context, None)
  }

  function GetAnchor(m: Manager): Value {
    m.anchor
  }

  function SetAnchor(m: Manager, value: Value): (r: Manager)
    ensures GetAnchor(r) == value
    ensures GetContext(r) == GetContext(m) && r.currentView == m.currentView
  {
    m.(anchor := value)
  }

  function GetContext(m: Manager): Value {
    m.context
  }

  function SetContext(m: Manager, value: Value): (r: Manager)
    ensures GetContext(r) == value
    ensures GetAnchor(r) == GetAnchor(m) && r.currentView == m.currentView
  {
    m.(context := value)
  }

  /** `$(anchor, context)` for the values the accessors currently return. */
  function GetAnchorElement(m: Manager): (t: Target)
    ensures t.anchor == GetAnchor(m) && t.context == GetContext(m)
  {
    TargetOf(m)
  }

  /** `close()` when the outgoing view has it, otherwise `remove()`, which is
      called without a check and raises when it is missing too. */
  function Teardown(heap: Heap, current: Option<ViewRef>): (r: TeardownResult)
    requires current.Some? ==> current.value in heap
    ensures current.None? ==> r == NoTeardown
    ensures current.Some? && heap[current.value].hasClose ==> r == TornDown(Close(current.value))
    ensures current.Some? && !heap[current.value].hasClose && heap[current.value].hasRemove
            ==> r == TornDown(Remove(current.value))
    ensures current.Some? && !heap[current.value].hasClose && !heap[current.value].hasRemove
            ==> r == Missing(current.value, RemoveMethod)
  {
    match current
    case None => NoTeardown
    case Some(outgoing) =>
      if heap[outgoing].hasClose then TornDown(Close(outgoing))
      else if heap[outgoing].hasRemove then TornDown(Remove(outgoing))
      else Missing(outgoing, RemoveMethod)
  }

  /** The teardown calls a swap away from `current` makes when it completes:
      none on a first show, otherwise exactly one, `close` preferred. */
  function ExpectedTeardown(heap: Heap, current: Option<ViewRef>): seq<Event>
    requires current.Some? ==> current.value in heap
  {
    match current
    case None => []
    case Some(outgoing) => [if heap[outgoing].hasClose then Close(outgoing) else Remove(outgoing)]
  }

  /** `showView(view, options)`. */
  function ShowView(m: Manager, heap: Heap, doc: Document, view: ViewRef, options: Option<Options>): (r: Step)
    requires view in heap && Tracks(m, heap)
    // `first` runs first and exactly once; `last` runs last, once, whenever the call returns.
    ensures |r.trace| > 0 && r.trace[0] == First && Count(r.trace, First) == 1
    ensures r.outcome.Returned? <==> r.trace[|r.trace| - 1] == Last
    ensures Count(r.trace, Last) == if r.outcome.Returned? then 1 else 0
    // The branch: the no-show path exactly when the same view is shown unforced.
    ensures Count(r.trace, OnNoShow) == if Swaps(m, view, Merge(options)) then 0 else 1
    ensures !Swaps(m, view, Merge(options)) ==> r == Step(m, doc, NoShowTrace, Returned)
    // Whichever path ran, a call that returns leaves `view` current and nothing else changed.
    ensures r.outcome.Returned? ==> r.mgr == m.(currentView := Some(view))
    ensures r.mgr.anchor == m.anchor && r.mgr.context == m.context
    // `close` is called only on a view that has it.
    ensures r.outcome.Threw? ==> r.outcome.missing != CloseMethod
  {
    var s := Merge(options);
    if Swaps(m, view, s) then Swap(m, heap, doc, view, s, Teardown(heap, m.currentView))
    else NoShow(m, doc)
  }

  /** A completed swap: the hooks in order, the outgoing view torn down once
      (`close` preferred) before the render, and the view's element alone in
      the anchor element. */
  lemma CompletedSwap(m: Manager, heap: Heap, doc: Document, view: ViewRef, options: Option<Options>)
    requires view in heap && Tracks(m, heap)
    requires Swaps(m, view, Merge(options)) && ShowView(m, heap, doc, view, options).outcome.Returned?
    ensures var r := ShowView(m, heap, doc, view, options);
            && Project(r.trace, HookCall) == SwapHooks
            && Project(r.trace, ViewCall)
               == ExpectedTeardown(heap, m.currentView) + (if Merge(options).doRender then [Render(view)] else [])
            && Project(r.trace, ContainerCall) == [Attach(heap[view].el)]
            && r.trace == SwapTrace(ExpectedTeardown(heap, m.currentView), view, heap[view].el, Merge(options).doRender)
            && r.doc == Replace(doc, GetAnchorElement(m), heap[view].el)
  {
    SwapCompleted(m, heap, doc, view, Merge(options), Teardown(heap, m.currentView));
    assert TeardownCalls(Teardown(heap, m.currentView)) == ExpectedTeardown(heap, m.currentView);
  }

  /** The call raises only on a swap, when a method it calls is missing: the
      outgoing view has neither `close` nor `remove`, and then nothing has
      changed, or rendering is on and the view has no `render`, and then the
      view is current but not shown. */
  lemma RaisesOnlyOnMissingMethod(m: Manager, heap: Heap, doc: Document, view: ViewRef, options: Option<Options>)
    requires view in heap && Tracks(m, heap)
    ensures var r := ShowView(m, heap, doc, view, options);
            r.outcome.Threw? <==>
              && Swaps(m, view, Merge(options))
              && ((m.currentView.Some? && !heap[m.currentView.value].hasClose && !heap[m.currentView.value].hasRemove)
                  || (Merge(options).doRender && !heap[view].hasRender))
    ensures var r := ShowView(m, heap, doc, view, options);
            r.outcome.Threw? && r.outcome.missing == RemoveMethod ==>
              r.mgr == m && r.doc == doc && r.trace == [First] && m.currentView == Some(r.outcome.view)
    ensures var r := ShowView(m, heap, doc, view, options);
            r.outcome.Threw? && r.outcome.missing == RenderMethod ==>
              r.mgr.currentView == Some(view) && r.doc == doc && r.trace[|r.trace| - 1] == BeforeRender
  {
    var s := Merge(options);
    if Swaps(m, view, s) {
      SwapRaises(m, heap, doc, view, s, Teardown(heap, m.currentView));
    }
  }


  /** A manager built without arguments uses `#content` and no context. */
  lemma NewWithoutArguments()
    ensures GetAnchor(New(Undefined, Undefined)) == Str("#content")
    ensures GetContext(New(Undefined, Undefined)) == Undefined
  {}

  /** The first show of a manager tears nothing down, renders the view once
      and makes it current. */
  lemma FirstShowRendersOnce(anchor: Value, context: Value, heap: Heap, doc: Document, view: ViewRef)
    requires view in heap && heap[view].hasRender
    ensures ShowView(New(anchor, context), heap, doc, view, None).outcome == Returned
    ensures ShowView(New(anchor, context), heap, doc, view, None).mgr.currentView == Some(view)
    ensures Project(ShowView(New(anchor, context), heap, doc, view, None).trace, ViewCall) == [Render(view)]
    ensures Count(ShowView(New(anchor, context), heap, doc, view, None).trace, Render(view)) == 1
  {
    var r := ShowView(New(anchor, context), heap, doc, view, None);
    RaisesOnlyOnMissingMethod(New(anchor, context), heap, doc, view, None);
    CompletedSwap(New(anchor, context), heap, doc, view, None);
    ProjectCount(r.trace, ViewCall, Render(view));
    CountSingleton(Render(view), Render(view));
  }

  /** Showing the view that a returned call just showed, unforced, is a
      no-show: only `onNoShow` runs, nothing changes, and across both calls
      the view is rendered no more often than by the first. The view may have
      gained or lost methods in between. */
  lemma RepeatedShowIsNoShow(m: Manager, heap: Heap, heap': Heap, doc: Document, view: ViewRef,
                             options: Option<Options>, options': Option<Options>)
    requires view in heap && Tracks(m, heap) && view in heap'
    requires ShowView(m, heap, doc, view, options).outcome.Returned?
    requires !Merge(options').force
    ensures var r := ShowView(m, heap, doc, view, options);
            var r' := ShowView(r.mgr, heap', r.doc, view, options');
            && r' == Step(r.mgr, r.doc, NoShowTrace, Returned)
            && Count(r.trace + r'.trace, Render(view)) == Count(r.trace, Render(view))
  {
    var r := ShowView(m, heap, doc, view, options);
    var r' := ShowView(r.mgr, heap', r.doc, view, options');
    CountAppend(r.trace, r'.trace, Render(view));
    CountCons(First, [OnNoShow, Last], Render(view));
    CountCons(OnNoShow, [Last], Render(view));
    CountSingleton(Last, Render(view));
    assert [First] + [OnNoShow, Last] == NoShowTrace;
    assert [OnNoShow] + [Last] == [OnNoShow, Last];
  }

  /** A forced show of the current view tears it down and renders it again:
      across the two calls the view is rendered once more. */
  lemma ForcedShowRendersAgain(m: Manager, heap: Heap, doc: Document, view: ViewRef,
                               options: Option<Options>, options': Option<Options>)
    requires view in heap && Tracks(m, heap)
    requires heap[view].hasRender && (heap[view].hasClose || heap[view].hasRemove)
    requires ShowView(m, heap, doc, view, options).outcome.Returned?
    requires Merge(options').force && Merge(options').doRender
    ensures var r := ShowView(m, heap, doc, view, options);
            var r' := ShowView(r.mgr, heap, r.doc, view, options');
            && r'.outcome.Returned?
            && r'.mgr.currentView == Some(view)
            && Project(r'.trace, ViewCall)
               == [if heap[view].hasClose then Close(view) else Remove(view), Render(view)]
            && Count(r.trace + r'.trace, Render(view)) == Count(r.trace, Render(view)) + 1
  {
    var r := ShowView(m, heap, doc, view, options);
    assert r.mgr.currentView == Some(view);
    var r' := ShowView(r.mgr, heap, r.doc, view, options');
    ShowCurrentForced(r.mgr, heap, r.doc, view, options');
    CountAppend(r.trace, r'.trace, Render(view));
  }

  /** One forced call of the scenario above, from a manager whose current
      view is `view`. */
  lemma ShowCurrentForced(m: Manager, heap: Heap, doc: Document, view: ViewRef, options: Option<Options>)
    requires view in heap && m.currentView == Some(view)
    requires heap[view].hasRender && (heap[view].hasClose || heap[view].hasRemove)
    requires Merge(options).force && Merge(options).doRender
    ensures var r := ShowView(m, heap, doc, view, options);
            && r.outcome.Returned?
            && r.mgr.currentView == Some(view)
            && Project(r.trace, ViewCall) == [if heap[view].hasClose then Close(view) else Remove(view), Render(view)]
            && Count(r.trace, Render(view)) == 1
  {
    var r := ShowView(m, heap, doc, view, options);
    RaisesOnlyOnMissingMethod(m, heap, doc, view, options);
    CompletedSwap(m, heap, doc, view, options);
    var down := if heap[view].hasClose then Close(view) else Remove(view);
    assert ExpectedTeardown(heap, m.currentView) == [down];
    assert Project(r.trace, ViewCall) == [down] + [Render(view)];
    ProjectCount(r.trace, ViewCall, Render(view));
    CountCons(down, [Render(view)], Render(view));
    CountSingleton(Render(view), Render(view));
  }

  /** Showing a different view tears the previous one down exactly once,
      strictly before the new view is rendered, and makes the new one current. */
  lemma SwapTearsDownPrevious(m: Manager, heap: Heap, heap': Heap, doc: Document, previous: ViewRef, view: ViewRef,
                              options: Option<Options>)
    requires previous in heap && Tracks(m, heap) && previous in heap' && view in heap'
    requires ShowView(m, heap, doc, previous, options).outcome.Returned?
    requires view != previous
    requires heap'[previous].hasClose || heap'[previous].hasRemove
    requires heap'[view].hasRender
    ensures var r := ShowView(m, heap, doc, previous, options);
            var r' := ShowView(r.mgr, heap', r.doc, view, None);
            && r'.outcome.Returned?
            && r'.mgr.currentView == Some(view)
            && Project(r'.trace, ViewCall)
               == [if heap'[previous].hasClose then Close(previous) else Remove(previous), Render(view)]
            && Count(r'.trace, Close(previous)) + Count(r'.trace, Remove(previous)) == 1
  {
    var r := ShowView(m, heap, doc, previous, options);
    assert r.mgr.currentView == Some(previous);
    ShowOtherView(r.mgr, heap', r.doc, previous, view);
  }

  /** One call of the scenario above, from a manager whose current view is
      `previous`. */
  lemma ShowOtherView(m: Manager, heap: Heap, doc: Document, previous: ViewRef, view: ViewRef)
    requires Tracks(m, heap) && view in heap && m.currentView == Some(previous)
    requires view != previous
    requires heap[previous].hasClose || heap[previous].hasRemove
    requires heap[view].hasRender
    ensures var r := ShowView(m, heap, doc, view, None);
            && r.outcome.Returned?
            && r.mgr.currentView == Some(view)
            && Project(r.trace, ViewCall)
               == [if heap[previous].hasClose then Close(previous) else Remove(previous), Render(view)]
            && Count(r.trace, Close(previous)) + Count(r.trace, Remove(previous)) == 1
  {
    var r := ShowView(m, heap, doc, view, None);
    assert Swaps(m, view, Merge(None));
    RaisesOnlyOnMissingMethod(m, heap, doc, view, None);
    CompletedSwap(m, heap, doc, view, None);
    var down := if heap[previous].hasClose then Close(previous) else Remove(previous);
    assert ExpectedTeardown(heap, m.currentView) == [down];
    assert Project(r.trace, ViewCall) == [down] + [Render(view)];
    TornDownOnce(r.trace, previous, down, Render(view));
  }

  /** A trace whose view calls are one teardown of `previous` and then a call
      on another view tears `previous` down exactly once. */
  lemma TornDownOnce(t: seq<Event>, previous: ViewRef, down: Event, next: Event)
    requires down == Close(previous) || down == Remove(previous)
    requires next != Close(previous) && next != Remove(previous)
    requires Project(t, ViewCall) == [down] + [next]
    ensures Count(t, Close(previous)) + Count(t, Remove(previous)) == 1
  {
    ProjectCount(t, ViewCall, Close(previous));
    ProjectCount(t, ViewCall, Remove(previous));
    CountCons(down, [next], Close(previous));
    CountCons(down, [next], Remove(previous));
    CountSingleton(next, Close(previous));
    CountSingleton(next, Remove(previous));
  }

  /** After a completed swap the anchor element holds exactly the view's
      element, whatever it held before. */
  lemma ShowsViewInAnchorElement(m: Manager, heap: Heap, doc: Document, view: ViewRef, options: Option<Options>)
    requires view in heap && Tracks(m, heap)
    requires GetAnchorElement(m) in doc
    requires Swaps(m, view, Merge(options))
    requires ShowView(m, heap, doc, view, options).outcome.Returned?
    ensures var r := ShowView(m, heap, doc, view, options);
            r.doc[GetAnchorElement(r.mgr)] == [heap[view].el]
  {}

  /** With rendering turned off no view is rendered, whichever path runs and
      however the call ends. */
  lemma NoRenderWhenDisabled(m: Manager, heap: Heap, doc: Document, view: ViewRef, options: Option<Options>, v: ViewRef)
    requires view in heap && Tracks(m, heap)
    requires !Merge(options).doRender
    ensures Render(v) !in ShowView(m, heap, doc, view, options).trace
  {
    var r := ShowView(m, heap, doc, view, options);
    var s := Merge(options);
    if Swaps(m, view, s) {
      SwapViewCallsOnly(m, heap, doc, view, s, Teardown(heap, m.currentView), Render(v));
    } else {
      ShowCurrentIsNoShow(m, heap, doc, view, options);
      AbsentFromProjection(r.trace, ViewCall, Render(v));
    }
  }

  /** Showing the current view without `force` takes the no-show path. */
  lemma ShowCurrentIsNoShow(m: Manager, heap: Heap, doc: Document, view: ViewRef, options: Option<Options>)
    requires view in heap && Tracks(m, heap)
    requires !Swaps(m, view, Merge(options))
    ensures ShowView(m, heap, doc, view, options) == NoShow(m, doc)
  {}

  /** A render that raises leaves the view current although it was never
      shown, so repeating the call without `force` shows nothing. */
  lemma FailedRenderIsNotRetried(m: Manager, heap: Heap, doc: Document, view: ViewRef, options: Option<Options>)
    requires view in heap && Tracks(m, heap)
    requires Swaps(m, view, Merge(options)) && Merge(options).doRender && !heap[view].hasRender
    requires m.currentView.Some? ==> heap[m.currentView.value].hasClose || heap[m.currentView.value].hasRemove
    ensures var r := ShowView(m, heap, doc, view, options);
            && r.outcome == Threw(view, RenderMethod)
            && r.doc == doc
            && ShowView(r.mgr, heap, r.doc, view, None) == Step(r.mgr, doc, NoShowTrace, Returned)
  {}
}

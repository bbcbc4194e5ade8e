/** How the older `AppView` and the current `BackboneAppview` relate: they
    construct the same manager except for a falsy context, and their
    `showView` differs only in the teardown of a view that lacks `close`. */
module Variants {
  import opened Js
  import opened Dom
  import opened Views
  import opened Trace
  import opened ShowOptions
  import opened ViewManager
  import BackboneAppview
  import AppView

  /** `AppView` normalises the context to `null` before storing it, where
      `BackboneAppview` stores it as given; the anchor default is the same. */
  lemma ConstructorsDifferOnlyInContext(anchor: Value, context: Value)
    ensures AppView.New(anchor, context) == BackboneAppview.New(anchor, Or(context, Null))
    ensures !Falsy(context) ==> AppView.New(anchor, context) == BackboneAppview.New(anchor, context)
    ensures context == Undefined ==>
              AppView.New(anchor, context).context == Null
              && BackboneAppview.New(anchor, context).context == Undefined
  {}

  /** When there is no outgoing view, or it has `close`, both managers make
      the same calls and end in the same state. */
  lemma AgreeWhenOutgoingCloses(m: Manager, heap: Heap, doc: Document, view: ViewRef, options: Option<Options>)
    requires view in heap && Tracks(m, heap)
    requires m.currentView.Some? ==> heap[m.currentView.value].hasClose
    ensures AppView.ShowView(m, heap, doc, view, options) == BackboneAppview.ShowView(m, heap, doc, view, options)
  {}

  /** On a swap (a different view, or `force`) away from a view with `remove`
      but no `close`: the current manager removes it and carries on; the older
      one raises before anything else happens. */
  lemma DivergeWhenOutgoingOnlyRemoves(m: Manager, heap: Heap, doc: Document, view: ViewRef, options: Option<Options>)
    requires view in heap && Tracks(m, heap)
    requires m.currentView.Some? && Swaps(m, view, Merge(options))
    requires !heap[m.currentView.value].hasClose && heap[m.currentView.value].hasRemove
    requires Merge(options).doRender ==> heap[view].hasRender
    ensures var b := BackboneAppview.ShowView(m, heap, doc, view, options);
            && b.outcome == Returned
            && Project(b.trace, ViewCall)
               == [Remove(m.currentView.value)] + (if Merge(options).doRender then [Render(view)] else [])
            && b.mgr.currentView == Some(view)
    ensures var a := AppView.ShowView(m, heap, doc, view, options);
            && a.outcome == Threw(m.currentView.value, CloseMethod)
            && a.trace == [First]
            && a.mgr == m && a.doc == doc
  {
    BackboneAppview.RaisesOnlyOnMissingMethod(m, heap, doc, view, options);
    BackboneAppview.CompletedSwap(m, heap, doc, view, options);
    AppView.RaisesOnlyOnMissingMethod(m, heap, doc, view, options);
  }

  /** The two managers produce the same step exactly when no teardown is
      needed or the outgoing view has `close`. */
  lemma AgreeExactlyWhenCloseSuffices(m: Manager, heap: Heap, doc: Document, view: ViewRef, options: Option<Options>)
    requires view in heap && Tracks(m, heap)
    ensures AppView.ShowView(m, heap, doc, view, options) == BackboneAppview.ShowView(m, heap, doc, view, options)
            <==> !Swaps(m, view, Merge(options)) || m.currentView.None? || heap[m.currentView.value].hasClose
  {
    BackboneAppview.RaisesOnlyOnMissingMethod(m, heap, doc, view, options);
    AppView.RaisesOnlyOnMissingMethod(m, heap, doc, view, options);
  }
}

# backbone-appview in Dafny

A model of the view-swap state machine of backbone-appview, a single-active-view
manager. A manager holds an `anchor` (a container locator), an optional
`context` that narrows where the anchor resolves, and the `currentView`.
`showView(view, options)` either swaps the current view for `view` (tear the old
one down, make `view` current, render it, put its element into the container)
or, when `view` is already current and no redraw is forced, only runs the
`onNoShow` hook. The hooks `first` and `last` bracket every call.

Two managers are modelled: the current `BackboneAppview`
(`js/backbone-appview.js`) and the older `AppView` (`appview.js`). They share
one state machine; they differ in construction (the older one turns a falsy
context into `null`), in teardown (the current one prefers `close` and falls
back to `remove`; the older one always calls `close`), and in the accessors,
which only the current one has.

The model is functional. `showView` is a pure function from a manager, the live
views, the document and the arguments to a `Step`: the new manager, the new
document, the ordered trace of calls it made into hooks, views and the
container, and whether it returned or raised.

Files and modules:

- `js.dfy` (`Js`): JavaScript values an anchor or context can hold, falsiness, `||`.
- `dom.dfy` (`Dom`): containers found by `$(anchor, context)` and the
  `empty().append(el)` replacement.
- `views.dfy` (`Views`): view identities and the methods a view has.
- `options.dfy` (`ShowOptions`): the options object, the defaults, the merge.
- `trace.dfy` (`Trace`): the call events, per-channel projections of a trace
  (what a spy on the hooks, on a view, or on the container records), and the
  documented swap order.
- `viewmanager.dfy` (`ViewManager`): the shared state, the guard and the swap
  path.
- `backbone_appview.dfy` (`BackboneAppview`): the current manager.
- `appview.dfy` (`AppView`): the older manager.
- `variants.dfy` (`Variants`): how the two managers relate.

Modelling choices:

- A view is a reference (`ViewRef`) into a map of live views, so "the same
  view" is identity, as the source's `!=` on objects is. The map is a
  parameter of each call, because a caller can add `close` to a view between
  two calls and the manager looks it up only when it tears the view down.
- Calling a method a view lacks raises a `TypeError` in the source, and
  nothing catches it. The model returns `Threw(view, method)` with the trace
  and the state as far as the call had got. A render that raises therefore
  leaves the view current, because `currentView` is reassigned before
  `render` is called.
- The hooks appear only as their positions in the trace. A hook the caller
  supplies and the default no-op produce the same event.
- A container is looked up by its `(anchor, context)` pair in a `Document`
  map. A pair with no entry matches no element, and jQuery then does nothing.
- `js/backbone-appview.js:100` calls `remove` without checking that it
  exists, so a swap away from a view with neither `close` nor `remove` raises
  right after `first`, before anything else happens.

## Model

| member | source | states |
|---|---|---|
| `Dom.Replace` | js/backbone-appview.js:110 | emptying and appending leaves exactly `[el]` in the resolved container, discarding what was there; other containers are untouched; a locator that matches nothing changes nothing |
| `ShowOptions.Merge` | js/backbone-appview.js:89-91 | a flag the caller supplies wins and an unsupplied flag takes its default (`force` false, `doRender` true), each flag independently |
| `ShowOptions.OmittedIsEmpty` | appview.js:54-55 | omitting the options object is the same as passing `{}`, which yields the defaults |
| `ShowOptions.MergeIsPerField` | appview.js:55 | the merged `doRender` does not depend on what was supplied for `force`, and the merged `force` does not depend on what was supplied for `doRender` |
| `Trace.SwapTraceProjections` | js/backbone-appview.js:93-115 | in the documented swap order the hooks run as first, beforeRender, afterRender, beforeShow, afterShow, last; the views see the teardown and then the render; the container sees one attachment; `first` and `last` occur once each and `onNoShow` never |
| `ViewManager.NoShow` | js/backbone-appview.js:93-115 | the no-show path leaves the manager and the document unchanged, returns, runs `first`, `onNoShow` and `last` once each, and makes no call into a view or the container |
| `ViewManager.Swap` | js/backbone-appview.js:93-115 | on the swap path `first` opens the trace and occurs once, `last` closes it once exactly when the call returns, `onNoShow` never runs, anchor and context are kept, and a call that returns leaves the view current |
| `ViewManager.SwapRaises` | js/backbone-appview.js:96-106 | the swap path returns exactly when the teardown found its method and, with rendering on, the view has `render`; a missing teardown method stops it right after `first` with nothing changed; a missing `render` stops it after `beforeRender` with the view already current and the document unchanged |
| `ViewManager.SwapViewCalls` | js/backbone-appview.js:96-106 | the views see the teardown and then, when the call completes and rendering is on, the render of the incoming view, and nothing else |
| `ViewManager.SwapViewCallsOnly` | js/backbone-appview.js:96-106 | a view method other than the teardown and the incoming view's render (when rendering is on) never occurs in the trace |
| `ViewManager.SwapCompleted` | js/backbone-appview.js:93-115 | a completed swap runs the documented order, the hooks see first, beforeRender, afterRender, beforeShow, afterShow, last, the container sees one attachment, and the container holds exactly the view's element |
| `BackboneAppview.New` | js/backbone-appview.js:56-57 | a falsy anchor becomes `#content`, a truthy one is kept; the context is stored exactly as given; no view is current |
| `BackboneAppview.SetAnchor` | js/backbone-appview.js:59-67 | the getter then returns the value set, and the context and current view are unchanged |
| `BackboneAppview.SetContext` | js/backbone-appview.js:69-77 | the getter then returns the value set, and the anchor and current view are unchanged |
| `BackboneAppview.GetAnchorElement` | js/backbone-appview.js:80-82 | the element is resolved from the anchor and context the getters currently return |
| `BackboneAppview.Teardown` | js/backbone-appview.js:96-101 | no current view means no teardown; a current view with `close` is closed; one without `close` but with `remove` is removed; one with neither makes the unchecked `remove` call raise |
| `BackboneAppview.ShowView` | js/backbone-appview.js:89-116 | `first` runs first and once; `last` runs last and once exactly when the call returns; the no-show path, with only `onNoShow` and nothing changed, is taken exactly when the view is already current and not forced; a call that returns leaves the view current and the anchor and context unchanged; a missing `close` is never what raises |
| `BackboneAppview.CompletedSwap` | js/backbone-appview.js:93-115 | a completed swap runs the hooks in order, tears the old view down once (`close` preferred, else `remove`) before rendering the new one, renders only when `doRender`, attaches once, and leaves exactly the view's element in the anchor element |
| `BackboneAppview.RaisesOnlyOnMissingMethod` | js/backbone-appview.js:95-106 | the call raises exactly on a swap whose old view has neither `close` nor `remove`, then with nothing changed after `first`, or whose view lacks `render` while rendering is on, then with the view current and nothing shown |
| `BackboneAppview.NewWithoutArguments` | js/backbone-appview.js:56-57 | a manager built with no arguments has anchor `#content` and an undefined context |
| `BackboneAppview.FirstShowRendersOnce` | js/backbone-appview.js:95-106 | the first show of a new manager tears nothing down, renders the view exactly once and makes it current |
| `BackboneAppview.RepeatedShowIsNoShow` | js/backbone-appview.js:95-115 | repeating a returned show of the same view without `force` changes nothing, runs only `onNoShow` between `first` and `last`, and renders nothing more |
| `BackboneAppview.ForcedShowRendersAgain` | js/backbone-appview.js:95-106 | a forced show of the current view tears that same view down and renders it once more |
| `BackboneAppview.SwapTearsDownPrevious` | js/backbone-appview.js:96-106 | showing a different view tears the previous one down exactly once, by `close` if it has it and otherwise by `remove`, before the new view's render, and makes the new view current |
| `BackboneAppview.ShowsViewInAnchorElement` | js/backbone-appview.js:110 | after a completed swap the anchor element holds exactly the new view's element |
| `BackboneAppview.NoRenderWhenDisabled` | js/backbone-appview.js:106 | with `doRender` false no view is rendered, on either path and however the call ends |
| `BackboneAppview.FailedRenderIsNotRetried` | js/backbone-appview.js:103-106 | when `render` is missing the call raises after making the view current, and an unforced repeat then takes the no-show path |
| `AppView.New` | appview.js:39-49 | a falsy anchor becomes `#content` and a falsy context becomes `null`; truthy values are kept; no view is current |
| `AppView.Teardown` | appview.js:64 | no current view means no teardown; a current view with `close` is closed; one without `close` makes the unchecked `close` call raise, and `remove` is never chosen |
| `AppView.ShowView` | appview.js:52-81 | the same bracketing by `first` and `last`, the same guard for the no-show path, and a returned call leaves the view current with anchor and context unchanged; a missing `remove` is never what raises |
| `AppView.CompletedSwap` | appview.js:57-81 | a completed swap runs, in one order across hooks, views and container, `first`, `close` on the old view (never `remove`), `beforeRender`, the render when `doRender`, `afterRender`, `beforeShow`, the attachment, `afterShow`, `last`; each channel sees its part of that order, and the container holds exactly the view's element |
| `AppView.RaisesOnlyOnMissingMethod` | appview.js:60-69 | the call raises exactly on a swap whose old view lacks `close`, then with nothing changed after `first`, or whose view lacks `render` while rendering is on, then with the view current and nothing shown |
| `AppView.RepeatedShowIsNoShow` | appview.js:61-79 | repeating a returned show of the same view without `force` takes the no-show path and changes nothing |
| `AppView.NeverCallsRemove` | appview.js:64 | no call of the older manager ever calls `remove` |
| `Variants.ConstructorsDifferOnlyInContext` | appview.js:43-49 | the older constructor equals the current one given the context with a falsy value replaced by `null`; they agree on a truthy context, and an omitted context is `null` in one and undefined in the other |
| `Variants.AgreeWhenOutgoingCloses` | appview.js:61-81 | when there is no current view or it has `close`, both managers make the same calls and reach the same state |
| `Variants.DivergeWhenOutgoingOnlyRemoves` | js/backbone-appview.js:95-101 | on a swap (a different view, or `force`) away from a current view that has `remove` but not `close`, the current manager removes it, renders the incoming view when rendering is on, and completes the swap, while the older one raises right after `first` with nothing changed |
| `Variants.AgreeExactlyWhenCloseSuffices` | appview.js:60-64 | the two managers produce the same step if and only if the call takes the no-show path, there is no current view, or the current view has `close` |

The functions `ViewManager.TeardownRaised`, `ViewManager.RenderRaised` and
`ViewManager.Completed` are the three ends of the swap path; what they produce
is stated through `ViewManager.Swap`, `ViewManager.SwapRaises`,
`ViewManager.SwapViewCalls` and `ViewManager.SwapCompleted`.

## Left out

- The module wrappers (AMD `define`, the global `root.BackboneAppview`, the
  `(function(_, $) { … }).call(this, _, jQuery)` closure) are plumbing.
- jQuery resolution of `$(anchor, context)` is abstract: one container per
  `(anchor, context)` pair. Several matching elements (jQuery appends clones),
  containers nested in each other, and `append` moving an element out of
  another container are not modelled.
- Two `(anchor, context)` pairs that jQuery resolves to the same element, such
  as `("#content", undefined)`, `("#content", null)` and `("#content",
  document)`, are separate containers in the model, so `Dom.Replace`'s "other
  containers are untouched" does not describe such pairs in a real page.
- Backbone `View` internals and what `render`, `close` and `remove` actually
  do are not modelled; they are trace events only.
- Exceptions raised by hooks, and hooks that call `showView` again, are not
  modelled: hooks are non-failing, non-reentrant events. Only the `TypeError`
  of a missing view method is modelled.
- `_.defaults` writes the defaults into the caller's options object; only the
  merged values are modelled.
- Option flags are booleans or absent. Other truthy or falsy values for
  `force` and `doRender`, and a flag explicitly set to `null` (which some
  underscore versions treat as absent), are not modelled.
- Anchor and context values are `undefined`, `null`, strings and elements.
  Other JavaScript values (numbers, booleans, jQuery objects) are not modelled.
- `showView` with a view that is not an object (`undefined`, `null`) is not
  modelled: the view argument is always a live view.
- `currentView` is a public property that callers could overwrite directly;
  the model changes it only through `showView`.
- `BackboneAppview.GetAnchor` and `BackboneAppview.GetContext` have no contract
  of their own; what they return is stated by `SetAnchor`, `SetContext`,
  `New` and `NewWithoutArguments`.

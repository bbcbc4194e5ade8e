/** The observable behaviour of one `showView` call: the ordered calls it
    makes into hooks, views and the container. */
module Trace {
  import opened Js
  import opened Views

  datatype Event =
    | First                   // options.first()
    | Close(view: ViewRef)    // view.close()
    | Remove(view: ViewRef)   // view.remove()
    | BeforeRender            // options.beforeRender()
    | Render(view: ViewRef)   // view.render()
    | AfterRender             // options.afterRender()
    | BeforeShow              // options.beforeShow()
    | Attach(el: Node)        // container.empty().append(el)
    | AfterShow               // options.afterShow()
    | OnNoShow                // options.onNoShow()
    | Last                    // options.last()

  /** Who receives a call: a hook from the options, a view, or the container. */
  datatype Channel = HookCall | ViewCall | ContainerCall

  function ChannelOf(e: Event): Channel {
    match e
    case Close(_) => ViewCall
    case Remove(_) => ViewCall
    case Render(_) => ViewCall
    case Attach(_) => ContainerCall
    case _ => HookCall
  }

  /** How many times `e` occurs in `t`. */
  function Count(t: seq<Event>, e: Event): nat {
    if t == [] then 0
    else (if t[0] == e then 1 else 0) + Count(t[1..], e)
  }

  /** The calls of `t` that go to channel `c`, in order: what a spy on that
      channel records. */
  function Project(t: seq<Event>, c: Channel): seq<Event> {
    if t == [] then []
    else (if ChannelOf(t[0]) == c then [t[0]] else []) + Project(t[1..], c)
  }

  /** The documented order of a swap: `first`, the teardown of the old view,
      the render hooks around the optional render, the show hooks around the
      attachment, `last`. */
  function SwapTrace(teardown: seq<Event>, view: ViewRef, el: Node, doRender: bool): seq<Event> {
    [First] + (teardown + ([BeforeRender] + ((if doRender then [Render(view)] else [])
    + [AfterRender, BeforeShow, Attach(el), AfterShow, Last])))
  }

  /** `first` opens the trace and occurs once; `last` occurs once, at the
      end, when the call returned, and not at all when it raised. */
  predicate Bracketed(t: seq<Event>, returned: bool) {
    && |t| > 0 && t[0] == First && Count(t, First) == 1
    && (returned <==> t[|t| - 1] == Last)
    && Count(t, Last) == (if returned then 1 else 0)
  }

  /** The order of a call that shows nothing. */
  const NoShowTrace: seq<Event> := [First, OnNoShow, Last]

  /** The hooks a swap runs, in the order a recording caller sees them. */
  const SwapHooks: seq<Event> := [First, BeforeRender, AfterRender, BeforeShow, AfterShow, Last]

  predicate IsTeardown(e: Event) {
    e.Close? || e.Remove?
  }

  lemma {:induction false} CountAppend(a: seq<Event>, b: seq<Event>, e: Event)
    ensures Count(a + b, e) == Count(a, e) + Count(b, e)
    decreases |a|
  {
    if a == [] {
      assert a + b == b;
    } else {
      assert (a + b)[1..] == a[1..] + b;
      CountAppend(a[1..], b, e);
    }
  }

  lemma {:induction false} ProjectAppend(a: seq<Event>, b: seq<Event>, c: Channel)
    ensures Project(a + b, c) == Project(a, c) + Project(b, c)
    decreases |a|
  {
    if a == [] {
      assert a + b == b;
    } else {
      assert a == [a[0]] + a[1..];
      assert a + b == [a[0]] + (a[1..] + b);
      ProjectCons(a[0], a[1..] + b, c);
      ProjectCons(a[0], a[1..], c);
      ProjectAppend(a[1..], b, c);
    }
  }

  /** Projecting onto a channel keeps every call of that channel. */
  lemma {:induction false} ProjectCount(t: seq<Event>, c: Channel, e: Event)
    requires ChannelOf(e) == c
    ensures Count(Project(t, c), e) == Count(t, e)
    decreases |t|
  {
    if t != [] {
      ProjectCount(t[1..], c, e);
      var head := if ChannelOf(t[0]) == c then [t[0]] else [];
      assert Project(t, c) == head + Project(t[1..], c);
      CountAppend(head, Project(t[1..], c), e);
      assert Count(head, e) == (if t[0] == e then 1 else 0) by {
        if head != [] {
          assert head[1..] == [];
        }
      }
    }
  }

  /** A call its channel's spy never saw was never made. */
  lemma {:induction false} AbsentFromProjection(t: seq<Event>, c: Channel, e: Event)
    requires ChannelOf(e) == c && e !in Project(t, c)
    ensures e !in t
    decreases |t|
  {
    if t != [] {
      var head := if ChannelOf(t[0]) == c then [t[0]] else [];
      assert Project(t, c) == head + Project(t[1..], c);
      assert e !in Project(t[1..], c);
      AbsentFromProjection(t[1..], c, e);
      assert t == [t[0]] + t[1..];
    }
  }

  /** The projection of a call followed by more calls. */
  lemma ProjectCons(x: Event, t: seq<Event>, c: Channel)
    ensures Project([x] + t, c) == (if ChannelOf(x) == c then [x] else []) + Project(t, c)
  {
    assert ([x] + t)[1..] == t;
  }

  /** Counting in a call followed by more calls. */
  lemma CountCons(x: Event, t: seq<Event>, e: Event)
    ensures Count([x] + t, e) == (if x == e then 1 else 0) + Count(t, e)
  {
    assert ([x] + t)[1..] == t;
  }

  lemma ProjectSingleton(x: Event, c: Channel)
    ensures Project([x], c) == if ChannelOf(x) == c then [x] else []
  {
    assert [x][1..] == [];
  }

  lemma CountSingleton(x: Event, e: Event)
    ensures Count([x], e) == if x == e then 1 else 0
  {
    assert [x][1..] == [];
  }

  /** What the hooks, the views and the container each see of a completed
      swap; in particular the teardown precedes the render of the new view
      and `first` and `last` run exactly once, at the ends. */
  lemma SwapTraceProjections(teardown: seq<Event>, view: ViewRef, el: Node, doRender: bool)
    requires forall i :: 0 <= i < |teardown| ==> IsTeardown(teardown[i])
    ensures Project(SwapTrace(teardown, view, el, doRender), HookCall) == SwapHooks
    ensures Project(SwapTrace(teardown, view, el, doRender), ViewCall)
            == teardown + (if doRender then [Render(view)] else [])
    ensures Project(SwapTrace(teardown, view, el, doRender), ContainerCall) == [Attach(el)]
    ensures Count(SwapTrace(teardown, view, el, doRender), First) == 1
    ensures Count(SwapTrace(teardown, view, el, doRender), Last) == 1
    ensures Count(SwapTrace(teardown, view, el, doRender), OnNoShow) == 0
    ensures SwapTrace(teardown, view, el, doRender)[0] == First
    ensures SwapTrace(teardown, view, el, doRender)[|SwapTrace(teardown, view, el, doRender)| - 1] == Last
  {
    var t := SwapTrace(teardown, view, el, doRender);
    SwapHookChannel(teardown, view, el, doRender);
    SwapViewChannel(teardown, view, el, doRender);
    SwapContainerChannel(teardown, view, el, doRender);
    ProjectCount(t, HookCall, First);
    ProjectCount(t, HookCall, Last);
    ProjectCount(t, HookCall, OnNoShow);
    SwapHookCounts();
  }

  /** `SwapTrace` cut into its five pieces, projected piece by piece. */
  lemma SwapPieces(teardown: seq<Event>, view: ViewRef, el: Node, doRender: bool, c: Channel)
    ensures Project(SwapTrace(teardown, view, el, doRender), c)
            == Project([First], c) + Project(teardown, c) + Project([BeforeRender], c)
               + Project(if doRender then [Render(view)] else [], c)
               + Project([AfterRender, BeforeShow, Attach(el), AfterShow, Last], c)
  {
    var r := if doRender then [Render(view)] else [];
    var tail := [AfterRender, BeforeShow, Attach(el), AfterShow, Last];
    var rest := [BeforeRender] + (r + tail);
    ProjectAppend([First], teardown + rest, c);
    ProjectAppend(teardown, rest, c);
    ProjectAppend([BeforeRender], r + tail, c);
    ProjectAppend(r, tail, c);
  }

  lemma SwapHookChannel(teardown: seq<Event>, view: ViewRef, el: Node, doRender: bool)
    requires forall i :: 0 <= i < |teardown| ==> IsTeardown(teardown[i])
    ensures Project(SwapTrace(teardown, view, el, doRender), HookCall) == SwapHooks
  {
    var r := if doRender then [Render(view)] else [];
    var tail := [AfterRender, BeforeShow, Attach(el), AfterShow, Last];
    calc {
      Project(SwapTrace(teardown, view, el, doRender), HookCall);
    == { SwapPieces(teardown, view, el, doRender, HookCall); }
      Project([First], HookCall) + Project(teardown, HookCall) + Project([BeforeRender], HookCall)
      + Project(r, HookCall) + Project(tail, HookCall);
    == { ProjectSingleton(First, HookCall);
         TeardownProjections(teardown);
         ProjectSingleton(BeforeRender, HookCall);
         ProjectRender(r, view, doRender);
         ProjectTail(el, HookCall); }
      [First] + [] + [BeforeRender] + [] + [AfterRender, BeforeShow, AfterShow, Last];
    ==
      SwapHooks;
    }
  }

  lemma SwapViewChannel(teardown: seq<Event>, view: ViewRef, el: Node, doRender: bool)
    requires forall i :: 0 <= i < |teardown| ==> IsTeardown(teardown[i])
    ensures Project(SwapTrace(teardown, view, el, doRender), ViewCall)
            == teardown + (if doRender then [Render(view)] else [])
  {
    var r := if doRender then [Render(view)] else [];
    var tail := [AfterRender, BeforeShow, Attach(el), AfterShow, Last];
    calc {
      Project(SwapTrace(teardown, view, el, doRender), ViewCall);
    == { SwapPieces(teardown, view, el, doRender, ViewCall); }
      Project([First], ViewCall) + Project(teardown, ViewCall) + Project([BeforeRender], ViewCall)
      + Project(r, ViewCall) + Project(tail, ViewCall);
    == { ProjectSingleton(First, ViewCall);
         TeardownProjections(teardown);
         ProjectSingleton(BeforeRender, ViewCall);
         ProjectRender(r, view, doRender);
         ProjectTail(el, ViewCall); }
      [] + teardown + [] + r + [];
    ==
      teardown + r;
    }
  }

  lemma SwapContainerChannel(teardown: seq<Event>, view: ViewRef, el: Node, doRender: bool)
    requires forall i :: 0 <= i < |teardown| ==> IsTeardown(teardown[i])
    ensures Project(SwapTrace(teardown, view, el, doRender), ContainerCall) == [Attach(el)]
  {
    var r := if doRender then [Render(view)] else [];
    var tail := [AfterRender, BeforeShow, Attach(el), AfterShow, Last];
    calc {
      Project(SwapTrace(teardown, view, el, doRender), ContainerCall);
    == { SwapPieces(teardown, view, el, doRender, ContainerCall); }
      Project([First], ContainerCall) + Project(teardown, ContainerCall) + Project([BeforeRender], ContainerCall)
      + Project(r, ContainerCall) + Project(tail, ContainerCall);
    == { ProjectSingleton(First, ContainerCall);
         TeardownProjections(teardown);
         ProjectSingleton(BeforeRender, ContainerCall);
         ProjectRender(r, view, doRender);
         ProjectTail(el, ContainerCall); }
      [] + [] + [] + [] + [Attach(el)];
    ==
      [Attach(el)];
    }
  }

  lemma SwapHookCounts()
    ensures Count(SwapHooks, First) == 1
    ensures Count(SwapHooks, Last) == 1
    ensures Count(SwapHooks, OnNoShow) == 0
  {
    var s5 := [Last];
    var s4 := [AfterShow] + s5;
    var s3 := [BeforeShow] + s4;
    var s2 := [AfterRender] + s3;
    var s1 := [BeforeRender] + s2;
    assert SwapHooks == [First] + s1;
    forall e | e == First || e == Last || e == OnNoShow
      ensures Count(SwapHooks, e) == (if e == OnNoShow then 0 else 1)
    {
      CountSingleton(Last, e);
      CountCons(AfterShow, s5, e);
      CountCons(BeforeShow, s4, e);
      CountCons(AfterRender, s3, e);
      CountCons(BeforeRender, s2, e);
      CountCons(First, s1, e);
    }
  }

  /** The fixed calls after the render: two hooks, the attachment, two hooks. */
  lemma ProjectTail(el: Node, c: Channel)
    ensures Project([AfterRender, BeforeShow, Attach(el), AfterShow, Last], c)
            == (match c
                case HookCall => [AfterRender, BeforeShow, AfterShow, Last]
                case ViewCall => []
                case ContainerCall => [Attach(el)])
  {
    assert [AfterRender, BeforeShow, Attach(el), AfterShow, Last]
           == [AfterRender] + ([BeforeShow] + ([Attach(el)] + ([AfterShow] + [Last])));
    match c
    case HookCall => ProjectTailOn(el, HookCall);
    case ViewCall => ProjectTailOn(el, ViewCall);
    case ContainerCall => ProjectTailOn(el, ContainerCall);
  }

  lemma ProjectTailOn(el: Node, c: Channel)
    ensures Project([AfterRender] + ([BeforeShow] + ([Attach(el)] + ([AfterShow] + [Last]))), c)
            == (if c == HookCall then [AfterRender] else [])
               + ((if c == HookCall then [BeforeShow] else [])
               + ((if c == ContainerCall then [Attach(el)] else [])
               + ((if c == HookCall then [AfterShow] else [])
               + (if c == HookCall then [Last] else []))))
  {
    ProjectSingleton(Last, c);
    ProjectCons(AfterShow, [Last], c);
    ProjectCons(Attach(el), [AfterShow] + [Last], c);
    ProjectCons(BeforeShow, [Attach(el)] + ([AfterShow] + [Last]), c);
    ProjectCons(AfterRender, [BeforeShow] + ([Attach(el)] + ([AfterShow] + [Last])), c);
  }

  lemma ProjectRender(r: seq<Event>, view: ViewRef, doRender: bool)
    requires r == if doRender then [Render(view)] else []
    ensures Project(r, ViewCall) == r
    ensures Project(r, HookCall) == []
    ensures Project(r, ContainerCall) == []
  {
    if doRender {
      assert r[1..] == [];
    }
  }

  /** A run of teardown calls is seen only by the views. */
  lemma {:induction false} TeardownProjections(teardown: seq<Event>)
    requires forall i :: 0 <= i < |teardown| ==> IsTeardown(teardown[i])
    ensures Project(teardown, ViewCall) == teardown
    ensures Project(teardown, HookCall) == []
    ensures Project(teardown, ContainerCall) == []
    decreases |teardown|
  {
    if teardown != [] {
      TeardownProjections(teardown[1..]);
    }
  }
}

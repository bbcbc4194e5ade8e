/** The per-call options of `showView` and their defaults. Only the two
    flags influence the pipeline; the seven hooks are positions in it. */
module ShowOptions {
  import opened Js

  /** The options object a caller passes: each flag supplied or left undefined. */
  datatype Options = Options(force: Option<bool>, doRender: Option<bool>)

  /** The options after the defaults are filled in. */
  datatype Resolved = Resolved(force: bool, doRender: bool)

  /** No forced redraw; render before attaching. */
  const Defaults: Resolved := Resolved(false, true)

  /** `options || {}` followed by `_.defaults(options, defaults)`: a flag the
      caller supplied wins, any other flag takes its default. */
  function Merge(options: Option<Options>): (r: Resolved)
    ensures options.Some? && options.value.force.Some? ==> r.force == options.value.force.value
    ensures options.Some? && options.value.doRender.Some? ==> r.doRender == options.value.doRender.value
    ensures (options.None? || options.value.force.None?) ==> r.force == Defaults.force
    ensures (options.None? || options.value.doRender.None?) ==> r.doRender == Defaults.doRender
  {
    var o := match options case None => Options(None, None) case Some(o) => o;
    Resolved(
      match o.force case Some(f) => f case None => Defaults.force,
      match o.doRender case Some(d) => d case None => Defaults.doRender)
  }

  /** Omitting the options object is the same as passing `{}`. */
  lemma OmittedIsEmpty()
    ensures Merge(None) == Merge(Some(Options(None, None))) == Defaults
  {}

  /** The merge is per field: one flag never affects the other. */
  lemma MergeIsPerField(force: Option<bool>, doRender: Option<bool>, force': Option<bool>, doRender': Option<bool>)
    ensures Merge(Some(Options(force, doRender))).doRender == Merge(Some(Options(force', doRender))).doRender
    ensures Merge(Some(Options(force, doRender))).force == Merge(Some(Options(force, doRender'))).force
  {}
}

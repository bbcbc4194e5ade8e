/** The DOM as the managers see it: containers found by `$(anchor, context)`. */
module Dom {
  import opened Js

  /** The pair a container is resolved from. */
  datatype Target = Target(anchor: Value, context: Value)

  /** The children of every container; a target without an entry matches no
      element, so operations on it do nothing. */
  type Document = map<Target, seq<Node>>

  /** `$(anchor, context).empty().append(el)`: the container's previous
      children are discarded and `el` becomes its only child. */
  function Replace(doc: Document, t: Target, el: Node): (d: Document)
    ensures d.Keys == doc.Keys
    ensures t in doc ==> d[t] == [el]
    ensures forall u :: u in doc && u != t ==> d[u] == doc[u]
  {
    if t in doc then doc[t := [el]] else doc
  }
}

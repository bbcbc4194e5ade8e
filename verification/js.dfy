/** The handful of JavaScript value semantics the view managers rely on. */
module Js {

  /** An argument or option property that is either supplied or left undefined. */
  datatype Option<+T> = None | Some(value: T)

  /** A DOM node, known only by its identity. */
  type Node = nat

  /** The values an anchor or a context can hold: a selector string, a DOM
      element, or one of the two "nothing" values. */
  datatype Value = Undefined | Null | Str(s: string) | Element(node: Node)

  /** JavaScript falsiness on `Value`: `undefined`, `null` and the empty string. */
  predicate Falsy(v: Value) {
    v.Undefined? || v.Null? || v == Str("")
  }

  /** The `a || b` operator. */
  function Or(a: Value, b: Value): (r: Value)
    ensures !Falsy(a) ==> r == a
    ensures Falsy(a) ==> r == b
  {
    if Falsy(a) then b else a
  }
}

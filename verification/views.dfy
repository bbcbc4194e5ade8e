/** The views a manager is handed. It never owns them; it only keeps a
    reference to one and calls the methods they happen to have. */
module Views {
  import opened Js

  /** Object identity: two references are the same view iff they are equal. */
  type ViewRef = nat

  /** What the manager can observe of a view when it looks: which of the
      methods `render`, `close` and `remove` exist, and its root element. */
  datatype ViewObject = ViewObject(hasRender: bool, hasClose: bool, hasRemove: bool, el: Node)

  /** The live views. Methods may be added to a view between two calls, so
      the manager looks a view up at the moment it calls it. */
  type Heap = map<ViewRef, ViewObject>
}

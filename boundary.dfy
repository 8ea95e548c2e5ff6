/**
 * Caret positions, boundary locations and the document collaborators the
 * inline-boundary delete logic consults.
 *
 * The collaborators (caret finding, boundary classification, inline lookup,
 * caret rendering) live in files that are not part of this model; each is an
 * arrow-typed field of `Dom`, a snapshot of the document as those
 * collaborators see it at one moment.
 */
module Boundary {
  import opened Optionals

  /** A document node, identified by its identity alone. */
  type Node = nat

  /** The document node itself, where a freshly created DOM range starts. */
  const DocumentNode: Node := 0

  /** CaretPosition: a container node and an offset; equal exactly when both agree. */
  datatype CaretPosition = CaretPosition(container: Node, offset: nat)

  /** A selection range between two caret positions. */
  datatype Range = Range(start: CaretPosition, end: CaretPosition) {
    /** The editor's notion of a collapsed selection: both ends coincide. */
    predicate Collapsed() {
      start == end
    }
  }

  /** Where a caret sits relative to an inline boundary element. */
  datatype Location =
    | Before(elm: Node)   // just before the element
    | Start(elm: Node)    // first position inside it
    | End(elm: Node)      // last position inside it
    | After(elm: Node)    // just after it

  /**
   * The placement handed to the caret renderer: the `inside` or the `outside`
   * edge implied by a location. How each maps onto an edge is the renderer's
   * business and is not part of this model.
   */
  datatype Placement = Inside(loc: Location) | Outside(loc: Location)

  /**
   * The document as the collaborators of the delete logic see it. Scoped
   * lookups take the root node that bounds the search first; the editor's
   * inline-target predicate is fixed and folded into `readLocation` and
   * `findRootInline`.
   */
  datatype Dom = Dom(
    body: Node,                                          // editor.getBody()
    parentBlock: (Node, Node) -> Option<Node>,           // parent block of a node below a root
    readLocation: (Node, CaretPosition) -> Option<Location>,
    navigate: (bool, Node, CaretPosition) -> Option<CaretPosition>,
    firstPositionIn: Node -> Option<CaretPosition>,
    lastPositionIn: Node -> Option<CaretPosition>,
    nextPosition: (Node, CaretPosition) -> Option<CaretPosition>,
    normalizePosition: (bool, CaretPosition) -> CaretPosition,
    findRootInline: (Node, CaretPosition) -> Option<Node>,
    renderCaret: Placement -> Option<CaretPosition>      // caret position rendered at a placement
  )
}

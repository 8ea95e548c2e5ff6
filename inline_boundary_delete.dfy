/**
 * The decision half of backspace/delete around inline boundaries, for a
 * collapsed selection: step across a boundary edge without deleting, delete
 * the whole root inline element, delete the range to the adjacent position,
 * or decline (`None`) so that default deletion applies.
 *
 * The source returns deferred procedures; here the decision returns an
 * `Action` value saying which procedure it would run, and `Editor.Run`
 * carries it out.
 */
module InlineBoundaryDelete {
  import opened Optionals
  import opened Boundary

  /** The deferred procedures the decision can hand back. */
  datatype Action =
    | SetCaret(pos: CaretPosition)                        // place the caret at a rendered position
    | DeleteElement(forward: bool, elm: Node)             // remove an inline element as a unit
    | DeleteRange(start: CaretPosition, end: CaretPosition) // delete from start to end, then re-enter

  /** The block that bounds every search: the parent block of `node`, else `rootNode`. */
  function Rescope(dom: Dom, rootNode: Node, node: Node): (r: Node)
    ensures dom.parentBlock(node, rootNode) == Some(r) || (dom.parentBlock(node, rootNode) == None && r == rootNode)
  {
    dom.parentBlock(node, rootNode).GetOr(rootNode)
  }

  /**
   * The callback `hasOnlyTwoOrLessPositionsLeft` lifts over the first and
   * last positions: after normalising both, the step from the first is
   * absent or lands on the last.
   */
  function NextIsLast(dom: Dom, elm: Node, firstPos: CaretPosition, lastPos: CaretPosition): (r: bool)
    ensures var next := dom.nextPosition(elm, dom.normalizePosition(true, firstPos));
      r <==> next == None || next == Some(dom.normalizePosition(false, lastPos))
  {
    var normalizedFirstPos := dom.normalizePosition(true, firstPos);
    var normalizedLastPos := dom.normalizePosition(false, lastPos);
    var next := dom.nextPosition(elm, normalizedFirstPos);
    assert next.Some? ==> (next.Forall(pos => pos == normalizedLastPos) <==> next.value == normalizedLastPos);
    next.Forall(pos => pos == normalizedLastPos)
  }

  /**
   * Whether the element holds at most one unit of content, judged by caret
   * positions: no first or no last position, or the step after the
   * normalised first position is absent or lands on the normalised last one.
   */
  function HasOnlyTwoOrLessPositionsLeft(dom: Dom, elm: Node): (r: bool)
    ensures dom.firstPositionIn(elm) == None || dom.lastPositionIn(elm) == None ==> r
    ensures dom.firstPositionIn(elm).Some? && dom.lastPositionIn(elm).Some? ==>
      var next := dom.nextPosition(elm, dom.normalizePosition(true, dom.firstPositionIn(elm).value));
      (r <==> next == None || next == Some(dom.normalizePosition(false, dom.lastPositionIn(elm).value)))
  {
    Lift2(dom.firstPositionIn(elm), dom.lastPositionIn(elm),
      (firstPos, lastPos) => NextIsLast(dom, elm, firstPos, lastPos)).GetOr(true)
  }

  /**
   * The caret move that crosses a boundary edge without deleting: moving
   * forward, step in from `Before` and out from `End`; moving backward, step
   * out from `Start` and in from `After`. Every other location gives no move.
   */
  function BoundaryStep(forward: bool, location: Location): (r: Option<Placement>)
    ensures r.Some? <==> (if forward then location.Before? || location.End? else location.Start? || location.After?)
    ensures r.Some? ==> r.value.loc == location
    ensures r.Some? ==> (r.value.Inside? <==> location.Before? || location.After?)
  {
    if forward then
      match location
      case Before(_) => Some(Inside(location))
      case Start(_) => None
      case End(_) => Some(Outside(location))
      case After(_) => None
    else
      match location
      case Before(_) => None
      case Start(_) => Some(Outside(location))
      case End(_) => None
      case After(_) => Some(Inside(location))
  }

  /** Renders the caret at a placement and, if that worked, offers to select it. */
  function SetCaretLocation(dom: Dom, placement: Placement): (r: Option<Action>)
    ensures r.Some? <==> dom.renderCaret(placement).Some?
    ensures r.Some? ==> r.value.SetCaret? && Some(r.value.pos) == dom.renderCaret(placement)
  {
    dom.renderCaret(placement).Map(pos => SetCaret(pos))
  }

  // The intermediate values of the collapsed decision, named as the source names them.

  /** The scope of every search: the caret's parent block below the body, else the body. */
  function RootNode(dom: Dom, from: CaretPosition): (r: Node)
    ensures dom.parentBlock(from.container, dom.body).Some? ==> r == dom.parentBlock(from.container, dom.body).value
    ensures dom.parentBlock(from.container, dom.body) == None ==> r == dom.body
  {
    Rescope(dom, dom.body, from.container)
  }

  /** The classification of the caret itself, within the scope rather than the whole body. */
  function FromLocation(dom: Dom, from: CaretPosition): (r: Option<Location>)
    ensures dom.parentBlock(from.container, dom.body) == None ==> r == dom.readLocation(dom.body, from)
    ensures dom.parentBlock(from.container, dom.body).Some? ==>
      r == dom.readLocation(dom.parentBlock(from.container, dom.body).value, from)
  {
    dom.readLocation(RootNode(dom, from), from)
  }

  /** The boundary step for the caret's location, if it is classified and one applies. */
  function StepLocation(dom: Dom, forward: bool, from: CaretPosition): (r: Option<Placement>)
    ensures r.Some? <==> FromLocation(dom, from).Some? && BoundaryStep(forward, FromLocation(dom, from).value).Some?
    ensures r.Some? ==> r.value.loc == FromLocation(dom, from).value
    ensures r.Some? ==> (r.value.Inside? <==> FromLocation(dom, from).value.Before? || FromLocation(dom, from).value.After?)
  {
    FromLocation(dom, from).Bind(location => BoundaryStep(forward, location))
  }

  /** The adjacent position in the direction of travel, without leaving the scope. */
  function ToPosition(dom: Dom, forward: bool, from: CaretPosition): (r: Option<CaretPosition>)
    ensures dom.parentBlock(from.container, dom.body) == None ==> r == dom.navigate(forward, dom.body, from)
    ensures dom.parentBlock(from.container, dom.body).Some? ==>
      r == dom.navigate(forward, dom.parentBlock(from.container, dom.body).value, from)
  {
    dom.navigate(forward, RootNode(dom, from), from)
  }

  /** The classification of the adjacent position, absent when there is none. */
  function ToLocation(dom: Dom, forward: bool, from: CaretPosition): (r: Option<Location>)
    ensures ToPosition(dom, forward, from) == None ==> r == None
    ensures ToPosition(dom, forward, from).Some? ==>
      r == dom.readLocation(RootNode(dom, from), ToPosition(dom, forward, from).value)
  {
    ToPosition(dom, forward, from).Bind(pos => dom.readLocation(RootNode(dom, from), pos))
  }

  /** The whole-element deletion, offered when both edges are classified. */
  function ElementDeletion(dom: Dom, forward: bool, from: CaretPosition): (r: Option<Action>)
    ensures var root := dom.findRootInline(RootNode(dom, from), from);
      r.Some? <==> root.Some? && HasOnlyTwoOrLessPositionsLeft(dom, root.value)
    ensures r.Some? ==> r.value == DeleteElement(forward, dom.findRootInline(RootNode(dom, from), from).value)
  {
    dom.findRootInline(RootNode(dom, from), from).Bind(elm =>
      if HasOnlyTwoOrLessPositionsLeft(dom, elm) then Some(DeleteElement(forward, elm)) else None)
  }

  /** The range deletion to the adjacent position, always in document order. */
  function RangeDeletion(dom: Dom, forward: bool, from: CaretPosition): (r: Option<Action>)
    ensures r.Some? <==> ToLocation(dom, forward, from).Some?
    ensures r.Some? ==>
      ToPosition(dom, forward, from).Some? &&
      var to := ToPosition(dom, forward, from).value;
      r.value == (if forward then DeleteRange(from, to) else DeleteRange(to, from))
  {
    ToLocation(dom, forward, from).Bind(_ =>
      ToPosition(dom, forward, from).Map(to =>
        if forward then DeleteRange(from, to) else DeleteRange(to, from)))
  }

  /**
   * The decision for a collapsed selection at `from`. Whole-element deletion
   * keeps the direction of travel and a range deletion always has `from` as
   * one of its ends; the lemmas below give the exact case table.
   */
  function BackspaceDeleteCollapsed(dom: Dom, forward: bool, from: CaretPosition): (r: Option<Action>)
    ensures r.Some? && r.value.DeleteElement? ==> r.value.forward == forward
    ensures r.Some? && r.value.DeleteRange? ==> (if forward then r.value.start == from else r.value.end == from)
  {
    var newLocation := StepLocation(dom, forward, from).Map(placement => SetCaretLocation(dom, placement));
    newLocation.GetOrThunk(() =>
      var liftResult := Lift2(FromLocation(dom, from), ToLocation(dom, forward, from),
        (_, _) => ElementDeletion(dom, forward, from));
      liftResult.GetOrThunk(() => RangeDeletion(dom, forward, from)))
  }

  /**
   * After a range deletion: classify the caret left behind against `rootNode`
   * (the body, read before the deletion) and, if it sits at a boundary,
   * render it on the inside edge only.
   */
  function ReEnterBoundary(dom: Dom, rootNode: Node, pos: CaretPosition): (r: Option<Action>)
    ensures dom.readLocation(rootNode, pos) == None ==> r == None
    ensures dom.readLocation(rootNode, pos).Some? ==>
      r == SetCaretLocation(dom, Inside(dom.readLocation(rootNode, pos).value))
    ensures r.Some? ==> r.value.SetCaret?
  {
    dom.readLocation(rootNode, pos).Map(location => Inside(location)).Bind(placement => SetCaretLocation(dom, placement))
  }

  /** Moving backward mirrors moving forward: Before/After and Start/End swap roles. */
  function Mirror(location: Location): (r: Location) {
    match location
    case Before(e) => After(e)
    case Start(e) => End(e)
    case End(e) => Start(e)
    case After(e) => Before(e)
  }

  function MirrorPlacement(placement: Placement): (r: Placement) {
    match placement
    case Inside(l) => Inside(Mirror(l))
    case Outside(l) => Outside(Mirror(l))
  }

  /** The backward step table is the forward one seen in a mirror. */
  lemma BoundaryStepMirror(location: Location)
    ensures BoundaryStep(false, location) == BoundaryStep(true, Mirror(location)).Map(MirrorPlacement)
  {
  }

  /**
   * Once a boundary step is selected, the result is what rendering the caret
   * there yields, a decline included when rendering fails.
   */
  lemma CaretMoveTakesPrecedence(dom: Dom, forward: bool, from: CaretPosition)
    requires StepLocation(dom, forward, from).Some?
    ensures BackspaceDeleteCollapsed(dom, forward, from) == SetCaretLocation(dom, StepLocation(dom, forward, from).value)
    ensures StepLocation(dom, forward, from).value.loc == FromLocation(dom, from).value
  {
  }

  /**
   * With a boundary step selected, the deletion collaborators are never
   * consulted: replacing them all leaves the decision unchanged.
   */
  lemma CaretMoveIgnoresDeletion(dom: Dom, forward: bool, from: CaretPosition,
                                 navigate: (bool, Node, CaretPosition) -> Option<CaretPosition>,
                                 firstPositionIn: Node -> Option<CaretPosition>,
                                 lastPositionIn: Node -> Option<CaretPosition>,
                                 nextPosition: (Node, CaretPosition) -> Option<CaretPosition>,
                                 normalizePosition: (bool, CaretPosition) -> CaretPosition,
                                 findRootInline: (Node, CaretPosition) -> Option<Node>)
    requires StepLocation(dom, forward, from).Some?
    ensures
      var other := dom.(navigate := navigate, firstPositionIn := firstPositionIn, lastPositionIn := lastPositionIn,
                        nextPosition := nextPosition, normalizePosition := normalizePosition,
                        findRootInline := findRootInline);
      BackspaceDeleteCollapsed(other, forward, from) == BackspaceDeleteCollapsed(dom, forward, from)
  {
  }

  /**
   * Without a boundary step, the decision is the element deletion when both
   * the current and the adjacent position are classified, and the range
   * deletion otherwise.
   */
  lemma NoStepBranches(dom: Dom, forward: bool, from: CaretPosition)
    requires StepLocation(dom, forward, from) == None
    ensures FromLocation(dom, from).Some? && ToLocation(dom, forward, from).Some? ==>
      BackspaceDeleteCollapsed(dom, forward, from) == ElementDeletion(dom, forward, from)
    ensures !(FromLocation(dom, from).Some? && ToLocation(dom, forward, from).Some?) ==>
      BackspaceDeleteCollapsed(dom, forward, from) == RangeDeletion(dom, forward, from)
  {
  }

  /**
   * Whole-element deletion is chosen exactly when no boundary step applies,
   * both locations are classified, a root inline encloses the original
   * position, and that element has two or fewer positions left.
   */
  lemma ElementDeletionExactly(dom: Dom, forward: bool, from: CaretPosition, f: bool, elm: Node)
    ensures BackspaceDeleteCollapsed(dom, forward, from) == Some(DeleteElement(f, elm)) <==>
      && StepLocation(dom, forward, from) == None
      && FromLocation(dom, from).Some?
      && ToLocation(dom, forward, from).Some?
      && dom.findRootInline(RootNode(dom, from), from) == Some(elm)
      && HasOnlyTwoOrLessPositionsLeft(dom, elm)
      && f == forward
  {
  }

  /**
   * A range deletion is chosen exactly when the current position is not
   * classified and the adjacent position exists and is classified; it runs
   * from the earlier to the later of the two positions in travel order.
   */
  lemma RangeDeletionExactly(dom: Dom, forward: bool, from: CaretPosition)
    ensures
      var r := BackspaceDeleteCollapsed(dom, forward, from);
      r.Some? && r.value.DeleteRange? <==> FromLocation(dom, from) == None && ToLocation(dom, forward, from).Some?
    ensures
      var r := BackspaceDeleteCollapsed(dom, forward, from);
      r.Some? && r.value.DeleteRange? ==>
        ToPosition(dom, forward, from).Some? &&
        var to := ToPosition(dom, forward, from).value;
        r.value == (if forward then DeleteRange(from, to) else DeleteRange(to, from))
  {
  }

  /**
   * The decision declines exactly when a selected boundary step cannot be
   * rendered, when no adjacent classified position exists, or when both
   * edges are classified but the element may not be deleted whole.
   */
  lemma DeclineExactly(dom: Dom, forward: bool, from: CaretPosition)
    ensures BackspaceDeleteCollapsed(dom, forward, from) == None <==>
      if StepLocation(dom, forward, from).Some? then
        dom.renderCaret(StepLocation(dom, forward, from).value) == None
      else if ToLocation(dom, forward, from) == None then
        true
      else
        FromLocation(dom, from).Some? &&
        !(dom.findRootInline(RootNode(dom, from), from).Some? &&
          HasOnlyTwoOrLessPositionsLeft(dom, dom.findRootInline(RootNode(dom, from), from).value))
  {
  }

  /** Stepping into a boundary from just before it, moving forward, deletes nothing. */
  lemma StepIntoWithoutDeleting(dom: Dom, from: CaretPosition, elm: Node, pos: CaretPosition)
    requires FromLocation(dom, from) == Some(Before(elm))
    requires dom.renderCaret(Inside(Before(elm))) == Some(pos)
    ensures BackspaceDeleteCollapsed(dom, true, from) == Some(SetCaret(pos))
  {
  }

  /**
   * Where no position of the block around the caret is at a boundary, the
   * decision always declines and default deletion applies.
   */
  lemma NoBoundaryDeclines(dom: Dom, forward: bool, from: CaretPosition)
    requires forall pos :: dom.readLocation(RootNode(dom, from), pos) == None
    ensures BackspaceDeleteCollapsed(dom, forward, from) == None
  {
  }

  /** Navigation that respects a document order `precedes`. */
  ghost predicate NavigatesInOrder(dom: Dom, precedes: (CaretPosition, CaretPosition) -> bool) {
    && (forall root, p :: dom.navigate(true, root, p).Some? ==> precedes(p, dom.navigate(true, root, p).value))
    && (forall root, p :: dom.navigate(false, root, p).Some? ==> precedes(dom.navigate(false, root, p).value, p))
  }

  /** When navigation follows document order, every range deletion runs start before end. */
  lemma RangeDeletionInDocumentOrder(dom: Dom, forward: bool, from: CaretPosition,
                                     precedes: (CaretPosition, CaretPosition) -> bool)
    requires NavigatesInOrder(dom, precedes)
    ensures
      var r := BackspaceDeleteCollapsed(dom, forward, from);
      r.Some? && r.value.DeleteRange? ==> precedes(r.value.start, r.value.end)
  {
  }

  /**
   * The positions an element offers, in order and without caret containers,
   * as the caret finder walks them.
   */
  ghost predicate PositionsOf(dom: Dom, elm: Node, ps: seq<CaretPosition>) {
    && (forall i, j :: 0 <= i < j < |ps| ==> ps[i] != ps[j])
    && (|ps| == 0 ==> dom.firstPositionIn(elm) == None && dom.lastPositionIn(elm) == None)
    && (|ps| > 0 ==> dom.firstPositionIn(elm) == Some(ps[0]) && dom.lastPositionIn(elm) == Some(ps[|ps| - 1]))
    && (forall i :: 0 <= i < |ps| ==> dom.normalizePosition(true, ps[i]) == ps[i] && dom.normalizePosition(false, ps[i]) == ps[i])
    && (forall i :: 0 <= i < |ps| - 1 ==> dom.nextPosition(elm, ps[i]) == Some(ps[i + 1]))
    && (|ps| > 0 ==> dom.nextPosition(elm, ps[|ps| - 1]) == None)
  }

  /** The check lives up to its name: it holds exactly when the element offers at most two positions. */
  lemma HasOnlyTwoOrLessPositionsLeftCounts(dom: Dom, elm: Node, ps: seq<CaretPosition>)
    requires PositionsOf(dom, elm, ps)
    ensures HasOnlyTwoOrLessPositionsLeft(dom, elm) <==> |ps| <= 2
  {
    if |ps| >= 3 {
      assert dom.nextPosition(elm, ps[0]) == Some(ps[1]);
      assert ps[1] != ps[|ps| - 1];
    } else if |ps| == 2 {
      assert dom.nextPosition(elm, ps[0]) == Some(ps[1]);
    } else if |ps| == 1 {
      assert dom.nextPosition(elm, ps[0]) == None;
    }
  }
}

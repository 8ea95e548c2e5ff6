/**
 * The effect half of backspace/delete around inline boundaries: the editor
 * state the deferred procedures change, and those procedures.
 *
 * The host's own commands (the generic delete command, whole-element
 * deletion, placing the caret, change notification, the undo manager) are
 * not part of this model. Each is recorded in `history`, in call order, and
 * what a host edit leaves behind (the new document and the collapsed caret)
 * is a `HostEdit` parameter.
 */
module Editing {
  import opened Optionals
  import opened Boundary
  import opened InlineBoundaryDelete

  /** The host calls the procedures make, as the host observes them. */
  datatype Effect =
    | RangeSelected(range: Range)              // editor.selection.setRng
    | DeleteCommandRun(range: Range)           // the generic delete command on the selected range
    | CaretPlaced(pos: CaretPosition)          // collapse the live selection at a position
    | ElementRemoved(forward: bool, elm: Node) // remove an inline element as a unit
    | UndoIgnoreBegin                          // undo recording suspended ...
    | UndoIgnoreEnd                            // ... and resumed
    | NodeChangeNotified                       // editor.nodeChanged

  /** What a host edit leaves: the document afterwards and where the caret collapsed. */
  datatype HostEdit = HostEdit(doc: Dom, caret: CaretPosition)

  /** A DOM range being built: two boundary points set one at a time. */
  class DomRange {
    var start: CaretPosition
    var end: CaretPosition

    /** document.createRange(): collapsed at the start of the document. */
    constructor ()
      ensures start == CaretPosition(DocumentNode, 0) && end == start
    {
      start := CaretPosition(DocumentNode, 0);
      end := CaretPosition(DocumentNode, 0);
    }

    method SetStart(pos: CaretPosition)
      modifies this
      ensures start == pos && end == old(end)
    {
      start := pos;
    }

    method SetEnd(pos: CaretPosition)
      modifies this
      ensures end == pos && start == old(start)
    {
      end := pos;
    }
  }

  /** A fresh range from `from` to `to`. */
  method RangeFromPositions(from: CaretPosition, to: CaretPosition) returns (range: DomRange)
    ensures fresh(range)
    ensures range.start == from && range.end == to
  {
    range := new DomRange();
    range.SetStart(from);
    range.SetEnd(to);
  }

  /**
   * Where a range deletion leaves the caret: re-rendered inside a boundary
   * of `rootNode` when the host's delete left it at one, else where the host
   * left it.
   */
  function CaretAfterDelete(rootNode: Node, edit: HostEdit): (r: CaretPosition) {
    var reEnter := ReEnterBoundary(edit.doc, rootNode, edit.caret);
    if reEnter.Some? then reEnter.value.pos else edit.caret
  }

  /**
   * What a range deletion shows the host: the selection and the delete
   * command, the optional caret re-entry, all with undo recording suspended,
   * and then a single change notification.
   */
  function DeleteFromToEffects(from: CaretPosition, to: CaretPosition, rootNode: Node, edit: HostEdit): (r: seq<Effect>) {
    var reEnter := ReEnterBoundary(edit.doc, rootNode, edit.caret);
    [UndoIgnoreBegin, RangeSelected(Range(from, to)), DeleteCommandRun(Range(from, to))]
    + (if reEnter.Some? then [CaretPlaced(reEnter.value.pos)] else [])
    + [UndoIgnoreEnd, NodeChangeNotified]
  }

  /**
   * A range deletion shows the host one unit of work: everything it does lies
   * inside one suspension of undo recording, and exactly one change
   * notification follows, last.
   */
  lemma DeleteFromToIsOneStep(from: CaretPosition, to: CaretPosition, rootNode: Node, edit: HostEdit)
    ensures var effects := DeleteFromToEffects(from, to, rootNode, edit);
      && |effects| >= 5
      && effects[0] == UndoIgnoreBegin
      && effects[|effects| - 2] == UndoIgnoreEnd
      && effects[|effects| - 1] == NodeChangeNotified
      && (forall i :: 0 < i < |effects| - 2 ==>
            effects[i].RangeSelected? || effects[i].DeleteCommandRun? || effects[i].CaretPlaced?)
  {
  }

  class Editor {
    var doc: Dom
    var selection: Range
    var history: seq<Effect>
    const inlineBoundaries: bool   // whether inline boundary handling is enabled

    constructor (doc: Dom, selection: Range, inlineBoundaries: bool)
      ensures this.doc == doc && this.selection == selection && this.inlineBoundaries == inlineBoundaries
      ensures history == []
    {
      this.doc := doc;
      this.selection := selection;
      this.inlineBoundaries := inlineBoundaries;
      history := [];
    }

    /**
     * The entry point: declines unless the selection is collapsed and inline
     * boundaries are enabled; otherwise decides from the selection's start.
     */
    method BackspaceDelete(forward: bool) returns (r: Option<Action>)
      ensures !(selection.Collapsed() && inlineBoundaries) ==> r == None
      ensures selection.Collapsed() && inlineBoundaries ==> r == BackspaceDeleteCollapsed(doc, forward, selection.start)
    {
      if selection.Collapsed() && inlineBoundaries {
        var from := selection.start;
        r := BackspaceDeleteCollapsed(doc, forward, from);
      } else {
        r := None;
      }
    }

    /** editor.selection.setRng: the live selection becomes the built range. */
    method SetRng(range: DomRange)
      modifies this
      ensures selection == Range(range.start, range.end)
      ensures doc == old(doc) && history == old(history) + [RangeSelected(selection)]
    {
      selection := Range(range.start, range.end);
      history := history + [RangeSelected(selection)];
    }

    /** The host's generic delete of the current selection. */
    method ExecDeleteCommand(edit: HostEdit)
      modifies this
      ensures doc == edit.doc && selection == Range(edit.caret, edit.caret)
      ensures history == old(history) + [DeleteCommandRun(old(selection))]
    {
      history := history + [DeleteCommandRun(selection)];
      doc := edit.doc;
      selection := Range(edit.caret, edit.caret);
    }

    /** Collapses the live selection at `pos`. */
    method SetCaretPosition(pos: CaretPosition)
      modifies this
      ensures selection == Range(pos, pos)
      ensures doc == old(doc) && history == old(history) + [CaretPlaced(pos)]
    {
      selection := Range(pos, pos);
      history := history + [CaretPlaced(pos)];
    }

    /** editor.nodeChanged: the host is told the document changed. */
    method NodeChanged()
      modifies this
      ensures doc == old(doc) && selection == old(selection)
      ensures history == old(history) + [NodeChangeNotified]
    {
      history := history + [NodeChangeNotified];
    }

    /**
     * Deletes from `from` to `to` with undo recording suspended, then, if the
     * caret left behind sits at a boundary of the body (as it was read before
     * the deletion), re-renders it on the inside edge; one change
     * notification follows.
     */
    method DeleteFromTo(from: CaretPosition, to: CaretPosition, edit: HostEdit)
      modifies this
      ensures doc == edit.doc
      ensures selection == Range(CaretAfterDelete(old(doc.body), edit), CaretAfterDelete(old(doc.body), edit))
      ensures history == old(history) + DeleteFromToEffects(from, to, old(doc.body), edit)
    {
      var rootNode := doc.body;
      history := history + [UndoIgnoreBegin];
      var range := RangeFromPositions(from, to);
      SetRng(range);
      ExecDeleteCommand(edit);
      var action := ReEnterBoundary(doc, rootNode, selection.start);
      if action.Some? {
        SetCaretPosition(action.value.pos);
      }
      history := history + [UndoIgnoreEnd];
      NodeChanged();
    }

    /** The host's removal of an inline element as a unit. */
    method DeleteElementCommand(forward: bool, elm: Node, edit: HostEdit)
      modifies this
      ensures doc == edit.doc && selection == Range(edit.caret, edit.caret)
      ensures history == old(history) + [ElementRemoved(forward, elm)]
    {
      history := history + [ElementRemoved(forward, elm)];
      doc := edit.doc;
      selection := Range(edit.caret, edit.caret);
    }

    /** Runs a decided action; `edit` is what the host's deletion leaves, if one runs. */
    method Run(action: Action, edit: HostEdit)
      modifies this
      ensures action.SetCaret? ==>
        doc == old(doc) && selection == Range(action.pos, action.pos) &&
        history == old(history) + [CaretPlaced(action.pos)]
      ensures action.DeleteElement? ==>
        doc == edit.doc && selection == Range(edit.caret, edit.caret) &&
        history == old(history) + [ElementRemoved(action.forward, action.elm)]
      ensures action.DeleteRange? ==>
        doc == edit.doc &&
        selection == Range(CaretAfterDelete(old(doc.body), edit), CaretAfterDelete(old(doc.body), edit)) &&
        history == old(history) + DeleteFromToEffects(action.start, action.end, old(doc.body), edit)
    {
      match action
      case SetCaret(pos) =>
        SetCaretPosition(pos);
      case DeleteElement(forward, elm) =>
        DeleteElementCommand(forward, elm, edit);
      case DeleteRange(start, end) =>
        DeleteFromTo(start, end, edit);
    }
  }
}

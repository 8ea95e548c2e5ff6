# Inline-boundary backspace/delete

A Dafny model of how the rich-text editor handles backspace and delete next to
inline boundary elements: links, code spans and other inline "targets" that
the caret treats as one navigable unit. The file modelled is
`modules/tinymce/src/core/main/ts/delete/InlineBoundaryDelete.ts`.

When the selection is collapsed and inline boundaries are enabled, the handler
reads the caret position and classifies it against the nearest boundary
element. There are four locations: `Before`, `Start`, `End` and `After`. The
handler then returns one of four results:

- a caret move across a boundary edge that deletes nothing (`SetCaret`);
- deletion of the whole root inline element (`DeleteElement`);
- deletion of the range between the caret and the adjacent position, followed,
  when the caret is left at a boundary, by re-entering it (`DeleteRange`);
- a decline (`None`), so that the default deletion applies.

The project has four modules:

- `Optionals` (`optionals.dfy`): the optional type and the combinators the source is written in (map, bind, forall, getOr, getOrThunk, lift2).
- `Boundary` (`boundary.dfy`): caret positions, ranges, the four-case `Location` and the `Inside`/`Outside` placement. It also holds `Dom`, a record of the collaborators the handler calls. Those collaborators are not part of this model, so each one is a function-valued field: caret finding, boundary classification, root-inline lookup, parent-block lookup, position normalisation and caret rendering. A `Dom` is the document as those collaborators see it at one moment.
- `InlineBoundaryDelete` (`inline_boundary_delete.dfy`): the decision, written with the same fold/bind/lift2/getOrThunk chain as the source. Lemmas give the exact condition for each outcome.
- `Editing` (`editor.dfy`): the editor state that the returned procedures change. This is a `DomRange` class for `rangeFromPositions` and an `Editor` class with the document, the selection and a log of host calls. The entry point `backspaceDelete`, the range deletion `deleteFromTo` and the running of a decided action are methods on it.

The code differs from a loose reading of the algorithm in one case: both the current and the adjacent position are classified, but the element cannot be deleted whole. The `lift2` result is then an optional holding an optional, and `getOrThunk` returns the inner `None`. So the handler declines and never tries the range deletion. A range deletion happens only when the current position is not classified and the adjacent position is. The model follows the code here (`RangeDeletionExactly`, `DeclineExactly`).

## Model

| member | source | states |
|---|---|---|
| `Editing.Editor.BackspaceDelete` | modules/tinymce/src/core/main/ts/delete/InlineBoundaryDelete.ts:126-133 | Declines whenever the selection is not collapsed or inline boundaries are disabled. Otherwise the result is the collapsed decision at the selection's start. |
| `InlineBoundaryDelete.BackspaceDeleteCollapsed` | modules/tinymce/src/core/main/ts/delete/InlineBoundaryDelete.ts:70-124 | The collapsed decision. Its own contract says that a whole-element deletion keeps the direction of travel and that a range deletion always has the caret position as one end (its start going forward, its end going backward). The full case table is given by `CaretMoveTakesPrecedence`, `ElementDeletionExactly`, `RangeDeletionExactly` and `DeclineExactly`. |
| `InlineBoundaryDelete.RootNode` | modules/tinymce/src/core/main/ts/delete/InlineBoundaryDelete.ts:71 | The scope of every search is the parent block that `getParentBlock` gives for the caret's container below the body whenever there is one, and the body exactly when there is none. |
| `InlineBoundaryDelete.FromLocation` | modules/tinymce/src/core/main/ts/delete/InlineBoundaryDelete.ts:73 | The caret's own location is the classification of the caret against its parent block when it has one, and against the body otherwise; never against the whole body when a parent block exists. |
| `InlineBoundaryDelete.StepLocation` | modules/tinymce/src/core/main/ts/delete/InlineBoundaryDelete.ts:74-90 | A boundary step exists exactly when the caret's location is classified and the step table has a move for it. The move keeps that location, and it is `inside` exactly when the location is `Before` or `After` and `outside` exactly when it is `Start` or `End`. |
| `InlineBoundaryDelete.ToPosition` | modules/tinymce/src/core/main/ts/delete/InlineBoundaryDelete.ts:95 | The adjacent position is what navigation in the travel direction finds from the caret, bounded by the caret's parent block when it has one and by the body otherwise. |
| `InlineBoundaryDelete.ToLocation` | modules/tinymce/src/core/main/ts/delete/InlineBoundaryDelete.ts:96 | Absent when there is no adjacent position. When there is one, it is exactly the classification of that position within the same scope, so a classified adjacent position always yields a present location. |
| `InlineBoundaryDelete.ElementDeletion` | modules/tinymce/src/core/main/ts/delete/InlineBoundaryDelete.ts:98-108 | Offers a deletion exactly when a root inline encloses the original position and it has two or fewer positions left; the deletion removes that element in the travel direction. |
| `InlineBoundaryDelete.RangeDeletion` | modules/tinymce/src/core/main/ts/delete/InlineBoundaryDelete.ts:110-120 | Offers a deletion exactly when the adjacent position is classified; it runs from the caret to the adjacent position going forward and from the adjacent position to the caret going backward. |
| `InlineBoundaryDelete.Rescope` | modules/tinymce/src/core/main/ts/delete/InlineBoundaryDelete.ts:65-68 | The search scope is the parent block of the node when there is one, else the root (the body). |
| `InlineBoundaryDelete.HasOnlyTwoOrLessPositionsLeft` | modules/tinymce/src/core/main/ts/delete/InlineBoundaryDelete.ts:33-42 | True when the element has no first or no last position. Otherwise true exactly when the step after the normalised first position is absent or equals the normalised last position. |
| `InlineBoundaryDelete.NextIsLast` | modules/tinymce/src/core/main/ts/delete/InlineBoundaryDelete.ts:37-41 | After normalising the first position toward the start and the last toward the end, the step from the first is absent or equals the last. |
| `InlineBoundaryDelete.HasOnlyTwoOrLessPositionsLeftCounts` | modules/tinymce/src/core/main/ts/delete/InlineBoundaryDelete.ts:32-42 | Suppose the caret finder walks an element's positions as a list of distinct positions with no caret containers. Then the check holds exactly when that list has at most two entries. |
| `InlineBoundaryDelete.BoundaryStep` | modules/tinymce/src/core/main/ts/delete/InlineBoundaryDelete.ts:74-90 | A move exists exactly for `Before`/`End` going forward and for `Start`/`After` going backward. The move keeps the location. It goes `inside` exactly from `Before`/`After` and `outside` exactly from `Start`/`End`. |
| `InlineBoundaryDelete.BoundaryStepMirror` | modules/tinymce/src/core/main/ts/delete/InlineBoundaryDelete.ts:75-88 | The backward table is the forward table with Before/After and Start/End swapped. |
| `InlineBoundaryDelete.SetCaretLocation` | modules/tinymce/src/core/main/ts/delete/InlineBoundaryDelete.ts:44-47 | Gives a caret-setting action exactly when rendering succeeds, and that action sets the caret at the rendered position. |
| `InlineBoundaryDelete.CaretMoveTakesPrecedence` | modules/tinymce/src/core/main/ts/delete/InlineBoundaryDelete.ts:92-94 | Once a boundary step is selected, the decision is exactly what `setCaretLocation` yields, including a decline when rendering fails. |
| `InlineBoundaryDelete.CaretMoveIgnoresDeletion` | modules/tinymce/src/core/main/ts/delete/InlineBoundaryDelete.ts:94-123 | Once a boundary step is selected, the decision does not change if any of these collaborators is replaced: navigation, first/last/next position, normalisation, root-inline lookup. None of them is consulted. |
| `InlineBoundaryDelete.StepIntoWithoutDeleting` | modules/tinymce/src/core/main/ts/delete/InlineBoundaryDelete.ts:75-77 | Going forward from `Before(e)`, the result is a caret placement at the position rendered for `inside`. Nothing is deleted. |
| `InlineBoundaryDelete.NoStepBranches` | modules/tinymce/src/core/main/ts/delete/InlineBoundaryDelete.ts:94-123 | With no boundary step: if both locations are classified, the decision is the element deletion. Otherwise it is the range deletion. |
| `InlineBoundaryDelete.ElementDeletionExactly` | modules/tinymce/src/core/main/ts/delete/InlineBoundaryDelete.ts:98-108 | Whole-element deletion of `e` in the travel direction is chosen if and only if all of these hold: there is no step, both locations are present, `e` is the root inline of the original position, and it has two or fewer positions left. |
| `InlineBoundaryDelete.RangeDeletionExactly` | modules/tinymce/src/core/main/ts/delete/InlineBoundaryDelete.ts:110-122 | A range deletion is chosen if and only if the current position is unclassified and the adjacent one is classified. It deletes from the current to the adjacent position going forward, and from the adjacent to the current position going backward. |
| `InlineBoundaryDelete.DeclineExactly` | modules/tinymce/src/core/main/ts/delete/InlineBoundaryDelete.ts:70-124 | Declines if and only if one of these holds: a selected step cannot be rendered; no classified adjacent position exists; or both edges are classified but there is no root inline or it has more than two positions. |
| `InlineBoundaryDelete.NoBoundaryDeclines` | modules/tinymce/src/core/main/ts/delete/InlineBoundaryDelete.ts:95-122 | If no position in the caret's block is at a boundary, the handler declines. |
| `InlineBoundaryDelete.RangeDeletionInDocumentOrder` | modules/tinymce/src/core/main/ts/delete/InlineBoundaryDelete.ts:112-117 | When navigation moves forward and backward in a document order, every range deletion runs start before end. |
| `InlineBoundaryDelete.ReEnterBoundary` | modules/tinymce/src/core/main/ts/delete/InlineBoundaryDelete.ts:57-59 | After a range deletion, the caret is re-rendered only when the position left behind is classified against the body as read before the deletion, and then only through `inside` of that location. |
| `Editing.RangeFromPositions` | modules/tinymce/src/core/main/ts/delete/InlineBoundaryDelete.ts:23-30 | A fresh range whose start is `from` and whose end is `to`. |
| `Editing.Editor.DeleteFromTo` | modules/tinymce/src/core/main/ts/delete/InlineBoundaryDelete.ts:49-63 | Selects the range from `from` to `to`, runs the host delete on exactly that range, optionally re-enters a boundary, resumes undo recording, then notifies. It also gives the exact resulting document, selection and host-call log. |
| `Editing.DeleteFromToIsOneStep` | modules/tinymce/src/core/main/ts/delete/InlineBoundaryDelete.ts:53-62 | Every edit a range deletion makes lies inside one suspension of undo recording. Exactly one change notification follows, last. |
| `Editing.Editor.Run` | modules/tinymce/src/core/main/ts/delete/InlineBoundaryDelete.ts:101-118 | Running a caret action only places the caret and leaves the document unchanged. An element action removes the element. A range action is `deleteFromTo` on the action's ordered ends. |
| `Editing.Editor.SetRng` | modules/tinymce/src/core/main/ts/delete/InlineBoundaryDelete.ts:54 | The live selection becomes exactly the built range, the document is unchanged, and the selection call is logged. |
| `Editing.Editor.ExecDeleteCommand` | modules/tinymce/src/core/main/ts/delete/InlineBoundaryDelete.ts:55 | The host's delete runs on the current selection. It leaves the document and the collapsed caret that the host edit describes. |
| `Editing.Editor.SetCaretPosition` | modules/tinymce/src/core/main/ts/delete/InlineBoundaryDelete.ts:46 | Placing the caret collapses the live selection at exactly the rendered position, leaves the document unchanged and logs the call. |
| `Editing.Editor.NodeChanged` | modules/tinymce/src/core/main/ts/delete/InlineBoundaryDelete.ts:62 | The change notification leaves the document and the selection unchanged and appends one notification to the log. |
| `Editing.Editor.DeleteElementCommand` | modules/tinymce/src/core/main/ts/delete/InlineBoundaryDelete.ts:102 | The host's whole-element removal is called with the travel direction and the element. It leaves the document and the collapsed caret that the host edit describes. |

## Left out

- The collaborators `CaretFinder`, `BoundaryLocation.readLocation`, `InlineUtils.normalizePosition`/`findRootInline`, `CaretUtils.getParentBlock` and `BoundaryCaret.renderCaret` are not part of this model. They are uninterpreted fields of `Dom`, and no property of theirs (such as idempotent normalisation) is assumed.
- `BoundaryLocation.inside`/`outside` are not part of this model. `Placement` records which one was asked for, and the renderer interprets it.
- `renderCaret` runs while the decision is being made. It inserts or reuses a caret container and updates the caret cell. Only the position it returns is modelled, so the caret cell and that eager side effect are left out.
- `editor.selection.setRng`, `execDeleteCommand`, `DeleteElement.deleteElement`, `BoundarySelection.setCaretPosition`, `editor.nodeChanged` and `editor.undoManager.ignore` are host effects. Each is recorded as an entry in `Editor.history`. What a host deletion does to the document and caret is given by a `HostEdit` parameter.
- `Editing.DomRange.SetStart`/`SetEnd`: the DOM rule that moves the other boundary point when the new one would invert the range is not modelled. That rule needs document order, which this model does not have.
- The `Range` objects of the browser, and the aliasing between the selection and a range passed to `setRng`, are modelled as copied values.
- `forward` is optional in the source. An omitted value is falsy and behaves as backward, so the model takes a `bool`.
- The other files of the repository (dialog schema, demo harness, table dispatch, test DOM helpers) are not part of this model.

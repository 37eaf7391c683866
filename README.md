# Spreadsheet engine: cells, formulas and the dependency graph

This project models the core of a small Java spreadsheet:

- **`DAG`** holds two maps, `upstream` and `downstream`, between cell ids.
  - `add` replaces a node's upstream set.
  - A depth-first search (`checkForCycles`) looks for a cycle through the node. When it finds one, `add` rolls the graph back and reports the cycle.
  - `remove` detaches a node.
- **`Cell`** classifies trimmed contents as a number, a formula or a string.
  - It keeps a formula tree and evaluates it against the other cells.
  - The cell's value, error flag and display text are recomputed in place by `updateValue`.
- **`Spreadsheet`** holds the map from ids to cells and one `DAG`.
  - `setCell` and `deleteCell` keep the map and the graph in step.
  - After every edit, each downstream cell is re-evaluated recursively.

## Files

- `options.dfy`: the `Option` type.
- `graph.dfy` (module `Graphs`): the graph as a value with its properties.
  - The two maps are inverse to each other and keep no empty sets.
  - Acyclicity is defined through walks.
  - `Detach`, `Attach` and `Place` are the effects of `remove` and `add`.
  - `Beneath` is the set of ids reachable from a node.
  - There are lemmas for rolling back, for termination, and for the completeness of the cycle search.
- `dag.dfy` (module `Dag`): `DAG.java` as the class `Dag`.
  - Its methods change the two maps in place with loops.
  - It holds the recursive `CheckForCycles` over a mutable path list.
- `cell.dfy` (module `Cells`):
  - `String.trim`, classification of contents, formula trees and their evaluation;
  - the class `Cell`, whose derived fields `UpdateValue` rewrites.
- `sheet.dfy` (module `Sheets`): `Spreadsheet.java` as the class `Spreadsheet`.
  - The class invariant says that every formula's references are exactly its upstream links in the graph.
  - The invariant also says that every cell is *settled*: its derived fields are what `updateValue` would compute from the current sheet.
  - `SetCell`, `DeleteCell` and the recursive `NotifyDownstreamOfChange` keep this invariant.
  - A ghost field `views` mirrors the cell objects as values.

`DAG.java` and most of `Cell.java` are skeletons: the method bodies return `null` or `false`, and the required behaviour is written in each method's comment. Those comments are what the model implements. Two choices follow from them:

- A reference in a formula reads the referenced cell's current number value ("use the given map to retrieve the number value of cells", `Cell.java:146-150`). It does not re-evaluate that cell's tree.
- `Cell.make` on contents that are blank after trimming gives no cell (`Cell.java:39-40`), as the comment says. The skeleton would fail at `charAt(0)`; either way `setCell` raises an exception.

Two operations are parameters of the model:

- `Double.parseDouble`, the number parser.
- `FNode.parseFormulaString`, the formula parser.

Both are fields of the `Reader` datatype. A failed formula parse is `None`.

## Model

| member | source | states |
|---|---|---|
| Graphs.Empty | DAG.java:7-10 | the empty graph is valid (inverse, no empty sets, acyclic) and has no links at all |
| Graphs.Detach | DAG.java:97-105 | after `remove`, `id` has no upstream set, every other upstream set is unchanged, and `id` leaves the downstream set of each of its former upstream ids and of no other id |
| Graphs.Attach | DAG.java:57-58 | after attaching, `id`'s upstream set is `ups`, other upstream sets are unchanged, and `id` is added to the downstream set of each id in `ups` and of no other |
| Graphs.DetachWellFormed | DAG.java:97-105 | `remove` keeps the two maps inverse and free of empty sets |
| Graphs.AttachWellFormed | DAG.java:57-58 | attaching an upstream set to a node that has none keeps the two maps inverse and free of empty sets |
| Graphs.PlaceWellFormed | DAG.java:57-60 | `add`'s replacement of an upstream set keeps the two maps inverse and free of empty sets |
| Graphs.DetachWithoutUpstreamIsNoOp | DAG.java:97-99 | removing an id that has no upstream dependencies changes nothing |
| Graphs.PlaceEmptyIsDetach | DAG.java:59-60 | `add` with an empty upstream set has exactly the effect of `remove` |
| Graphs.DetachKeepsOwnDownstream | DAG.java:97-99 | `remove` eliminates only `id`'s upstream links: in an acyclic graph its own downstream set is untouched |
| Graphs.NoSelfLoop | DAG.java:62-66 | an acyclic graph has no edge from a node to itself |
| Graphs.DetachPlace | DAG.java:62-66 | removing the tentative edges of `add` gives back the detached graph |
| Graphs.AttachDetach | DAG.java:62-66 | re-attaching a node's old upstream set after detaching it gives back the original graph |
| Graphs.Rollback | DAG.java:62-66 | `add`'s revert restores the original graph exactly, "so it appears there is no change" |
| Graphs.PlaceIdempotent | DAG.java:57-60 | adding the same upstream set twice is the same as adding it once |
| Graphs.DetachAcyclic | DAG.java:97-105 | `remove` keeps the graph acyclic |
| Graphs.DetachValid | DAG.java:97-105 | `remove` keeps the graph valid |
| Graphs.ReversedWalk | Spreadsheet.java:192-194 | reading a downstream walk backwards gives an upstream walk from its last id to its first |
| Graphs.InverseAcyclic | Spreadsheet.java:192-194 | with inverse maps, an acyclic upstream map makes the downstream map acyclic too, so following downstream links never comes back |
| Graphs.NoReturnFromNeighbours | DAG.java:77-88 | once every neighbour of the path's end differs from its start and leads nowhere back, no walk from the end returns to the start while avoiding the path |
| Graphs.CutAtLastVisit | DAG.java:77-88 | a walk from a node off the path back to the path's start, avoiding the path, means the search one level deeper (the path with that node appended) has a way back too |
| Graphs.ClosesCycleNotAcyclic | DAG.java:85-87 | a cycle the search reports is a walk from `id` back to `id` of length two or more, so the graph is not acyclic |
| Graphs.FirstReturn | DAG.java:90-92 | a closed walk through `x` gives a way back to `x` that the search seeded with `[x]` looks for |
| Graphs.PlaceAcyclic | DAG.java:62-66 | the graph `add` tries to commit is acyclic exactly when the search seeded with `[id]` finds no way back to `id` |
| Graphs.ClosedWalkThrough | DAG.java:62-66 | every cycle in the placed graph passes through `id`, so it gives a way back to `id` |
| Graphs.WalkAvoiding | DAG.java:62-66 | a walk of the placed graph that never leaves from `id` is a walk of the detached graph |
| Graphs.Rotate | DAG.java:62-66 | a closed walk can be rotated to start and end at any of its ids |
| Graphs.BeneathIsReach | Spreadsheet.java:192-194 | the ids below `x` are exactly those reachable from `x` by one edge or more |
| Graphs.BeneathStep | Spreadsheet.java:192-194 | a downstream neighbour is below its node, and so is everything below it |
| Graphs.BeneathClosed | Spreadsheet.java:192-194 | the set below a node is closed under taking neighbours |
| Graphs.BeneathSplit | Spreadsheet.java:192-194 | whatever is below `x` is a neighbour of `x` or below one |
| Graphs.NotBeneathItself | Spreadsheet.java:192-194 | in an acyclic graph no id is below itself |
| Graphs.BeneathShrinks | Spreadsheet.java:192-194 | in an acyclic graph a neighbour has strictly less below it, which is why the recursion terminates |
| Graphs.InverseAt | DAG.java:31-45 | with inverse maps, `b` is upstream of `id` exactly when `id` is downstream of `b`, in both directions |
| Dag.CheckForCycles | DAG.java:77-95 | returns true with the path extended into a cycle back to its first id, or returns false with the path exactly as it was and no walk from the end of the path back to its start that avoids the path |
| Dag.FindCycle | DAG.java:90-92 | the search seeded with `[id]` either returns a cycle through `id` or shows there is no way back to `id` |
| Dag.PathList.constructor | DAG.java:90-92 | the path list starts out holding exactly the given ids |
| Dag.Dag.constructor | DAG.java:7-10 | a new DAG is valid and has no links |
| Dag.Dag.GetUpstreamLinks | DAG.java:31-37 | empty when `id` has no links; `b` is in the result exactly when `id` is downstream of `b`; never `id` itself |
| Dag.Dag.GetDownstreamLinks | DAG.java:39-45 | empty when `id` has no links; `a` is in the result exactly when `id` is upstream of `a`; never `id` itself |
| Dag.Dag.Remove | DAG.java:97-105 | the new maps are `Detach` of the old ones, and remain inverse, free of empty sets and acyclic |
| Dag.Dag.DropEdges | DAG.java:97-98 | the loop takes `id` out of each former upstream node's downstream set and drops sets that become empty |
| Dag.Dag.AddEdges | DAG.java:57-58 | the loop records `ups` as `id`'s upstream set and adds `id` to each downstream set |
| Dag.Dag.Add | DAG.java:57-75 | succeeds exactly when the replaced graph is acyclic and then commits it; on a cycle, leaves both maps as they were and returns a walk of length two or more from `id` back to `id` in the graph that would have resulted; the DAG is valid afterwards either way |
| Dag.Dag.Restore | DAG.java:62-66 | the revert gives back the graph from before `add` |
| Cells.Trim | Cell.java:51 | `String.trim`: the result is a slice of the input with only white space before and after it, and does not itself start or end with white space; it is empty exactly when every character is white space |
| Cells.StoredIsTrimmed | Cell.java:107-112 | a cell's stored text is non-empty and its own trim |
| Cells.TrimIdempotent | Cell.java:38-39 | trimming twice is trimming once |
| Cells.Classify | Cell.java:50-64 | blank exactly when the trimmed text is empty; the kind is number exactly when the trimmed text parses as a double, which is tried first; otherwise formula when it starts with '=' (malformed exactly when the formula parser fails); otherwise string; the kept text is the trimmed contents, and a number cell's value is what the number parser reads from it |
| Cells.Initial | Cell.java:43-49 | a new formula cell is in error, shows ERROR and has no number value until updated; other kinds show their own text and are never in error |
| Cells.ParsedIsValid | Cell.java:38-49 | classified contents give a valid initial cell whose text is already trimmed |
| Cells.Make | Cell.java:32-64 | no cell exactly for blank contents; a failure exactly for a malformed formula; otherwise a fresh valid cell in its initial state |
| Cells.EvalFailsIff | Cell.java:146-150 | evaluation fails exactly when some referenced id is blank, a string cell or a formula in error |
| Cells.EvalDependsOnRefs | Cell.java:146-150 | evaluation reads nothing but the cells the formula references |
| Cells.Refresh | Cell.java:116-127 | number and string cells are left alone; a formula is in error exactly when its tree cannot be evaluated and otherwise takes the evaluated value; contents never change and validity is kept |
| Cells.RefreshDependsOnRefs | Cell.java:116-127 | `updateValue` only depends on the values of the referenced cells |
| Cells.BlankReferenceErrors | Cell.java:72-76 | a settled formula that references a blank id is in error and shows ERROR |
| Cells.Cell.constructor | Cell.java:28-30 | a new cell holds its content in its initial state |
| Cells.Cell.Kind | Cell.java:66-70 | the kind is formula or number exactly for those contents |
| Cells.Cell.IsError | Cell.java:72-79 | only a formula can be in error, and exactly when it shows ERROR |
| Cells.Cell.DisplayString | Cell.java:81-93 | the contents for number and string cells; for formulas, ERROR exactly when in error and otherwise the value |
| Cells.Cell.NumberValue | Cell.java:95-105 | null for strings, the parsed number for numbers, and for formulas null exactly when in error |
| Cells.Cell.Contents | Cell.java:107-114 | exactly the cell's text as classified (the trimmed contents), non-empty and already trimmed |
| Cells.Cell.UpstreamIds | Cell.java:167-179 | empty for number and string cells, and exactly the reference leaves of the tree for formulas |
| Cells.Cell.UpdateValue | Cell.java:116-135 | the new state is the re-evaluation of the old state over the map as it stood before the call; the cell stays valid |
| Cells.Snapshot | Cell.java:133 | the map of cell objects read as views: an id mapped to null is blank |
| Sheets.VerifyIdFormat | Spreadsheet.java:105-118 | accepts exactly the ids matching `^[A-Z]+[1-9][0-9]*$` |
| Sheets.CoherentSameContents | Spreadsheet.java:170-174 | the graph's agreement with the map depends only on which ids hold which contents |
| Sheets.KeepsSettled | Spreadsheet.java:192-194 | a settled cell stays settled when only cells in a downward-closed set it is not in have changed |
| Sheets.SettledAfterRefresh | Spreadsheet.java:203-204 | re-evaluating a cell that does not reference itself settles it and changes no contents |
| Sheets.RefreshThenBelow | Spreadsheet.java:202-205 | updating a downstream cell and then notifying below it settles that cell and all below it, changes nothing else, and keeps every other settled cell settled |
| Sheets.StepProgress | Spreadsheet.java:199-206 | one turn of the notify loop extends the settled, downward-closed part below `id` by the current cell and all below it |
| Sheets.CoversAll | Spreadsheet.java:199-206 | once the loop has covered every downstream cell, everything below `id` is covered |
| Sheets.BlankReferencesError | Spreadsheet.java:140-151 | in a settled sheet, every formula that references an empty id is in error |
| Sheets.CoherentAfterDelete | Spreadsheet.java:147-149 | removing the cell and detaching its id keeps the map and the graph in agreement |
| Sheets.CoherentAfterPlace | Spreadsheet.java:170-176 | installing a cell with its references as its new upstream set keeps the map and the graph in agreement |
| Sheets.EditSettles | Spreadsheet.java:176-178 | the whole sheet is settled again once the edited cell and everything below it are |
| Sheets.SetCellAsWritten | Spreadsheet.java:163-168 | as written: when `make` throws for a well-formed id, the entry for `id` is already gone, the graph is untouched, and no other entry has changed |
| Sheets.SetCellAsWrittenLosesCoherence | Spreadsheet.java:165-168 | as written, a failed `make` on a formula cell with references leaves the graph claiming references that no cell holds |
| Sheets.Spreadsheet.constructor | Spreadsheet.java:15-19 | a new sheet is empty and satisfies the invariant |
| Sheets.Spreadsheet.GetCellDisplayString | Spreadsheet.java:120-128 | "" for an empty id; for a number or string cell, its text; for a formula, ERROR exactly when its tree cannot be evaluated over the current sheet, otherwise that value |
| Sheets.Spreadsheet.GetCellContents | Spreadsheet.java:130-138 | "" for an empty id, else the cell's trimmed text |
| Sheets.Spreadsheet.SetCell | Spreadsheet.java:153-190 | empty contents have exactly `deleteCell`'s effect (nothing changes for an empty id; otherwise the cell leaves the map and the graph, no other cell's contents change, and only the cells below `id` are re-evaluated); a bad id or contents that make no cell fail with nothing changed; succeeds exactly when the new upstream set keeps the graph acyclic; a cycle fails with graph and cells as before and a cycle through `id` reported; on success, `id` holds the new contents, the graph has its references as `id`'s upstream set, every other cell keeps its contents, only `id` and the cells below it are re-evaluated, and the invariant holds again |
| Sheets.Spreadsheet.ReplaceCell | Spreadsheet.java:172-189 | the try/catch around `dag.add`: a cycle error with nothing changed, or the new cell installed and everything below it re-evaluated with every other cell's contents unchanged; succeeds exactly when the replaced graph is acyclic |
| Sheets.Spreadsheet.PlaceCell | Spreadsheet.java:166-184 | after `dag.add`: on a cycle, the old entry is put back (null if there was none) and graph and views are unchanged; on success, the new cell is in the map and the graph is placed |
| Sheets.Spreadsheet.RestoreCell | Spreadsheet.java:184 | `cellMap.put(id, oldCell)` leaves every view as it was |
| Sheets.Spreadsheet.InstallCell | Spreadsheet.java:176 | `cellMap.put(id, newCell)`: the map and the views gain the new cell at `id` |
| Sheets.Spreadsheet.CommitCell | Spreadsheet.java:176-178 | after `updateValue` and notification, the sheet is settled, cell objects and contents are unchanged, and only `id` and what lies below it differ from before the edit |
| Sheets.Spreadsheet.DeleteCell | Spreadsheet.java:140-151 | nothing at all changes for an empty id (cells, views and graph); otherwise the cell leaves the map and the graph; contents elsewhere are unchanged; only cells below `id` are re-evaluated; every formula that referenced `id` is in error; the invariant holds again |
| Sheets.Spreadsheet.RemoveCell | Spreadsheet.java:147-149 | `cellMap.remove` and `dag.remove` together take `id` out of the map and detach it from the graph, keeping them in agreement |
| Sheets.Spreadsheet.DropCell | Spreadsheet.java:148 | `cellMap.remove(id)` takes `id` out of the map and the views and changes nothing else |
| Sheets.Spreadsheet.UpdateCell | Spreadsheet.java:203-204 | `cellMap.get(d).updateValue(cellMap)` changes only the view at `d`, to its re-evaluation over the sheet before the call |
| Sheets.Spreadsheet.NotifyOne | Spreadsheet.java:202-205 | one downstream cell is updated and then notified: it and all below it are settled, settled cells elsewhere stay settled, and nothing else changes |
| Sheets.Spreadsheet.NotifyDownstreamOfChange | Spreadsheet.java:192-207 | terminates because the graph is acyclic; afterwards every cell below `id` is settled, no other cell and no contents have changed, and the map and the graph still agree |

## Left out

- `toString` of `DAG` and `Spreadsheet`, `toSaveString` and `fromSaveString` are not modelled. They are text formatting and parsing (`Scanner`, `String.format`), with no effect on the cells or the graph.
- Java `double` arithmetic is modelled as exact `real` arithmetic. Division by zero gives the placeholder 0.0; Java would give an infinity or NaN. The error flag is exact: only an unusable reference makes a formula fail.
- `Cells.Cell.DisplayString`: a formula's value is returned as a number (`Shown`) rather than as the text `String.format` would produce with one decimal digit, because number formatting is not modelled.
- `Double.parseDouble` and `FNode.parseFormulaString` are parameters of `Cells.Reader`, not modelled. Tokenising and parsing formulas are outside this core.
- The regular expression of `verifyIDFormat` is written out as a character-class scan, not run as a regex.
- An exception's message text is not modelled. `Sheets.SheetError` keeps the id, the contents and the cycle path that the messages are built from.
- A null `contents` argument of `setCell` is not modelled: strings are values, so the empty string stands for both.
- `Sheets.Spreadsheet.PlaceCell` does not model `cellMap.remove(id)` at line 166 as a separate step before `dag.add`. Nothing reads the map in between, so only the net effect is modelled: on success the new cell is stored, on a cycle the old entry is put back.
- The iteration order of Java's `HashMap` and `HashSet` is not modelled. `notifyDownstreamOfChange` and the cycle search pick their next element with `:|`, so the proofs hold for every order.
- `Sheets.Spreadsheet.NotifyDownstreamOfChange`: the model iterates over the downstream set read at the start of the call, as the Java iterator does. Whether that set could change during the loop is not a question, because notification never changes the graph.

## Findings

| source | as written | input that shows it | evidently intended | confidence | as-written member | corrected member |
|---|---|---|---|---|---|---|
| Spreadsheet.java:163-168 | `cellMap.remove(id)` runs before `Cell.make(contents)`. When `make` throws (contents blank after trimming, or a formula that does not parse), the exception leaves the cell removed while the DAG still has its upstream links | sheet with `A1` = `=B2` (graph A1→B2), then `setCell("A1", "   ")`: `make` trims to "", `charAt(0)` throws, and `A1` is gone from the map while the graph still lists B2 upstream of A1 | a rejected `setCell` leaves the sheet as it was: make the cell first, then touch the map | not executed | Sheets.SetCellAsWrittenLosesCoherence | Sheets.Spreadsheet.SetCell |

# Table grid engine, modelled in Dafny

This project models the table engine of the jodit editor (`src/modules/Table.ts`, the static
class `Table`) and proves properties of the model.

An HTML table is a list of rows, and each row is a list of cells. Every cell has an identity,
optional `colspan`/`rowspan` attributes, an optional `class`, the selected-cell marker and its
content. The engine projects the table onto a *formal matrix*: each cell goes at the first free
column of its row, and its identity is stamped into every slot of its `rowspan × colspan`
rectangle. Rows and columns are inserted and removed through that matrix. So are the
selection rectangle and its merge into one cell, and the halving of selected cells.

The modules follow the structure of the source:

| file | module | models |
|---|---|---|
| `wrappers.dfy` | `Wrappers` | `Option` |
| `cells.dfy` | `Cells` | cell records, the span getters (`cell.colSpan`, `cell.rowSpan`), span writes, the per-cell write queue of `__mark` |
| `matrix.dfy` | `Matrix` | `formalMatrix` (its `setCell` stamping and the row-by-row loop), `getColumnsCount` |
| `dom.dfy` | `Dom` | the row/cell tree: `parentNode`, `removeChild`, `insertBefore`, `Dom.after`, and the marker query of `getAllSelectedCells` |
| `coordinate.dfy` | `Coordinates` | `formalCoordinate` |
| `marks.dfy` | `Marks` | `__mark` / `__unmark` on a whole table |
| `bound.dfy` | `Bounds` | `getSelectedBound` |
| `normalize.dfy` | `Normalization` | `normalizeTable` |
| `rows.dfy` | `RowOps` | `appendRow`, `removeRow` |
| `columns.dfy` | `ColumnOps` | `appendColumn`, `removeColumn` |
| `merge.dfy` | `Merging` | `mergeSelected` |
| `split.dfy` | `Splitting` | `splitVertical`, `splitHorizontal` |
| `stale.dfy` | `SplitFinding` | a four-row table on which `splitHorizontal` misplaces a cell |
| `hole.dfy` | `HoleExample` | a table with an empty row no span reaches into, on which the operations that read that matrix row throw |
| `table.dfy` | `Engine` | class `Table`: the table as mutable state, with every operation as a method whose loops follow the source |

Each operation has two layers:

- **Specification.** A pure function on a table value `Doc` (rows of cell identities, a map
  from identity to cell record, and the next fresh identity). The lemmas about it state what
  the source promises.
- **Implementation.** A method of the class `Engine.Table` (fields `rows`, `cells`, `next`, the
  `__marked` list `marked` and the queued writes `pending`). Its loops follow the source. Its
  `ensures` ties the outcome and the new state to the specification function applied to the
  old state.

An operation that can raise a DOM exception returns an `Outcome`: `Done(doc)` or
`Thrown(doc)`. `Thrown` keeps the writes made before the exception, as the browser does.

## Model

| member | source | states |
|---|---|---|
| Cells.SpanValue | src/modules/Table.ts:69-71 | the span a cell reports is at least 1; it is 1 exactly when the attribute is absent or at most 1, and otherwise it is the attribute's value |
| Cells.SpanAttr | src/modules/Table.ts:191-195 | writing span `v` sets the attribute only when `v > 1` and removes it otherwise, so reading it back gives `v` when `v > 1` and 1 otherwise |
| Cells.NewCell | src/modules/Table.ts:571-572 | a created cell spans one slot, is not selected and holds the given content |
| Cells.QueueLastWins | src/modules/Table.ts:601-607 | `__mark` with the same key twice keeps only the later value |
| Cells.QueueCommutes | src/modules/Table.ts:601-607 | `__mark` writes to different keys do not interfere: their order does not matter |
| Cells.ApplyAttrs | src/modules/Table.ts:617-630 | `__unmark` leaves a cell with the queued rowspan/colspan (1 when at most 1), or its old span where none is queued; class, marker and content keep their values |
| Matrix.FirstFree | src/modules/Table.ts:75-77 | the column found is the first empty slot from the start column, or the row's end |
| Matrix.SetCellSlot | src/modules/Table.ts:64-90 | after `setCell`, a slot holds the cell exactly when it lies in the cell's rectangle at the first free column of its row; every other slot keeps its value |
| Matrix.BuildHeight | src/modules/Table.ts:79-83 | the matrix has a row for every row a cell's rowspan reaches |
| Matrix.BuildSlot | src/modules/Table.ts:92-99 | each slot of the matrix holds the cell whose rectangle was stamped over it last, and is empty when none covers it |
| Matrix.PlaceCols | src/modules/Table.ts:92-99 | each cell's formal column is the first free column of its row in the matrix built from the cells before it |
| Matrix.FormalSlotPlaced | src/modules/Table.ts:60-102 | every filled slot of the formal matrix holds a cell of the table |
| Matrix.Width | src/modules/Table.ts:45-50 | the column count is the length of the longest matrix row: no row is longer and some row reaches it (0 for no rows) |
| Matrix.LastCover | src/modules/Table.ts:87 | the last placement whose rectangle covers a slot: it covers the slot and no later placement does |
| Matrix.FormalUndefined | src/modules/Table.ts:60-102 | a matrix row is undefined only where the table has a row without cells that no span above reaches into |
| Matrix.FilledRowsDefined | src/modules/Table.ts:60-102 | a table whose every row past the first holds a cell has no undefined matrix row |
| Matrix.TiledRows | src/modules/Table.ts:92-99 | in a tiled table a cell's placement row is the only row holding it |
| Matrix.TiledSlot | src/modules/Table.ts:60-102 | in a tiled table a slot holds a cell exactly when the cell's rectangle covers it |
| Matrix.TiledCell | src/modules/Table.ts:60-102 | in a tiled table the slots holding the cell of an occupied slot are exactly those its rectangle covers, and its placement row is the only row holding it |
| Dom.Parent | src/modules/Table.ts:171 | `cell.parentNode`: the first row holding the cell, or none when no row holds it |
| Dom.ChildIndex | src/modules/Table.ts:180-184 | the index found holds the child and no earlier index does |
| Dom.InsertAfter | src/modules/Table.ts:580 | `Dom.after` puts the new cell right after the first occurrence of the anchor; the rest of the row keeps its order |
| Dom.InsertBefore | src/modules/Table.ts:180-184 | `insertBefore` puts the new cell right before the first occurrence of the reference child; the rest of the row keeps its order |
| Dom.ParentSame | src/modules/Table.ts:171 | two trees holding a cell in the same rows give it the same `parentNode` |
| Dom.Flat | src/modules/Table.ts:29-31 | the tree in document order holds exactly the cells of the rows |
| Dom.Marked | src/modules/Table.ts:29-31 | the filter keeps exactly the listed cells that carry the marker |
| Dom.AllSelected | src/modules/Table.ts:29-31 | `getAllSelectedCells` lists exactly the cells in the tree that carry the selected marker |
| Dom.MarkedSnoc | src/modules/Table.ts:29-31 | one more cell in document order adds itself to the selection exactly when marked |
| Coordinates.IndexOf | src/modules/Table.ts:113-114 | the first placement of the cell in document order, or the end when it is absent |
| Coordinates.CoordinateShape | src/modules/Table.ts:107-128 | a cell in the table gets its own row, a column, and its colspan and rowspan; with `max` the row and column move to its last slot; a cell never met gets `[0, 0, 1, 1]` |
| Coordinates.CoordinateFound | src/modules/Table.ts:113-125 | the scan stops at the cell's first placement: its row, and the first free column of the matrix built so far |
| Coordinates.CoordinateEncloses | src/modules/Table.ts:107-128 | every slot holding the cell lies between its coordinate and its `max` coordinate |
| Coordinates.PlacementOf | src/modules/Table.ts:92-99 | every child of every row is met by the scan |
| Marks.MarkWrite | src/modules/Table.ts:601-607 | `__mark` records the cell and queues one write for it; the other cells' queues are unchanged |
| Marks.Keep | src/modules/Table.ts:614-616 | a row keeps exactly the children whose queue holds no remove |
| Marks.ApplyPending | src/modules/Table.ts:609-640 | `__unmark` leaves the row count, the cell set and the counter unchanged, and every row keeps exactly its cells with no queued remove |
| Marks.ApplyNothing | src/modules/Table.ts:609-640 | draining an empty queue changes nothing |
| Marks.ApplyOneMore | src/modules/Table.ts:609-640 | draining one more cell's queue detaches it when a remove is queued and applies its span writes |
| Marks.ApplyPendingUntouched | src/modules/Table.ts:609-640 | a cell with nothing queued keeps its record and its place in every row |
| Marks.KeepOneMore | src/modules/Table.ts:614-616 | one more queued cell removes it from the row exactly when its queue holds a remove |
| Bounds.Include | src/modules/Table.ts:280-285 | the four min/max updates give a rectangle holding the new slot and the old rectangle |
| Bounds.FirstPassRow | src/modules/Table.ts:279-286 | the first pass over a row keeps the rectangle inside the matrix |
| Bounds.FirstPassTight | src/modules/Table.ts:278-287 | the first pass ends with the smallest rectangle around the selected slots |
| Bounds.EnclosingExact | src/modules/Table.ts:274-287 | the first pass finds no rectangle exactly when no slot is selected; otherwise its rectangle holds every selected slot, and each of its edges passes through one |
| Bounds.ScanSlot | src/modules/Table.ts:290-312 | the four walks from one slot only widen the rectangle and keep it inside the matrix; each side they move lands on a slot holding the same cell as the start slot, in its row or column; a neighbour slot holding that cell is always taken in |
| Bounds.ScanRows | src/modules/Table.ts:288-314 | the second pass only widens the rectangle and keeps it inside the matrix |
| Bounds.ScanRowsSpreads | src/modules/Table.ts:288-314 | every side the second pass moves lies on a slot holding the same cell as a slot inside the new rectangle, in the same row or column |
| Bounds.SelectionBoundCovers | src/modules/Table.ts:273-317 | getSelectedBound throws exactly when the matrix has an undefined row; otherwise the bound is the no-selection sentinel exactly when no slot is selected, and else a rectangle inside the matrix that contains every selected slot and grew from the first pass's rectangle only onto slots of cells it met |
| Normalization.NormalizeMarksTrim | src/modules/Table.ts:332-379 | the queued writes of both sweeps only trim: no remove, only cells of the matrix, each queued span between 1 and the cell's span |
| Normalization.MarkColumnValue | src/modules/Table.ts:346-353 | after a column is marked, every cell met in it from the start row on has `colspan - min + 1` queued, and a cell already holding that value keeps it |
| Normalization.MarkRowValue | src/modules/Table.ts:371-378 | after a row is marked, every cell met in it from the start column on has `rowspan - min + 1` queued, and a cell already holding that value keeps it |
| Normalization.GridIdsHold | src/modules/Table.ts:382-384 | the cells the clean-up visits are exactly those in some slot of the matrix |
| Normalization.TidyAll | src/modules/Table.ts:382-397 | the clean-up over every slot comes to tidying exactly the set of matrix cells, however often a cell is met |
| Normalization.NormalizeKeepsRows | src/modules/Table.ts:323-400 | normalizeTable throws exactly when the matrix has an undefined row, and then changes nothing; it removes no cell: the tree, the cell set and the counter are unchanged |
| Normalization.LastColumnTrimIsLast | src/modules/Table.ts:332-356 | the colspan the column sweep queues last for a cell comes from the highest column holding it whose scan finds no colSpan below 2, and there is none exactly when no such column exists |
| Normalization.LastRowTrimIsLast | src/modules/Table.ts:358-379 | the rowspan the row sweep queues last for a cell comes from the lowest row holding it whose scan finds no rowSpan below 2, and there is none exactly when no such row exists |
| Normalization.MarksSpans | src/modules/Table.ts:332-379 | the queued colspan and rowspan of a cell are those last trims |
| Normalization.NormalizeSweepsThrow | src/modules/Table.ts:332-379 | the two sweeps, stopped where they read an undefined row, throw exactly when the matrix has one; otherwise they queue the writes normalizeTable applies |
| Normalization.ColumnSweepBroken | src/modules/Table.ts:332-354 | on a matrix with an undefined row the colspan sweep queues nothing: a column is marked only after its scan passed every row, and that scan cannot pass the undefined one without throwing; the sweep throws exactly when the scan of some column reaches that row |
| Normalization.RowSweepBroken | src/modules/Table.ts:357-379 | with `u` the first undefined row, the rowspan sweep throws at `u` (`box[i].length`) after queuing exactly the writes of the rows above `u` |
| Normalization.NormalizeLeftover | src/modules/Table.ts:328-379 | when normalizeTable throws, the `__marked_value` records it leaves are none if the scan of some column reached the first undefined row, and otherwise the rowspan writes of the rows above it |
| Normalization.NormalizeCell | src/modules/Table.ts:323-400 | when normalizeTable completes, each cell of the matrix ends with the span its last trim gives, or its old span when no trim is queued; spans never widen; content and marker are kept; a cell of the matrix ends with no span attribute of 1 and no empty class; any other cell is untouched |
| RowOps.CreateCells | src/modules/Table.ts:142-144 | the created cells are new, plain and empty; the old records are unchanged |
| RowOps.RowPositionCases | src/modules/Table.ts:146-152 | the new row goes after `line` when `after` is set, before it otherwise, and at the end when no line is given |
| RowOps.AppendRowShape | src/modules/Table.ts:137-153 | appendRow inserts exactly one row at that position, holding one new plain cell per formal column; every other row and record is unchanged |
| RowOps.RunEnd | src/modules/Table.ts:173-176 | the column found is the first one after the cell's run in the next row |
| RowOps.ShrinkTrims | src/modules/Table.ts:189-196 | the rowspan decrement changes only the cell's rowspan, and never raises it |
| RowOps.Trim | src/modules/Table.ts:189-196 | the rowspan decrement changes only the rowspan, to one less, or to 1 when two or fewer rows were spanned |
| RowOps.RemoveRowEffect | src/modules/Table.ts:161-202 | removeRow keeps the tree closed; it changes only rowspans, never raises them, and touches only cells of the removed row's slots |
| RowOps.RemoveRowExact | src/modules/Table.ts:161-202 | in a tiled table, when removeRow completes: exactly the cells reaching into the row from above, or moving down, lose one row of span and nothing else changes in any record; the rows above are unchanged; the row is gone; the cells of the row that do not move leave the tree; the next row holds its old cells and the moved ones, and the rows below it are unchanged |
| RowOps.DropRowTree | src/modules/Table.ts:199-201 | removing the row adds no cell to the tree |
| RowOps.TwoTallMatrix | src/modules/Table.ts:60-102 | two cells side by side, each spanning both rows, fill the full 2 × 2 matrix |
| RowOps.RemoveRowTwoTall | src/modules/Table.ts:180-184 | as written, removeRow(0) on that table throws before anything changes |
| RowOps.RemoveRowFixedThrows | src/modules/Table.ts:161-202 | with the fix, removeRow throws exactly when the removed formal row has a hole, or the row above it is undefined and the removed row has slots |
| RowOps.RemoveRowFixedTwoTall | src/modules/Table.ts:180-184 | with the fix, removeRow(0) on the same table completes |
| ColumnOps.AppendColumnEffect | src/modules/Table.ts:208-235 | appendColumn keeps the tree closed; every identity it hands out is a new plain empty cell, one per matrix row when it completes (a row whose cell is widened still gets a cell record, outside the tree); only new cells join the tree; only cells of the target column change, and only by a wider colspan |
| ColumnOps.AppendColumnSlotExact | src/modules/Table.ts:213-233 | for one matrix row: the new cell is created; an empty slot throws; at an edge of the slot's cell the new cell goes right after (or before) that cell in its row, and throws when the cell has no row; elsewhere the cell widens by one and nothing else changes |
| ColumnOps.AppendColumnExact | src/modules/Table.ts:208-235 | when appendColumn completes, every old cell's colspan is widened once for each row in which the boundary crosses it, and nothing else of its record changes; old cells stay in the same rows; each row's new cell is in the tree exactly when the boundary is an edge of the row's cell, and then in that cell's row |
| ColumnOps.AppendColumnThrows | src/modules/Table.ts:213-233 | appendColumn throws exactly when some matrix row has no cell in the target column |
| ColumnOps.RemoveColumnEffect | src/modules/Table.ts:243-264 | removeColumn only removes cells of column `j`; it only narrows the colspan of cells of that column and changes nothing else |
| ColumnOps.RemoveColumnDone | src/modules/Table.ts:246-263 | removeColumn completes when every matrix row has a cell in column `j`, and throws only when one has none |
| ColumnOps.RemoveColumnThrows | src/modules/Table.ts:246-263 | removeColumn throws exactly when some matrix row has no cell in column `j` |
| ColumnOps.RemoveColumnExact | src/modules/Table.ts:243-264 | in a tiled table, when removeColumn completes: the cells of column `j` that span one column leave their rows and nothing else leaves; those that span more lose one column of span; every other record is unchanged |
| ColumnOps.NarrowCell | src/modules/Table.ts:255-261 | the colspan decrement changes only the colspan, to one less, or to 1 when two or fewer columns were spanned |
| Merging.StripBreaks | src/modules/Table.ts:435 | dropping `<br>` and `<br/>` never lengthens the content |
| Merging.StripBreaksNoBreak | src/modules/Table.ts:435 | content holding no `<br` is left unchanged |
| Merging.StripBreaksLeading | src/modules/Table.ts:435 | a leading `<br>` or `<br/>` is dropped and the rest is stripped as on its own |
| Merging.MeetsSlot | src/modules/Table.ts:421-423 | a cell is met exactly when one of the slots it is stamped into lies inside the bound |
| Merging.GatherMet | src/modules/Table.ts:421-454 | the cells gathered are exactly those with a slot inside the bound |
| Merging.GatherDistinct | src/modules/Table.ts:425-429 | each cell is gathered once, however many slots it has inside the bound |
| Merging.GatherHtml | src/modules/Table.ts:435-437 | the collected contents are the non-blank contents of the gathered cells, in the order met |
| Merging.GatherMarks | src/modules/Table.ts:446-451 | a remove is queued for exactly the gathered cells after the first |
| Merging.MergeSelectedEffect | src/modules/Table.ts:408-490 | mergeSelected throws, changing nothing, exactly when the matrix has an undefined row. When the bound covers more than one slot and meets a cell: the final normalization throws exactly when the merged table has an undefined row; the first cell met survives and every other cell met leaves the tree; the survivor holds the `<br/>`-join of the non-blank contents; its spans do not exceed the bound's width and height; when it completes no empty row is left; other cells keep content and marker and never widen |
| Merging.MergeSelectedClosed | src/modules/Table.ts:408-490 | mergeSelected keeps a closed tree closed, whether it completes or throws |
| Merging.MergeSelectedNoop | src/modules/Table.ts:420 | with no selection, or a bound of one slot, mergeSelected changes nothing |
| Splitting.WalkSnoc | src/modules/Table.ts:92-99 | the callback walk over one more placement is one more step at that placement's formal column |
| Splitting.WalkMarks | src/modules/Table.ts:513-517 | the grow walk queues a write for exactly the cells it meets, the span of each raised by one |
| Splitting.WalkAfter | src/modules/Table.ts:522-525 | the tall scan leaves `after` at a cell that meets the anchor test when one exists, and leaves it unchanged otherwise |
| Splitting.WalkParent | src/modules/Table.ts:526-528 | the tall scan sets `parent` to the cell's lower row when it meets the cell below its first row, and leaves it unchanged otherwise |
| Splitting.SplitVerticalTree | src/modules/Table.ts:580 | splitting a cell vertically puts the new cell right after it in its own row, and changes no other row |
| Splitting.SplitVerticalPair | src/modules/Table.ts:568-576 | the new cell holds a line break and takes the cell's rowspan; a cell of two or more columns loses one; the cell is unselected |
| Splitting.SplitVerticalOthers | src/modules/Table.ts:561-566 | a one-column cell widens by one every other cell crossing its formal column; no other record changes |
| Splitting.SplitShortTree | src/modules/Table.ts:518-519 | splitting a one-row cell inserts a new row right after the cell's row, holding only the new cell |
| Splitting.SplitShortPair | src/modules/Table.ts:537-542 | the new cell holds a line break and takes the cell's colspan; the cell is only unselected |
| Splitting.SplitShortOthers | src/modules/Table.ts:512-517 | every other cell crossing the cell's formal row grows by one row; no other record changes |
| Splitting.SplitTallRecords | src/modules/Table.ts:520-542 | splitting a taller cell lowers its rowspan by one and unselects it; the new cell takes its colspan; no other record changes |
| Splitting.FreshTallScan | src/modules/Table.ts:522-529 | a fresh scan sets `parent` to the cell's last row; it finds an anchor exactly when one meets the test, and that anchor lies in a row the cell covers below its first |
| Splitting.CorrectedTallPlacement | src/modules/Table.ts:520-535 | with the scan started afresh, the split completes exactly when an anchor exists or the last row exists, and the new cell goes into a row the cell covers below its first |
| Splitting.StaleAnchor | src/modules/Table.ts:496-501 | as written, when no anchor meets the test, the new cell goes after whatever cell an earlier split left in `after`, in that cell's row |
| Splitting.NormalizeSelection | src/modules/Table.ts:544 | the final normalizeTable keeps the tree closed, the counter, the cell set and every marker |
| Splitting.VerticalFromEffect | src/modules/Table.ts:559-589 | the splits from the k-th selected cell on all complete; they add one new cell each; a cell left selected was selected before and is none of those split |
| Splitting.HorizontalFromEffect | src/modules/Table.ts:505-543 | the splits from the k-th selected cell on keep the tree closed; when they complete they add one cell each and leave selected only cells selected before and not split |
| Splitting.SplitVerticalEffect | src/modules/Table.ts:552-591 | the splits of splitVertical all complete; the final normalization throws exactly when the split table has an undefined row; the tree stays closed, one cell is added per selected cell and no cell of the old tree is left selected |
| Splitting.SplitHorizontalEffect | src/modules/Table.ts:496-545 | splitHorizontal keeps the tree closed; when the splits complete, the final normalization throws exactly when the split table has an undefined row, one cell is added per selected cell and no cell of the old tree is left selected; when a split throws, that is the outcome |
| SplitFinding.StackedSelection | src/modules/Table.ts:29-31 | the selection of the example table lists its two tall cells, upper first |
| SplitFinding.FirstScan | src/modules/Table.ts:522-529 | splitting the upper tall cell finds the cell below beside it as anchor, and its lower row as parent |
| SplitFinding.FirstSplit | src/modules/Table.ts:505-543 | the first split completes as intended, with the new cell after the anchor |
| SplitFinding.NoAnchorForY | src/modules/Table.ts:523 | no cell meets the anchor test of the second split |
| SplitFinding.SecondSplitAsWritten | src/modules/Table.ts:530-531 | as written, the second split puts its new cell into row 1, which the split cell does not cover |
| SplitFinding.SecondSplitCorrected | src/modules/Table.ts:532-534 | started afresh, the second split puts its new cell first in row 3, the lower row of the split cell |
| SplitFinding.StaleSplitHorizontal | src/modules/Table.ts:496-545 | splitHorizontal as written completes on the example with the second new cell in row 1 |
| SplitFinding.CorrectedSplitHorizontal | src/modules/Table.ts:496-545 | with every scan started afresh, splitHorizontal puts the second new cell first in row 3 |
| HoleExample.HoledMatrix | src/modules/Table.ts:60-102 | the formal matrix of the table with an empty middle row has three rows, and the middle one is undefined |
| HoleExample.HoledBound | src/modules/Table.ts:279 | getSelectedBound throws on that table |
| HoleExample.HoledNormalize | src/modules/Table.ts:337-340 | normalizeTable throws on that table and changes nothing |
| HoleExample.HoledMerge | src/modules/Table.ts:409 | mergeSelected throws on that table in getSelectedBound and changes nothing |
| HoleExample.HoledRemoveRow | src/modules/Table.ts:168 | removeRow(2) throws on that table |
| HoleExample.HoledRemoveColumn | src/modules/Table.ts:248-250 | removeColumn(0) throws on that table |
| HoleExample.TallMatrix | src/modules/Table.ts:60-102 | a cell of rowspan 2 over an empty row, then another empty row and a filled one, gives four matrix rows of which row 2 is undefined |
| HoleExample.TallLeftover | src/modules/Table.ts:357-379 | normalizeTable throws on that table at row 2, changes no attribute, and leaves on the tall cell the record `rowspan 1` |
| Engine.Table.Mark | src/modules/Table.ts:601-607 | appends the cell to the marked list and queues the write; the tree is unchanged |
| Engine.Table.Unmark | src/modules/Table.ts:609-640 | drains the queue: the new table is the old one with every queued write applied |
| Engine.Table.AddSelected | src/modules/Table.ts:17-19 | sets the marker of that one cell |
| Engine.Table.RestoreSelection | src/modules/Table.ts:20-22 | clears the marker of that one cell |
| Engine.Table.GetAllSelectedCells | src/modules/Table.ts:29-31 | returns the marked cells of the tree in document order |
| Engine.Table.RowsCount | src/modules/Table.ts:37-39 | the number of rows |
| Engine.Table.SetCellAt | src/modules/Table.ts:64-90 | the nested stamping loops give `setCell`'s matrix |
| Engine.Table.FormalMatrix | src/modules/Table.ts:60-102 | the row-by-row loop builds the formal matrix |
| Engine.Table.ColumnsCount | src/modules/Table.ts:45-50 | the reduce gives the width of the formal matrix |
| Engine.Table.FormalCoordinate | src/modules/Table.ts:107-128 | the scan with early exit gives the cell's coordinate |
| Engine.Table.IsBroken | src/modules/Table.ts:279 | the length reads of the first pass find an undefined row exactly when the matrix has one |
| Engine.Table.GetSelectedBound | src/modules/Table.ts:273-317 | the two passes of `while` loops give the selection bound, or none when the first pass throws |
| Engine.Table.NormalizeTable | src/modules/Table.ts:323-400 | the min/not loops, the clean-up and `__unmark` give the normalized table and its exception; a closed tree stays closed; no `__marked_value` record is left when it completes, and when it throws the records left are exactly the writes the sweeps queued before the undefined row stopped them |
| Engine.Table.ColumnMinLoop | src/modules/Table.ts:334-345 | the scan of one column gives its smallest colSpan, or `not`, and throws exactly when it reads a slot of an undefined row before a colSpan below 2 stops it |
| Engine.Table.AppendRow | src/modules/Table.ts:137-153 | the new table is appendRow's table; a closed tree stays closed and the marks are kept |
| RowOps.RemoveRowNoMatrixRow | src/modules/Table.ts:166-201 | for a row with no matrix row (an index past the matrix, or a row no cell stamps), removeRow visits no slot and removes only the `<tr>`, when there is one |
| Engine.Table.RemoveRow | src/modules/Table.ts:161-202 | the callback loop gives removeRow's table and exception, as written; a closed tree stays closed |
| Engine.Table.AppendColumn | src/modules/Table.ts:208-235 | the loop over matrix rows gives appendColumn's table and exception; a closed tree stays closed |
| Engine.Table.RemoveColumn | src/modules/Table.ts:243-264 | the loop over matrix rows gives removeColumn's table and exception; a closed tree stays closed |
| Engine.Table.MergeSelected | src/modules/Table.ts:408-490 | the walk, the queued writes, normalization and row deletion give mergeSelected's table and exception; the tree stays closed; the `__marked_value` records left are those of a final normalizeTable that threw, and none otherwise |
| Engine.Table.GrowLoop | src/modules/Table.ts:562-566 | the callback walk queues exactly the grow walk's writes |
| Engine.Table.AnchorLoop | src/modules/Table.ts:522-529 | the callback walk leaves `after` and `parent` as the scan does |
| Engine.Table.SplitVerticalAt | src/modules/Table.ts:560-588 | one pass of the forEach body gives the vertical split of that cell |
| Engine.Table.SplitVertical | src/modules/Table.ts:552-591 | the loop over the selection and the final normalization give splitVertical's table and exception; the tree stays closed; the `__marked_value` records left are those the final normalizeTable leaves |
| Engine.Table.SplitHorizontalAt | src/modules/Table.ts:506-542 | one pass of the forEach body gives the horizontal split of that cell, with `after` and `parent` carried over |
| Engine.Table.SplitHorizontal | src/modules/Table.ts:496-545 | the loop over the selection, with `after` and `parent` shared by every pass as written, and the final normalization give splitHorizontal's table and exception; the tree stays closed; when the loop completes, the `__marked_value` records left are those the final normalizeTable leaves |

## Left out

- Pixel widths are not modelled: `style.width`, `offsetWidth`, the width branch of mergeSelected (`src/modules/Table.ts:431-433`, `468-473`), the width writes of splitVertical (`src/modules/Table.ts:578-585`), the `width` key of `__unmark` and `setColumnWidthByDelta` (`src/modules/Table.ts:651-666`). They are floating-point layout, and no other write depends on them.
- The DOM clamps of `colSpan` (at most 1000) and `rowSpan` (at most 65534), and `rowspan="0"`, are not modelled. A span attribute is an integer. `parseInt` of a missing attribute plus 1 (NaN) is taken as 0, which reads back as span 1, as NaN does.
- `src/modules/Dom.ts` and `src/modules/Helpers.ts` are not part of this model:
  - `Dom.create`, `Dom.after`, `Dom.next`, `Dom.closest`, `$$` and `each` are modelled as sequence operations on the rows.
  - `Dom.after` on a cell outside the tree is taken to raise an exception.
  - `trim` is taken to be `String.prototype.trim`, with ECMAScript whitespace.
- Content is a string, and "non-blank" is computed from it: drop every `<br>`/`<br/>`, then check that only whitespace is left. Nothing else of HTML is modelled.
- `thead`/`tfoot` sections and nested tables are not modelled: a table is one list of rows, and `table.rows` is that list.
- A row that the script leaves undefined in the matrix (an empty `<tr>` that no span above reaches into) is modelled as an empty matrix row (`Matrix.Undefined`). getSelectedBound, normalizeTable, removeRow and removeColumn read the length of such a row or a slot in it, and the model throws there as the source raises a TypeError. Row 0 is never undefined, since `formalMatrix` starts from `[[]]`.
- Normalization.NormalizeKeepsRows: when normalizeTable throws, the writes `__mark` queued by then stay on the cells as `__marked_value` records; a later operation that marks the same cell carries them out together with its own writes. The table value is unchanged; the records left are stated by `Normalization.NormalizeLeftover` and by the `pending` field after `Engine.Table.NormalizeTable`.
- Engine.Table.NormalizeTable, Engine.Table.MergeSelected, Engine.Table.SplitVertical, Engine.Table.SplitHorizontal: they are modelled from a table with no `__marked_value` records (`requires pending == map[]`), as every operation leaves it when it completes. Records left on cells by an earlier operation that threw are not carried into them, so what such an operation does when it marks one of those cells again is not stated.
- Engine.Table.SplitHorizontal: when a cell's split throws in the loop, the records left are not stated (see Engine.Table.SplitHorizontalAt).
- RowOps.RemoveRow: for a row with no matrix row (a trailing empty `<tr>`, an undefined middle row, or an index past the matrix) the source calls `each(box[rowIndex], …)` with `undefined`. `each` lives in `src/modules/Helpers.ts`, which is not part of this model; the model takes it to run no callback (`RowOps.RemoveRowNoMatrixRow`). If `each` raises on `undefined`, removeRow raises on those rows too, and `RowOps.RemoveRowFixedThrows` then misses that case.
- `formalMatrix`'s per-slot callback is modelled per placement, as a test on the cell's rectangle (`Merging.MeetsSlot` proves this matches the slot-by-slot test). The source calls the callback once per slot. Every callback here writes the same value on each call for a cell, so the result does not change.
- The `__i_am_already_was` flag of mergeSelected is modelled by the set of cells already visited, not as a field of the cell.
- `__marked` is a list the source never empties. `__unmark` drains each cell's writes the first time it meets the cell, so the model keeps the list for the class but applies each cell's queue once.
- Engine.Table.SplitHorizontalAt, Engine.Table.SplitVerticalAt: when a split throws, the writes already queued stay queued. They are a field of the class and not part of the table value the contract states.
- Bounds.SelectionBoundCovers: does not prove that the bound is closed, that is, that every cell with a slot inside it lies wholly inside it. The model does not establish it, because the second pass does not go back to the rows and columns it has passed when it widens. What is proved is containment of the selection, growth from the first pass only onto cells met inside, and staying inside the matrix.
- Normalization.NormalizeCell: does not claim that normalizeTable is idempotent. A second run may trim further.
- ColumnOps.RemoveColumnEffect: the round trip appendColumn followed by removeColumn is not proved.
- Merging.MergeSelectedEffect, Splitting.SplitVerticalEffect, Splitting.SplitHorizontalEffect: they state that the final normalizeTable throws exactly when the table it is given has an undefined row; they do not prove that a table with no undefined row keeps that property through the merge or the splits.
- RowOps.RemoveRowExact, ColumnOps.RemoveColumnExact: proved for tiled tables (no cell twice in the tree, no two rectangles sharing a slot). On overlapping spans the source's writes interleave in ways only `RowOps.RemoveRowEffect` and `ColumnOps.RemoveColumnEffect` state.
- RowOps.RemoveRowExact: the next row is given by its members (its old cells and the moved ones), not by their order; where a moved cell lands is stated by `Dom.InsertBefore` at the step.
- ColumnOps.RemoveColumnExact: each row is given by its members, not their order; removing children keeps the order of the others.
- ColumnOps.AppendColumnExact: when several new cells join one row (a row whose cell spans several matrix rows), their order relative to each other is not stated; each one's place next to its anchor is stated by `ColumnOps.AppendColumnSlotExact`.
- Engine.Table.NormalizeTable: it does not require a closed tree, since the source runs it on any table; it keeps a closed tree closed.
- Splitting.FreshTallScan, Splitting.CorrectedTallPlacement: these assume that no cell appears twice in the tree (`DistinctPlacements`), as the DOM guarantees.

## Findings

| source | as written | input that shows it | evidently intended | confidence | as-written member | corrected member |
|---|---|---|---|---|---|---|
| src/modules/Table.ts:180-184 | a cell that starts in the removed row and goes on below is moved before `box[rowIndex + 1][nextCell]`, the cell of the matrix slot after its run, which may live in a row above the next one | a table of two rows: row 0 holds cells 0 and 1, each with rowspan 2; row 1 holds none. `removeRow(0)` moves cell 0 before cell 1, which is not a child of row 1, so `insertBefore` raises NotFoundError | move the cell before the first child of the next row that follows its run, or to the end of that row | not executed | RowOps.RemoveRowTwoTall | RowOps.RemoveRowFixedTwoTall |
| src/modules/Table.ts:496-501 | `after` and `parent` are declared once for the whole forEach, so the anchor one split finds is still set when a later split's scan finds none | the four-row table of `stale.dfy`. Rows: (A, X), (B), (Y, D), (C). X and Y have rowspan 2 and are selected. Splitting X puts its new cell after B, as intended. Splitting Y then finds no anchor, reuses B, and puts its new cell into row 1, which Y does not cover | reset `after` and `parent` for every selected cell: the new cell then goes first in Y's lower row | not executed | SplitFinding.StaleSplitHorizontal | SplitFinding.CorrectedSplitHorizontal |

For the first row, `RowOps.RemoveRowFixedThrows` states the corrected removeRow in general: it throws exactly when the removed formal row has a hole, or the row above it is undefined. For the second, `Splitting.StaleAnchor` states the stale reuse in general, and `Splitting.CorrectedTallPlacement` states the corrected placement in general.

The class methods model the code as written: `Engine.Table.RemoveRow` stands for removeRow without the fix, and `Engine.Table.SplitHorizontal` for splitHorizontal with the shared `after`/`parent`.

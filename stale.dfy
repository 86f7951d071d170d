/**
 * A table on which splitHorizontal, as written, puts a new cell outside the rows of the cell
 * it splits: `after` is declared once for the whole operation, so the anchor found for the
 * first selected cell is still set when the second cell's scan finds none.
 *
 *   row 0:  A   X        X (rowspan 2) and Y (rowspan 2) are selected;
 *   row 1:  B  (X)       A = 0, X = 1, B = 2, Y = 3, D = 4, C = 5
 *   row 2:  Y   D
 *   row 3: (Y)  C
 *
 * Splitting X puts its new cell 6 after B, in row 1, as intended. Splitting Y should put its
 * new cell 7 first in row 3, the lower row Y covers; as written it goes after B once more.
 */
module SplitFinding {
  import opened Wrappers
  import opened Cells
  import opened Matrix
  import opened Dom
  import opened Coordinates
  import opened Normalization
  import opened Splitting

  const Plain: Cell := Cell(None, None, None, false, "")
  const Tall: Cell := Cell(None, Some(2), None, true, "")

  /** The table drawn above, stated row by row and cell by cell. */
  ghost predicate Stacked(d: Doc)
  {
    |d.rows| == 4 && d.rows[0] == [0, 1] && d.rows[1] == [2] && d.rows[2] == [3, 4] && d.rows[3] == [5] &&
    d.cells.Keys == {0, 1, 2, 3, 4, 5} && d.next == 6 &&
    d.cells[0] == Plain && d.cells[1] == Tall && d.cells[2] == Plain &&
    d.cells[3] == Tall && d.cells[4] == Plain && d.cells[5] == Plain
  }

  /** The table once X is split: X is one row high and unselected, its new cell 6 follows B. */
  ghost predicate AfterFirst(d: Doc)
  {
    |d.rows| == 4 && d.rows[0] == [0, 1] && d.rows[1] == [2, 6] && d.rows[2] == [3, 4] && d.rows[3] == [5] &&
    d.cells.Keys == {0, 1, 2, 3, 4, 5, 6} && d.next == 7 &&
    d.cells[0] == Plain && d.cells[1] == Plain && d.cells[2] == Plain &&
    d.cells[3] == Tall && d.cells[4] == Plain && d.cells[5] == Plain && d.cells[6] == NewCell(BreakHtml)
  }

  /** The cells of a table of four rows, in document order. */
  lemma PlacementsOfFour(rows: seq<seq<CellId>>)
    requires |rows| == 4
    ensures Placements(rows) == RowPlacements(rows[0], 0) + RowPlacements(rows[1], 1) +
                                RowPlacements(rows[2], 2) + RowPlacements(rows[3], 3)
  {
    assert rows[..0] == [];
    PlacementsSnoc(rows, 0);
    PlacementsSnoc(rows, 1);
    PlacementsSnoc(rows, 2);
    PlacementsSnoc(rows, 3);
    assert rows[..4] == rows;
  }

  /** A row whose first slot is empty is filled from column 0. */
  lemma FreeFirst(m: Grid, i: nat)
    requires Get(m, i, 0).None?
    ensures FormalColumn(m, i) == 0
  {
  }

  /** A row whose first slot is taken and second is empty is filled from column 1. */
  lemma FreeSecond(m: Grid, i: nat)
    requires Get(m, i, 0).Some? && Get(m, i, 1).None?
    ensures FormalColumn(m, i) == 1
  {
    var row := RowAt(m, i);
    assert row[0].Some?;
    assert FirstFree(row, 0) == FirstFree(row, 1);
  }

  lemma StackedPlacements(d: Doc)
    requires Stacked(d)
    ensures Placements(d.rows) ==
            [Placement(0, 0), Placement(1, 0), Placement(2, 1), Placement(3, 2), Placement(4, 2), Placement(5, 3)]
  {
    PlacementsOfFour(d.rows);
    assert RowPlacements([0, 1], 0) == [Placement(0, 0), Placement(1, 0)];
    assert RowPlacements([2], 1) == [Placement(2, 1)];
    assert RowPlacements([3, 4], 2) == [Placement(3, 2), Placement(4, 2)];
    assert RowPlacements([5], 3) == [Placement(5, 3)];
  }

  lemma AfterFirstPlacements(d: Doc)
    requires AfterFirst(d)
    ensures Placements(d.rows) ==
            [Placement(0, 0), Placement(1, 0), Placement(2, 1), Placement(6, 1), Placement(3, 2), Placement(4, 2), Placement(5, 3)]
  {
    PlacementsOfFour(d.rows);
    assert RowPlacements([0, 1], 0) == [Placement(0, 0), Placement(1, 0)];
    assert RowPlacements([2, 6], 1) == [Placement(2, 1), Placement(6, 1)];
    assert RowPlacements([3, 4], 2) == [Placement(3, 2), Placement(4, 2)];
    assert RowPlacements([5], 3) == [Placement(5, 3)];
  }

  /** A one-slot cell in row 0 followed by a cell two rows high: the second starts at column 1, and row 1 at column 0. */
  lemma TwoFirstColumns(ps: seq<Placement>, cells: map<CellId, Cell>)
    requires |ps| >= 3 && ps[0] == Placement(ps[0].id, 0) && ps[1] == Placement(ps[1].id, 0) && ps[2].row == 1
    requires ColSpanOf(cells, ps[0].id) == 1 && RowSpanOf(cells, ps[0].id) == 1
    requires ColSpanOf(cells, ps[1].id) == 1
    ensures Cols(ps, cells)[1] == 1 && Cols(ps, cells)[2] == 0
  {
    var a := ps[0];
    var x := ps[1];
    var m0: Grid := [[]];
    assert [a][..0] == [];
    var m1 := Build([a], cells);
    assert m1 == SetCell(Build([], cells), cells, a);
    assert Build([], cells) == m0;
    assert FormalColumn(m0, 0) == 0;
    SetCellSlot(m0, cells, a, 0, 0);
    SetCellSlot(m0, cells, a, 0, 1);
    SetCellSlot(m0, cells, a, 1, 0);
    assert Get(m1, 0, 0).Some? && Get(m1, 0, 1).None? && Get(m1, 1, 0).None?;
    FreeSecond(m1, 0);
    PlaceSnoc([a], x, cells);
    var m2 := Build([a, x], cells);
    assert [a] + [x] == [a, x];
    assert m2 == SetCell(m1, cells, x);
    SetCellSlot(m1, cells, x, 1, 0);
    assert Get(m2, 1, 0).None?;
    FreeFirst(m2, 1);
    assert ps[..1] == [a] && ps[..2] == [a, x];
    PlaceCols(ps, cells, 1);
    PlaceCols(ps, cells, 2);
  }

  /** When no placement before `p` reaches down into row `ps[p].row`, placement `p` starts at column 0. */
  lemma FirstInRow(ps: seq<Placement>, cells: map<CellId, Cell>, p: nat)
    requires p < |ps| && forall q :: 0 <= q < p ==> ps[q].row + RowSpanOf(cells, ps[q].id) <= ps[p].row
    ensures Cols(ps, cells)[p] == 0
  {
    var front := ps[..p];
    BuildSlot(front, cells, ps[p].row, 0);
    FreeFirst(Build(front, cells), ps[p].row);
    PlaceCols(ps, cells, p);
  }

  /** B is a child of row 1. */
  lemma ParentOfB(rows: seq<seq<CellId>>)
    requires |rows| == 4 && rows[0] == [0, 1] && 2 in rows[1]
    ensures Parent(rows, 2) == Some(1)
  {
  }

  /** Splitting X finds B as its anchor and leaves `parent` at row 1, the lower row X covers. */
  lemma FirstScan(d: Doc)
    requires Stacked(d)
    ensures var s := TallScan(d, 1, None, None);
            s.after == Some(2) && s.parent == Some(1)
  {
    var ps := Placements(d.rows);
    StackedPlacements(d);
    assert DistinctPlacements(ps);
    assert InTree(d.rows, 1) by { assert 1 in d.rows[0]; }
    var co := Coordinate(d.rows, d.cells, 1, false);
    CoordinateShape(d.rows, d.cells, 1);
    assert co.row == 0;
    OnlyPlacement(d, 1);
    assert IndexOf(ps, 1) == 1;
    TwoFirstColumns(ps, d.cells);
    var cb := AnchorFor(d, 1, co);
    ParentOfB(d.rows);
    assert AnchorAt(ps, cb, d.rows, d.cells, 2);
    FreshTallScan(d, 1);
    var s := TallScan(d, 1, None, None);
    assert s.after == Some(2) by {
      var a := s.after.value;
      assert a in d.rows[1];
    }
  }

  lemma NewCellAfterB(rows: seq<seq<CellId>>, td: CellId)
    requires |rows| == 4 && rows[0] == [0, 1] && rows[1] == [2] && rows[2] == [3, 4] && rows[3] == [5]
    ensures rows[1 := InsertAfter(rows[1], 2, td)] == [[0, 1], [2, td], [3, 4], [5]]
  {
    assert InsertAfter([2], 2, td) == [2, td];
  }

  /** The tree once X is split: its new cell 6 follows B in row 1. */
  lemma FirstSplitRows(d: Doc)
    requires Stacked(d)
    ensures var r := SplitHorizontalCell(d, 1, None, None);
            r.out.Done? && r.out.doc.rows == [[0, 1], [2, 6], [3, 4], [5]] && r.after == Some(2) && r.parent == Some(1)
  {
    assert Closed(d);
    FirstScan(d);
    var s := TallScan(d, 1, None, None);
    ParentOfB(d.rows);
    SplitTallRows(d, 1, None, None);
    var d1 := WithNewCell(d);
    PlaceNewCellRows(d1, d.next, s);
    NewCellAfterB(d1.rows, 6);
  }

  /** The records once X is split: X is one row high and unselected, cell 6 is a new one-slot cell. */
  lemma FirstSplitCells(d: Doc)
    requires Stacked(d)
    ensures var e := SplitHorizontalCell(d, 1, None, None).out.doc;
            e.cells.Keys == {0, 1, 2, 3, 4, 5, 6} && e.next == 7 &&
            e.cells[0] == Plain && e.cells[1] == Plain && e.cells[2] == Plain &&
            e.cells[3] == Tall && e.cells[4] == Plain && e.cells[5] == Plain && e.cells[6] == NewCell(BreakHtml)
  {
    assert Closed(d);
    assert InTree(d.rows, 1) by { assert 1 in d.rows[0]; }
    assert RowSpanOf(d.cells, 1) == 2;
    FirstSplitRows(d);
    SplitTallRecords(d, 1, None, None);
    CellsOfX(d, SplitTall(d, 1, None, None).out.doc);
  }

  /** The records of the split of X, from what any split of a tall cell does to them. */
  lemma CellsOfX(d: Doc, e: Doc)
    requires Stacked(d)
    requires e.cells.Keys == d.cells.Keys + {d.next} && e.next == d.next + 1
    requires e.cells[d.next] == NewCell(BreakHtml).(colspan := SpanAttr(ColSpanOf(d.cells, 1)))
    requires e.cells[1] == d.cells[1].(rowspan := SpanAttr(RowSpanOf(d.cells, 1) - 1), selected := false)
    requires forall c :: c in d.cells && c != 1 ==> e.cells[c] == d.cells[c]
    ensures e.cells.Keys == {0, 1, 2, 3, 4, 5, 6} && e.next == 7 &&
            e.cells[0] == Plain && e.cells[1] == Plain && e.cells[2] == Plain &&
            e.cells[3] == Tall && e.cells[4] == Plain && e.cells[5] == Plain && e.cells[6] == NewCell(BreakHtml)
  {
    assert 0 in d.cells && 2 in d.cells && 3 in d.cells && 4 in d.cells && 5 in d.cells;
  }

  /** The split of X completes with its new cell 6 after B: splitHorizontal's first step. */
  lemma FirstSplit(d: Doc)
    requires Stacked(d)
    ensures var r := SplitHorizontalCell(d, 1, None, None);
            r.out.Done? && AfterFirst(r.out.doc) && r.after == Some(2) && r.parent == Some(1)
  {
    FirstSplitRows(d);
    FirstSplitCells(d);
    AfterFirstOf(SplitHorizontalCell(d, 1, None, None).out.doc);
  }

  /** The table after the first split, from its rows and its records. */
  lemma AfterFirstOf(e: Doc)
    requires e.rows == [[0, 1], [2, 6], [3, 4], [5]]
    requires e.cells.Keys == {0, 1, 2, 3, 4, 5, 6} && e.next == 7 &&
             e.cells[0] == Plain && e.cells[1] == Plain && e.cells[2] == Plain &&
             e.cells[3] == Tall && e.cells[4] == Plain && e.cells[5] == Plain && e.cells[6] == NewCell(BreakHtml)
    ensures AfterFirst(e)
  {
  }

  /** In the table after the first split no cell anchors the split of Y: Y starts at column 0. */
  lemma NoAnchorForY(d: Doc)
    requires AfterFirst(d)
    ensures var cb := AnchorFor(d, 3, Coordinate(d.rows, d.cells, 3, false));
            InTree(d.rows, 3) && DistinctPlacements(Placements(d.rows)) &&
            forall n :: !AnchorAt(Placements(d.rows), cb, d.rows, d.cells, n)
  {
    var ps := Placements(d.rows);
    AfterFirstPlacements(d);
    assert DistinctPlacements(ps);
    assert InTree(d.rows, 3) by { assert 3 in d.rows[2]; }
    OnlyPlacement(d, 3);
    assert IndexOf(ps, 3) == 4;
    FirstInRow(ps, d.cells, 4);
  }

  /** As written, the split of Y reuses B: its new cell 7 goes into row 1, which Y does not cover. */
  lemma SecondSplitAsWritten(d: Doc)
    requires AfterFirst(d)
    ensures var r := SplitHorizontalCell(d, 3, Some(2), Some(1));
            r.out.Done? && r.out.doc.rows == [[0, 1], [2, 7, 6], [3, 4], [5]]
  {
    NoAnchorForY(d);
    assert Closed(d);
    assert InTree(d.rows, 2) by { assert 2 in d.rows[1]; }
    assert RowSpanOf(d.cells, 3) == 2;
    StaleAnchor(d, 3, 2, Some(1));
    ParentOfB(d.rows);
    SecondCellAfterB(d.rows);
  }

  lemma SecondCellAfterB(rows: seq<seq<CellId>>)
    requires |rows| == 4 && rows[0] == [0, 1] && rows[1] == [2, 6] && rows[2] == [3, 4] && rows[3] == [5]
    ensures rows[1 := InsertAfter(rows[1], 2, 7)] == [[0, 1], [2, 7, 6], [3, 4], [5]]
  {
    assert InsertAfter([2, 6], 2, 7) == [2, 7, 6];
  }

  /** Started afresh, the scan for Y's anchor finds none and leaves `parent` at row 3. */
  lemma FreshScanForY(d: Doc)
    requires AfterFirst(d)
    ensures var s := TallScan(d, 3, None, None);
            s.after.None? && s.parent == Some(3)
  {
    NoAnchorForY(d);
    CoordinateShape(d.rows, d.cells, 3);
    assert Coordinate(d.rows, d.cells, 3, false).row == 2;
    FreshTallScan(d, 3);
  }

  /** Started afresh, the split of Y puts its new cell 7 first in row 3, the lower row Y covers. */
  lemma SecondSplitCorrected(d: Doc)
    requires AfterFirst(d)
    ensures var r := SplitHorizontalCell(d, 3, None, None);
            r.out.Done? && r.out.doc.rows == [[0, 1], [2, 6], [3, 4], [7, 5]]
  {
    assert Closed(d);
    FreshScanForY(d);
    var s := TallScan(d, 3, None, None);
    assert RowSpanOf(d.cells, 3) == 2;
    SplitTallRows(d, 3, None, None);
    var d1 := WithNewCell(d);
    PlaceNewCellRows(d1, d.next, s);
    LowerRowFirst(d1.rows);
  }

  lemma LowerRowFirst(rows: seq<seq<CellId>>)
    requires |rows| == 4 && rows[0] == [0, 1] && rows[1] == [2, 6] && rows[2] == [3, 4] && rows[3] == [5]
    ensures rows[3 := [7] + rows[3]] == [[0, 1], [2, 6], [3, 4], [7, 5]]
  {
    assert [7] + rows[3] == [7, 5];
  }

  /** The cells of the table in document order. */
  lemma StackedFlat(d: Doc)
    requires Stacked(d)
    ensures Flat(d.rows) == [0, 1, 2, 3, 4, 5]
  {
    var rows := d.rows;
    assert rows[..0] == [];
    FlatSnoc(rows, 0);
    FlatSnoc(rows, 1);
    FlatSnoc(rows, 2);
    FlatSnoc(rows, 3);
    assert rows[..4] == rows;
  }

  /** getAllSelectedCells lists X, then Y. */
  lemma StackedSelection(d: Doc)
    requires Stacked(d)
    ensures AllSelected(d) == [1, 3]
  {
    StackedFlat(d);
    var ids: seq<CellId> := [0, 1, 2, 3, 4, 5];
    assert ids[1..] == [1, 2, 3, 4, 5];
    assert ids[1..][1..] == [2, 3, 4, 5];
    assert ids[1..][1..][1..] == [3, 4, 5];
    assert ids[1..][1..][1..][1..] == [4, 5];
    assert ids[1..][1..][1..][1..][1..] == [5];
    assert Marked([5], d.cells) == [];
    assert Marked([4, 5], d.cells) == [];
    assert Marked([3, 4, 5], d.cells) == [3];
    assert Marked([2, 3, 4, 5], d.cells) == [3];
    assert Marked([1, 2, 3, 4, 5], d.cells) == [1, 3];
  }

  /** normalizeTable on a table of four rows that all hold cells completes and keeps the rows. */
  lemma NormalizeFilled(e: Doc)
    requires |e.rows| == 4 && e.rows[0] != [] && e.rows[1] != [] && e.rows[2] != [] && e.rows[3] != []
    ensures Normalize(e).Done? && Normalize(e).doc.rows == e.rows
  {
    FilledRowsDefined(e.rows, e.cells);
    NormalizeKeepsRows(e);
  }

  /**
   * splitHorizontal as written completes with Y's new cell 7 in row 1, between B and X's new
   * cell, and leaves row 3 as it was.
   */
  lemma StaleSplitHorizontal(d: Doc)
    requires Stacked(d)
    ensures var o := SplitHorizontal(d, false);
            o.Done? && o.doc.rows == [[0, 1], [2, 7, 6], [3, 4], [5]]
  {
    StaleLoop(d);
    NormalizeFilled(HorizontalFrom(d, AllSelected(d), 0, None, None, false).doc);
  }

  /** The loop of the lemma above, before normalizeTable. */
  lemma StaleLoop(d: Doc)
    requires Stacked(d)
    ensures var o := HorizontalFrom(d, AllSelected(d), 0, None, None, false);
            o.Done? && o.doc.rows == [[0, 1], [2, 7, 6], [3, 4], [5]]
  {
    var sel := AllSelected(d);
    StackedSelection(d);
    HorizontalFromStep(d, sel, 0, None, None, false);
    FirstSplit(d);
    var e1 := SplitHorizontalCell(d, 1, None, None).out.doc;
    HorizontalFromStep(e1, sel, 1, Some(2), Some(1), false);
    SecondSplitAsWritten(e1);
    var r2 := SplitHorizontalCell(e1, 3, Some(2), Some(1));
    var e2 := r2.out.doc;
    assert HorizontalFrom(e2, sel, 2, r2.after, r2.parent, false) == Done(e2);
    assert HorizontalFrom(d, sel, 0, None, None, false) == Done(e2);
  }

  /** splitHorizontal with every scan started afresh puts Y's new cell 7 first in row 3. */
  lemma CorrectedSplitHorizontal(d: Doc)
    requires Stacked(d)
    ensures var o := SplitHorizontal(d, true);
            o.Done? && o.doc.rows == [[0, 1], [2, 6], [3, 4], [7, 5]]
  {
    CorrectedLoop(d);
    NormalizeFilled(HorizontalFrom(d, AllSelected(d), 0, None, None, true).doc);
  }

  /** The loop of the lemma above, before normalizeTable. */
  lemma CorrectedLoop(d: Doc)
    requires Stacked(d)
    ensures var o := HorizontalFrom(d, AllSelected(d), 0, None, None, true);
            o.Done? && o.doc.rows == [[0, 1], [2, 6], [3, 4], [7, 5]]
  {
    var sel := AllSelected(d);
    StackedSelection(d);
    HorizontalFromStep(d, sel, 0, None, None, true);
    FirstSplit(d);
    var e1 := SplitHorizontalCell(d, 1, None, None).out.doc;
    HorizontalFromStep(e1, sel, 1, Some(2), Some(1), true);
    SecondSplitCorrected(e1);
    var r2 := SplitHorizontalCell(e1, 3, None, None);
    var e2 := r2.out.doc;
    assert HorizontalFrom(e2, sel, 2, r2.after, r2.parent, true) == Done(e2);
    assert HorizontalFrom(d, sel, 0, None, None, true) == Done(e2);
  }
}

/**
 * A table with an empty row between two filled ones, which no span reaches into:
 *
 *   row 0:  A          A = 0 (selected), B = 1
 *   row 1:  (no cell)
 *   row 2:  B
 *
 * `formalMatrix` creates matrix rows only for the rows a cell stamps, so row 1 of the matrix
 * stays undefined. Every operation that reads the length of that row, or a slot in it, then
 * raises a TypeError.
 */
module HoleExample {
  import opened Wrappers
  import opened Cells
  import opened Matrix
  import opened Dom
  import opened Bounds
  import opened Marks
  import opened Normalization
  import RowOps
  import ColumnOps
  import Merging

  /** The table drawn above. */
  function Holed(): Doc
  {
    Doc([[0], [], [1]], map[0 := NewCell("").(selected := true), 1 := NewCell("")], 2)
  }

  lemma HoledPlacements()
    ensures Placements(Holed().rows) == [Placement(0, 0), Placement(1, 2)]
  {
    var rows := Holed().rows;
    assert Placements(rows[..1]) == [Placement(0, 0)];
    assert rows[..2][..1] == rows[..1];
    assert Placements(rows[..2]) == [Placement(0, 0)];
    assert rows[..3][..2] == rows[..2];
  }

  lemma FirstSetCell()
    ensures SetCell([[]], Holed().cells, Placement(0, 0)) == [[Some(0)]]
  {
    var cells := Holed().cells;
    assert ColSpanOf(cells, 0) == 1 && RowSpanOf(cells, 0) == 1;
    assert PutRow([None], 0, Some(0)) == [Some(0)];
    assert PutRow([], 0, Some(0)) == [Some(0)];
    assert Put([[]], 0, 0, Some(0)) == [[Some(0)]];
    assert StampCols([[Some(0)]], 0, 0, 0, 1, 1) == [[Some(0)]];
  }

  lemma SecondSetCell()
    ensures SetCell([[Some(0)]], Holed().cells, Placement(1, 2)) == [[Some(0)], [], [Some(1)]]
  {
    var cells := Holed().cells;
    assert ColSpanOf(cells, 1) == 1 && RowSpanOf(cells, 1) == 1;
    assert EnsureRow([[Some(0)]], 2) == [[Some(0)], [], []];
    assert PutRow([None], 0, Some(1)) == [Some(1)];
    assert PutRow([], 0, Some(1)) == [Some(1)];
    assert Put([[Some(0)], [], []], 2, 0, Some(1)) == [[Some(0)], [], [Some(1)]];
    assert StampCols([[Some(0)], [], [Some(1)]], 1, 2, 0, 1, 1) == [[Some(0)], [], [Some(1)]];
  }

  /** The formal matrix has three rows, and the middle one is undefined. */
  lemma HoledMatrix()
    ensures FormalMatrix(Holed().rows, Holed().cells) == [[Some(0)], [], [Some(1)]]
    ensures Undefined(FormalMatrix(Holed().rows, Holed().cells), 1)
  {
    var ps := [Placement(0, 0), Placement(1, 2)];
    HoledPlacements();
    FirstSetCell();
    SecondSetCell();
    assert ps[..1][..0] == [] && ps[..1][0] == Placement(0, 0);
    assert Build(ps[..1], Holed().cells) == [[Some(0)]];
  }

  /** getSelectedBound throws reading the length of row 1. */
  lemma HoledBound()
    ensures SelectionBound(FormalMatrix(Holed().rows, Holed().cells), [0]).None?
  {
    HoledMatrix();
  }

  /** normalizeTable throws reading a slot of row 1, and leaves the table as it was. */
  lemma HoledNormalize()
    ensures Normalize(Holed()) == Thrown(Holed())
  {
    HoledMatrix();
    NormalizeKeepsRows(Holed());
  }

  /** mergeSelected throws in getSelectedBound, before it changes anything. */
  lemma HoledMerge()
    ensures Merging.MergeSelected(Holed()) == Thrown(Holed())
  {
    HoledMatrix();
    assert Closed(Holed());
    Merging.MergeSelectedEffect(Holed());
  }

  /** removeRow(2) throws reading a slot of row 1, the row above. */
  lemma HoledRemoveRow()
    ensures RowOps.RemoveRow(Holed(), 2).Thrown?
  {
    HoledMatrix();
  }

  /** removeColumn(0) throws reading slot 0 of row 1. */
  lemma HoledRemoveColumn()
    ensures ColumnOps.RemoveColumn(Holed(), 0).Thrown?
  {
    HoledMatrix();
    ColumnOps.RemoveColumnThrows(Holed(), 0);
    assert Get(FormalMatrix(Holed().rows, Holed().cells), 1, 0).None?;
  }

  /**
   * A table whose first cell spans two rows, followed by an empty row and a fourth row:
   *
   *   row 0:  T          T = 0 (rowspan 2), U = 1
   *   row 1:  (no cell; T reaches into it)
   *   row 2:  (no cell)
   *   row 3:  U
   *
   * Row 2 of the matrix stays undefined. normalizeTable's rowspan sweep queues rowspan 1 for T
   * on rows 0 and 1 and then throws at row 2, so the write stays on T.
   */
  function Tall(): Doc
  {
    Doc([[0], [], [], [1]], map[0 := NewCell("").(rowspan := Some(2)), 1 := NewCell("")], 2)
  }

  lemma TallPlacements()
    ensures Placements(Tall().rows) == [Placement(0, 0), Placement(1, 3)]
  {
    var rows := Tall().rows;
    assert Placements(rows[..1]) == [Placement(0, 0)];
    assert rows[..2][..1] == rows[..1];
    assert Placements(rows[..2]) == [Placement(0, 0)];
    assert rows[..3][..2] == rows[..2];
    assert Placements(rows[..3]) == [Placement(0, 0)];
    assert rows[..4][..3] == rows[..3];
  }

  lemma TallFirstSetCell()
    ensures SetCell([[]], Tall().cells, Placement(0, 0)) == [[Some(0)], [Some(0)]]
  {
    var cells := Tall().cells;
    assert ColSpanOf(cells, 0) == 1 && RowSpanOf(cells, 0) == 2;
    assert PutRow([None], 0, Some(0)) == [Some(0)];
    assert PutRow([], 0, Some(0)) == [Some(0)];
    assert StampCols([[]], 0, 0, 0, 0, 1) == [[Some(0)]];
    assert EnsureRow([[Some(0)]], 1) == [[Some(0)], []];
    assert StampCols([[Some(0)], []], 0, 1, 0, 0, 1) == [[Some(0)], [Some(0)]];
    assert StampRows([[]], 0, 0, 0, 0, 1, 2) == StampRows([[Some(0)]], 0, 0, 0, 1, 1, 2);
  }

  lemma TallSecondSetCell()
    ensures SetCell([[Some(0)], [Some(0)]], Tall().cells, Placement(1, 3)) == [[Some(0)], [Some(0)], [], [Some(1)]]
  {
    var cells := Tall().cells;
    assert ColSpanOf(cells, 1) == 1 && RowSpanOf(cells, 1) == 1;
    assert EnsureRow([[Some(0)], [Some(0)], []], 3) == [[Some(0)], [Some(0)], [], []];
    assert EnsureRow([[Some(0)], [Some(0)]], 3) == [[Some(0)], [Some(0)], [], []];
    assert PutRow([None], 0, Some(1)) == [Some(1)];
    assert PutRow([], 0, Some(1)) == [Some(1)];
    assert StampCols([[Some(0)], [Some(0)], [], []], 1, 3, 0, 0, 1) == [[Some(0)], [Some(0)], [], [Some(1)]];
  }

  /** The formal matrix has four rows, and row 2 is the first undefined one. */
  lemma TallMatrix()
    ensures FormalMatrix(Tall().rows, Tall().cells) == [[Some(0)], [Some(0)], [], [Some(1)]]
  {
    var ps := [Placement(0, 0), Placement(1, 3)];
    TallPlacements();
    TallFirstSetCell();
    TallSecondSetCell();
    assert ps[..1][..0] == [] && ps[..1][0] == Placement(0, 0);
    assert Build(ps[..1], Tall().cells) == [[Some(0)], [Some(0)]];
  }

  /** The rowspan sweep of rows 0 and 1 queues rowspan 1 for T, twice. */
  lemma TallTopSweep()
    ensures RowSweep([[Some(0)], [Some(0)]], Tall().cells, 0, map[]) == map[0 := Pending(false, Some(1), None)]
  {
    var top: Grid := [[Some(0)], [Some(0)]];
    var cells := Tall().cells;
    assert RowMin(top, cells, 0, 0, MinStart) == Some(2);
    assert RowMin(top, cells, 1, 0, MinStart) == Some(2);
    var once := MarkWrite(map[], 0, RowSpanTo(1));
    assert MarkRow(top, cells, 0, 0, 2, map[]) == once;
    assert MarkRow(top, cells, 1, 0, 2, once) == once;
  }

  /**
   * normalizeTable throws and leaves the rowspan write it queued for T: a later operation that
   * marks T carries it out with its own writes.
   */
  lemma TallLeftover()
    ensures Normalize(Tall()) == Thrown(Tall())
    ensures Leftover(Tall()) == map[0 := Pending(false, Some(1), None)]
  {
    TallMatrix();
    NormalizeKeepsRows(Tall());
    var m := FormalMatrix(Tall().rows, Tall().cells);
    assert Undefined(m, 2) && !Undefined(m, 0) && !Undefined(m, 1);
    assert !ColumnScanThrows(m, Tall().cells, 0, 0);
    NormalizeLeftover(Tall(), 2);
    assert m[..2] == [[Some(0)], [Some(0)]];
    TallTopSweep();
  }
}

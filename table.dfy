/**
 * The table engine (Table.ts, class Table) over one table element. The element's rows and cell
 * records are the fields of `Table`; every operation recomputes what it needs from them, as the
 * source recomputes the formal matrix, and is proved to compute the function of the same name
 * in the modules it imports.
 */
module Engine {
  import opened Wrappers
  import opened Cells
  import opened Matrix
  import opened Dom
  import opened Coordinates
  import opened Marks
  import opened Bounds
  import opened Normalization
  import opened RowOps
  import opened ColumnOps
  import opened Merging
  import opened Splitting

  class Table {
    var rows: seq<seq<CellId>>
    var cells: map<CellId, Cell>
    var next: CellId
    /** The `__marked` list of the running operation. */
    var marked: seq<CellId>
    /** The `__marked_value` records of the cells, by cell. */
    var pending: map<CellId, Pending>

    ghost function State(): Doc
      reads this
    {
      Doc(rows, cells, next)
    }

    ghost predicate Valid()
      reads this
    {
      Closed(State())
    }

    constructor (d: Doc)
      requires Closed(d)
      ensures Valid() && State() == d
    {
      rows, cells, next := d.rows, d.cells, d.next;
      marked, pending := [], map[];
    }

    /** Every cell with queued writes is in the `__marked` list. */
    ghost predicate MarksListed()
      reads this
    {
      forall c :: c in pending ==> c in marked
    }

    /** `__mark(cell, key, value, __marked)`. */
    method Mark(c: CellId, w: Write)
      modifies this
      ensures marked == old(marked) + [c] && pending == MarkWrite(old(pending), c, w)
      ensures rows == old(rows) && cells == old(cells) && next == old(next)
      ensures old(MarksListed()) ==> MarksListed()
    {
      marked := marked + [c];
      pending := pending[c := Queue(Lookup(pending, c), w)];
    }

    /**
     * `__unmark(__marked)`: every queued write is carried out and the records are deleted;
     * the list itself is kept, as the source keeps it.
     */
    method Unmark()
      requires MarksListed()
      modifies this
      ensures State() == ApplyPending(old(State()), old(pending))
      ensures pending == map[] && marked == old(marked)
    {
      ghost var d0 := State();
      ghost var p0 := pending;
      ghost var applied: map<CellId, Pending> := map[];
      ApplyNothing(d0);
      var idx := 0;
      while idx < |marked|
        invariant 0 <= idx <= |marked| && marked == old(marked)
        invariant forall c :: c in pending ==> c in marked[idx..]
        invariant applied.Keys !! pending.Keys && p0 == applied + pending
        invariant State() == ApplyPending(d0, applied)
      {
        var c := marked[idx];
        if c in pending {
          ghost var p := pending[c];
          UnmarkCell(c, d0, applied);
          applied := applied[c := p];
        }
        idx := idx + 1;
      }
      assert applied + pending == applied;
    }

    /** The writes queued for one cell of the `__marked` list. */
    method UnmarkCell(c: CellId, ghost d0: Doc, ghost applied: map<CellId, Pending>)
      requires c in pending && c !in applied
      requires State() == ApplyPending(d0, applied)
      modifies this
      ensures State() == ApplyPending(d0, applied[c := old(pending)[c]])
      ensures pending == old(pending) - {c} && marked == old(marked)
    {
      var p := pending[c];
      ApplyOneMore(d0, applied, c, p);
      if c in cells {
        cells := cells[c := ApplyAttrs(cells[c], p)];
      }
      if p.remove {
        rows := Detach(rows, c);
      }
      pending := pending - {c};
    }

    /** `addSelected(td)`: the cell gets the selection marker. */
    method AddSelected(c: CellId)
      modifies this
      ensures cells == if c in old(cells) then old(cells)[c := old(cells)[c].(selected := true)] else old(cells)
      ensures rows == old(rows) && next == old(next) && marked == old(marked) && pending == old(pending)
    {
      if c in cells {
        cells := cells[c := cells[c].(selected := true)];
      }
    }

    /** `restoreSelection(td)`: the cell loses the selection marker. */
    method RestoreSelection(c: CellId)
      modifies this
      ensures cells == if c in old(cells) then old(cells)[c := old(cells)[c].(selected := false)] else old(cells)
      ensures rows == old(rows) && next == old(next) && marked == old(marked) && pending == old(pending)
    {
      if c in cells {
        cells := cells[c := cells[c].(selected := false)];
      }
    }

    /** `getAllSelectedCells(table)`: the cells carrying the selection marker, in document order. */
    method GetAllSelectedCells() returns (sel: seq<CellId>)
      ensures sel == AllSelected(State())
    {
      sel := [];
      var i := 0;
      while i < |rows|
        invariant 0 <= i <= |rows|
        invariant sel == Marked(Flat(rows[..i]), cells)
      {
        sel := SelectedOfRow(Flat(rows[..i]), rows[i], cells, sel);
        FlatSnoc(rows, i);
        i := i + 1;
      }
      assert rows[..|rows|] == rows;
    }

    /** The walk of getAllSelectedCells over one row, after the cells `before` it. */
    static method SelectedOfRow(before: seq<CellId>, row: seq<CellId>, cells: map<CellId, Cell>, sel0: seq<CellId>)
      returns (sel: seq<CellId>)
      requires sel0 == Marked(before, cells)
      ensures sel == Marked(before + row, cells)
    {
      sel := sel0;
      var k := 0;
      assert before + row[..0] == before;
      while k < |row|
        invariant 0 <= k <= |row|
        invariant sel == Marked(before + row[..k], cells)
      {
        var c := row[k];
        MarkedSnoc(before + row[..k], c, cells);
        assert before + row[..k] + [c] == before + row[..k + 1];
        if c in cells && cells[c].selected {
          sel := sel + [c];
        }
        k := k + 1;
      }
      assert row[..|row|] == row;
    }

    /** `getRowsCount`: `table.rows.length`. */
    function RowsCount(): (n: nat)
      reads this
      ensures n == |rows|
    {
      |rows|
    }

    /** `while (matrix[i][currentColumn]) currentColumn += 1`. */
    static method FirstFreeColumn(row: seq<Slot>) returns (col: nat)
      ensures col == FirstFree(row, 0)
    {
      col := 0;
      ghost var goal := FirstFree(row, 0);
      while col < |row| && row[col].Some?
        invariant col <= |row|
        invariant FirstFree(row, col) == goal
      {
        col := col + 1;
      }
    }

    /** The inner loop of setCell: `matrix[i][currentColumn + c] = cell` for every `c < cs`. */
    static method StampColumns(m0: Grid, id: CellId, i: nat, col: nat, cs: nat) returns (m: Grid)
      requires i < |m0|
      ensures m == StampCols(m0, id, i, col, 0, cs)
    {
      m := m0;
      var c := 0;
      ghost var goal := StampCols(m0, id, i, col, 0, cs);
      while c < cs
        invariant 0 <= c <= cs && i < |m|
        invariant StampCols(m, id, i, col, c, cs) == goal
      {
        m := Put(m, i, col + c, Some(id));
        c := c + 1;
      }
    }

    /** setCell(cell, i) of formalMatrix. */
    method SetCellAt(m0: Grid, id: CellId, i: nat) returns (m: Grid)
      ensures m == SetCell(m0, cells, Placement(id, i))
    {
      m := EnsureRow(m0, i);
      var cs := ColSpanOf(cells, id);
      var rs := RowSpanOf(cells, id);
      var col := FirstFreeColumn(m[i]);
      EnsureRowSlot(m0, i, 0, 0);
      ghost var m1 := m;
      var r := 0;
      ghost var goal := StampRows(m1, id, i, col, 0, cs, rs);
      while r < rs
        invariant 0 <= r <= rs
        invariant StampRows(m, id, i, col, r, cs, rs) == goal
      {
        m := EnsureRow(m, i + r);
        m := StampColumns(m, id, i + r, col, cs);
        r := r + 1;
      }
    }

    /** `formalMatrix(table)`: the formal matrix of the table. */
    method FormalMatrix() returns (m: Grid)
      ensures m == Matrix.FormalMatrix(rows, cells)
    {
      m := [[]];
      var i := 0;
      while i < |rows|
        invariant 0 <= i <= |rows|
        invariant m == Build(Placements(rows[..i]), cells)
      {
        RowDone(rows, i);
        var k := 0;
        while k < |rows[i]|
          invariant 0 <= k <= |rows[i]|
          invariant m == Build(PrefixPlacements(rows, i, k), cells)
        {
          BuildStep(rows, cells, i, k);
          m := SetCellAt(m, rows[i][k], i);
          k := k + 1;
        }
        i := i + 1;
      }
      assert rows[..|rows|] == rows;
    }

    /** `getColumnsCount`: the length of the longest row of the formal matrix. */
    method ColumnsCount() returns (n: nat)
      ensures n == Width(Matrix.FormalMatrix(rows, cells))
    {
      var m := FormalMatrix();
      n := 0;
      var i := 0;
      while i < |m|
        invariant 0 <= i <= |m|
        invariant n == Width(m[..i])
      {
        WidthSnoc(m, i);
        if n < |m[i]| {
          n := |m[i]|;
        }
        i := i + 1;
      }
      assert m[..|m|] == m;
    }

    /**
     * `formalCoordinate(table, cell, max)`: the scan of formalMatrix, stopped at the first slot
     * of `cell`.
     */
    method FormalCoordinate(cell: CellId, max: bool) returns (c: Coord)
      ensures c == Coordinate(rows, cells, cell, max)
    {
      var m: Grid := [[]];
      var i := 0;
      while i < |rows|
        invariant 0 <= i <= |rows|
        invariant m == Build(Placements(rows[..i]), cells)
        invariant Absent(Placements(rows[..i]), cell)
      {
        var found;
        found, c, m := ScanRowFor(m, i, cell, max);
        if found {
          return;
        }
        i := i + 1;
      }
      assert rows[..|rows|] == rows;
      assert IndexOf(Placements(rows), cell) == |Placements(rows)|;
      c := Coord(0, 0, 1, 1);
    }

    /** The callback of formalCoordinate, at the first slot of cell `k` of row `i`. */
    method CoordinateAt(m: Grid, i: nat, k: nat, max: bool) returns (c: Coord)
      requires i < |rows| && k < |rows[i]|
      requires m == Build(PrefixPlacements(rows, i, k), cells)
      requires Absent(PrefixPlacements(rows, i, k), rows[i][k])
      ensures c == Coordinate(rows, cells, rows[i][k], max)
    {
      CoordinateFound(rows, cells, i, k, max);
      var cell := rows[i][k];
      var col := FirstFreeColumn(RowAt(m, i));
      var w := ColSpanOf(cells, cell);
      var h := RowSpanOf(cells, cell);
      if max {
        c := Coord(i + h - 1, col + w - 1, w, h);
      } else {
        c := Coord(i, col, w, h);
      }
    }

    /** One row of the scan of formalCoordinate. */
    method ScanRowFor(m0: Grid, i: nat, cell: CellId, max: bool) returns (found: bool, c: Coord, m: Grid)
      requires i < |rows|
      requires m0 == Build(Placements(rows[..i]), cells)
      requires Absent(Placements(rows[..i]), cell)
      ensures found ==> c == Coordinate(rows, cells, cell, max)
      ensures !found ==> m == Build(Placements(rows[..i + 1]), cells)
      ensures !found ==> Absent(Placements(rows[..i + 1]), cell)
    {
      RowDone(rows, i);
      m := m0;
      var k := 0;
      while k < |rows[i]|
        invariant 0 <= k <= |rows[i]|
        invariant m == Build(PrefixPlacements(rows, i, k), cells)
        invariant Absent(PrefixPlacements(rows, i, k), cell)
      {
        if rows[i][k] == cell {
          c := CoordinateAt(m, i, k, max);
          return true, c, m;
        }
        BuildStep(rows, cells, i, k);
        AbsentSnoc(PrefixPlacements(rows, i, k), Placement(rows[i][k], i), cell);
        m := SetCellAt(m, rows[i][k], i);
        k := k + 1;
      }
      found, c := false, Coord(0, 0, 1, 1);
    }
  
    /**
     * `getSelectedBound(table, selectedCells)`; `None` when the first pass meets an undefined
     * row and throws.
     */
    method GetSelectedBound(sel: seq<CellId>) returns (b: Option<Bound>)
      ensures b == SelectionBound(Matrix.FormalMatrix(rows, cells), sel)
    {
      var m := FormalMatrix();
      var broken := IsBroken(m);
      if broken {
        return None;
      }
      var e := FirstPassLoop(m, sel);
      if e.Rect? {
        e := SecondPassLoop(m, e);
      }
      b := Some(e);
    }

    /** Whether some row of the formal matrix after the first is undefined (read as empty). */
    static method IsBroken(m: Grid) returns (broken: bool)
      ensures broken == Broken(m)
    {
      var i := 1;
      while i < |m|
        invariant 1 <= i <= |m| || (|m| == 0 && i == 1)
        invariant forall k | 0 <= k < i && k < |m| :: !Undefined(m, k)
      {
        if |m[i]| == 0 {
          assert Undefined(m, i);
          return true;
        }
        i := i + 1;
      }
      return false;
    }

    /** The second pass of getSelectedBound, from the first pass's rectangle `e`. */
    static method SecondPassLoop(m: Grid, e: Bound) returns (b: Bound)
      requires Within(m, e)
      ensures b == ScanRows(m, e.top, e)
    {
      b := e;
      var i: nat := b.top;
      while i <= b.bottom
        invariant Within(m, b)
        invariant ScanRows(m, i, b) == ScanRows(m, e.top, e)
        decreases |m| - i
      {
        b := ScanRowLoop(m, i, b);
        i := i + 1;
      }
    }

    /** The first pass of getSelectedBound. */
    static method FirstPassLoop(m: Grid, sel: seq<CellId>) returns (b: Bound)
      ensures b == Enclosing(m, sel)
    {
      b := NoSelection;
      var i := 0;
      while i < |m|
        invariant 0 <= i <= |m|
        invariant b.Rect? ==> Within(m, b)
        invariant FirstPass(m, sel, i, b) == Enclosing(m, sel)
      {
        ghost var b0 := b;
        var j := 0;
        ghost var goal := FirstPassRow(m, sel, i, 0, b0);
        while j < |m[i]|
          invariant 0 <= j <= |m[i]|
          invariant b.Rect? ==> Within(m, b)
          invariant FirstPassRow(m, sel, i, j, b) == goal
        {
          if Selected(m, sel, i, j) {
            b := Include(b, i, j);
          }
          j := j + 1;
        }
        i := i + 1;
      }
    }

    /** One row of the second pass of getSelectedBound (`k` starts at 1 for every row). */
    static method ScanRowLoop(m: Grid, i: nat, b0: Bound) returns (b: Bound)
      requires Within(m, b0)
      ensures b == ScanRow(m, i, b0.left, 1, b0)
    {
      b := b0;
      var k: nat := 1;
      var j: nat := b.left;
      while j <= b.right
        invariant Within(m, b)
        invariant ScanRow(m, i, j, k, b) == ScanRow(m, i, b0.left, 1, b0)
        decreases Width(m) - j
      {
        b, k := WalkLeftLoop(m, i, j, k, b);
        b := WalkRightLoop(m, i, j, b);
        b := WalkUpLoop(m, i, j, b);
        b, k := WalkDownLoop(m, i, j, b);
        j := j + 1;
      }
    }

    static method WalkLeftLoop(m: Grid, i: int, j: int, k0: nat, b0: Bound) returns (b: Bound, k: nat)
      requires b0.Rect?
      ensures b == WalkLeft(m, i, j, k0, b0)
    {
      b, k := b0, k0;
      while SameInRow(m, i, j, j - k)
        invariant b.Rect? && WalkLeft(m, i, j, k, b) == WalkLeft(m, i, j, k0, b0)
        decreases j - k + 1
      {
        b := b.(left := Min(j - k, b.left), right := Max(j - k, b.right));
        k := k + 1;
      }
    }

    static method WalkRightLoop(m: Grid, i: int, j: nat, b0: Bound) returns (b: Bound)
      requires b0.Rect?
      ensures b == WalkRight(m, i, j, 1, b0)
    {
      b := b0;
      var k := 1;
      while SameInRow(m, i, j, j + k)
        invariant b.Rect? && WalkRight(m, i, j, k, b) == WalkRight(m, i, j, 1, b0)
        decreases |RowAt(m, i)| - (j + k)
      {
        b := b.(left := Min(j + k, b.left), right := Max(j + k, b.right));
        k := k + 1;
      }
    }

    static method WalkUpLoop(m: Grid, i: int, j: int, b0: Bound) returns (b: Bound)
      requires b0.Rect?
      ensures b == WalkUp(m, i, j, 1, b0)
    {
      b := b0;
      var k := 1;
      while SameInColumn(m, i, j, i - k)
        invariant b.Rect? && WalkUp(m, i, j, k, b) == WalkUp(m, i, j, 1, b0)
        decreases i - k + 1
      {
        b := b.(top := Min(i - k, b.top), bottom := Max(i - k, b.bottom));
        k := k + 1;
      }
    }

    /** The downward walk; `k` is returned, since the next column's leftward walk starts from it. */
    static method WalkDownLoop(m: Grid, i: nat, j: int, b0: Bound) returns (b: Bound, k: nat)
      requires b0.Rect?
      ensures b == WalkDown(m, i, j, 1, b0) && k == DownEnd(m, i, j, 1)
    {
      b, k := b0, 1;
      while SameInColumn(m, i, j, i + k)
        invariant b.Rect? && k >= 1
        invariant WalkDown(m, i, j, k, b) == WalkDown(m, i, j, 1, b0) && DownEnd(m, i, j, k) == DownEnd(m, i, j, 1)
        decreases |m| - (i + k)
      {
        b := b.(top := Min(i + k, b.top), bottom := Max(i + k, b.bottom));
        k := k + 1;
      }
    }

    // -------------------------------------------------------------------------------------
    // normalizeTable

    /**
     * `normalizeTable(table)`: called with no writes outstanding (every operation unmarks before
     * it normalizes); it starts its own `__marked` list. `thrown` tells that the sweeps met an
     * undefined row of the matrix and threw before any attribute was written; the writes they
     * had queued by then stay on the cells as their `__marked_value` records.
     */
    method NormalizeTable() returns (thrown: bool)
      requires pending == map[]
      modifies this
      ensures thrown == Normalize(old(State())).Thrown?
      ensures State() == Normalize(old(State())).doc
      ensures old(Valid()) ==> Valid()
      ensures pending == Leftover(old(State()))
    {
      NormalizeKeepsRows(State());
      var m := FormalMatrix();
      NormalizeSweepsThrow(m, cells);
      marked := [];
      thrown := ColumnSweepLoop(m);
      if thrown {
        return;
      }
      thrown := RowSweepLoop(m);
      if thrown {
        return;
      }
      TidyLoop(m);
      Unmark();
    }

    /**
     * The colspan sweep over the columns of `box[0]`, until the scan of a column throws at an
     * undefined row.
     */
    method ColumnSweepLoop(m: Grid) returns (thrown: bool)
      modifies this
      ensures var s := ColumnSweepUntil(m, cells, 0, old(pending));
              thrown == s.thrown && pending == s.queued
      ensures rows == old(rows) && cells == old(cells) && next == old(next)
      ensures old(MarksListed()) ==> MarksListed()
    {
      ghost var p0 := pending;
      ghost var listed := MarksListed();
      var j := 0;
      ghost var goal := ColumnSweepUntil(m, cells, 0, p0);
      while j < |RowAt(m, 0)|
        invariant j <= |RowAt(m, 0)|
        invariant ColumnSweepUntil(m, cells, j, pending) == goal
        invariant rows == old(rows) && cells == old(cells) && next == old(next)
        invariant listed ==> MarksListed()
      {
        var min, t := ColumnMinLoop(m, j);
        if t {
          return true;
        }
        if min.Some? {
          MarkColumnLoop(m, j, min.value);
        }
        j := j + 1;
      }
      thrown := false;
    }

    /**
     * The scan of column `j` for the smallest colSpan, `None` standing for `not`; `thrown` tells
     * that it read a slot of an undefined row.
     */
    method ColumnMinLoop(m: Grid, j: int) returns (r: Option<int>, thrown: bool)
      ensures thrown == ColumnScanThrows(m, cells, j, 0)
      ensures !thrown ==> r == ColumnMin(m, cells, j, 0, MinStart)
    {
      var min := MinStart;
      var i := 0;
      ghost var goal := ColumnMin(m, cells, j, 0, MinStart);
      ghost var throws := ColumnScanThrows(m, cells, j, 0);
      while i < |m|
        invariant 0 <= i <= |m| && 2 <= min
        invariant ColumnMin(m, cells, j, i, min) == goal
        invariant ColumnScanThrows(m, cells, j, i) == throws
      {
        if Undefined(m, i) {
          return None, true;
        }
        var s := Get(m, i, j);
        if s.Some? {
          var span := ColSpanOf(cells, s.value);
          if span < 2 {
            return None, false;
          }
          min := if span < min then span else min;
        }
        i := i + 1;
      }
      r, thrown := Some(min), false;
    }

    /** Every cell of column `j` is marked with colspan `colSpan - min + 1`. */
    method MarkColumnLoop(m: Grid, j: int, min: int)
      modifies this
      ensures pending == MarkColumn(m, cells, j, 0, min, old(pending))
      ensures rows == old(rows) && cells == old(cells) && next == old(next)
      ensures old(MarksListed()) ==> MarksListed()
    {
      ghost var goal := MarkColumn(m, cells, j, 0, min, pending);
      ghost var listed := MarksListed();
      var i := 0;
      while i < |m|
        invariant 0 <= i <= |m|
        invariant MarkColumn(m, cells, j, i, min, pending) == goal
        invariant rows == old(rows) && cells == old(cells) && next == old(next)
        invariant listed ==> MarksListed()
      {
        MarkColumnStep(m, cells, j, i, min, pending);
        MarkColumnSlot(m, j, i, min);
        i := i + 1;
      }
    }

    /** The colspan mark of one slot of column `j`, when a cell holds it. */
    method MarkColumnSlot(m: Grid, j: int, i: nat, min: int)
      modifies this
      ensures var s := Get(m, i, j);
              pending == if s.Some? then MarkWrite(old(pending), s.value, ColSpanTo(ColSpanOf(cells, s.value) - min + 1)) else old(pending)
      ensures rows == old(rows) && cells == old(cells) && next == old(next)
      ensures old(MarksListed()) ==> MarksListed()
    {
      var s := Get(m, i, j);
      if s.Some? {
        Mark(s.value, ColSpanTo(ColSpanOf(cells, s.value) - min + 1));
      }
    }

    /** The rowspan sweep over the rows of the matrix, until `box[i].length` throws. */
    method RowSweepLoop(m: Grid) returns (thrown: bool)
      modifies this
      ensures var s := RowSweepUntil(m, cells, 0, old(pending));
              thrown == s.thrown && pending == s.queued
      ensures rows == old(rows) && cells == old(cells) && next == old(next)
      ensures old(MarksListed()) ==> MarksListed()
    {
      ghost var p0 := pending;
      ghost var listed := MarksListed();
      var i := 0;
      ghost var goal := RowSweepUntil(m, cells, 0, p0);
      while i < |m|
        invariant i <= |m|
        invariant RowSweepUntil(m, cells, i, pending) == goal
        invariant rows == old(rows) && cells == old(cells) && next == old(next)
        invariant listed ==> MarksListed()
      {
        if Undefined(m, i) {
          return true;
        }
        var min := RowMinLoop(m, i);
        if min.Some? {
          MarkRowLoop(m, i, min.value);
        }
        i := i + 1;
      }
      thrown := false;
    }

    /** The scan of row `i` for the smallest rowSpan, `None` standing for `not`. */
    method RowMinLoop(m: Grid, i: nat) returns (r: Option<int>)
      requires i < |m|
      ensures r == RowMin(m, cells, i, 0, MinStart)
    {
      var min := MinStart;
      var j := 0;
      ghost var goal := RowMin(m, cells, i, 0, MinStart);
      while j < |m[i]|
        invariant 0 <= j <= |m[i]| && 2 <= min
        invariant RowMin(m, cells, i, j, min) == goal
      {
        var s := m[i][j];
        if s.Some? {
          var span := RowSpanOf(cells, s.value);
          if span < 2 {
            return None;
          }
          min := if span < min then span else min;
        }
        j := j + 1;
      }
      r := Some(min);
    }

    /** Every cell of row `i` is marked with rowspan `rowSpan - min + 1`. */
    method MarkRowLoop(m: Grid, i: nat, min: int)
      requires i < |m|
      modifies this
      ensures pending == MarkRow(m, cells, i, 0, min, old(pending))
      ensures rows == old(rows) && cells == old(cells) && next == old(next)
      ensures old(MarksListed()) ==> MarksListed()
    {
      ghost var goal := MarkRow(m, cells, i, 0, min, pending);
      ghost var listed := MarksListed();
      var j := 0;
      while j < |m[i]|
        invariant 0 <= j <= |m[i]|
        invariant MarkRow(m, cells, i, j, min, pending) == goal
        invariant rows == old(rows) && cells == old(cells) && next == old(next)
        invariant listed ==> MarksListed()
      {
        MarkRowStep(m, cells, i, j, min, pending);
        MarkRowSlot(m[i][j], min);
        j := j + 1;
      }
    }

    /** The rowspan mark of one slot, when a cell holds it. */
    method MarkRowSlot(s: Slot, min: int)
      modifies this
      ensures pending == if s.Some? then MarkWrite(old(pending), s.value, RowSpanTo(RowSpanOf(cells, s.value) - min + 1)) else old(pending)
      ensures rows == old(rows) && cells == old(cells) && next == old(next)
      ensures old(MarksListed()) ==> MarksListed()
    {
      if s.Some? {
        Mark(s.value, RowSpanTo(RowSpanOf(cells, s.value) - min + 1));
      }
    }

    /** The clean-up pass over every slot of the matrix. */
    method TidyLoop(m: Grid)
      modifies this
      ensures cells == TidyRows(m, 0, old(cells))
      ensures rows == old(rows) && next == old(next) && marked == old(marked) && pending == old(pending)
    {
      ghost var c0 := cells;
      var i := 0;
      ghost var goal := TidyRows(m, 0, c0);
      while i < |m|
        invariant i <= |m|
        invariant TidyRows(m, i, cells) == goal
        invariant rows == old(rows) && next == old(next) && marked == old(marked) && pending == old(pending)
      {
        ghost var before := cells;
        var j := 0;
        ghost var rowGoal := TidyRow(m, i, 0, before);
        while j < |m[i]|
          invariant 0 <= j <= |m[i]|
          invariant TidyRow(m, i, j, cells) == rowGoal
          invariant rows == old(rows) && next == old(next) && marked == old(marked) && pending == old(pending)
        {
          if m[i][j].Some? && m[i][j].value in cells {
            TidyCell(m[i][j].value);
          }
          j := j + 1;
        }
        i := i + 1;
      }
    }

    /** The three attribute checks on one cell of the matrix. */
    method TidyCell(id: CellId)
      requires id in cells
      modifies this
      ensures cells == old(cells)[id := Tidy(old(cells)[id])]
      ensures rows == old(rows) && next == old(next) && marked == old(marked) && pending == old(pending)
    {
      var c := cells[id];
      if c.rowspan.Some? && RowSpan(c) == 1 {
        c := c.(rowspan := None);
      }
      if c.colspan.Some? && ColSpan(c) == 1 {
        c := c.(colspan := None);
      }
      if c.cls == Some("") {
        c := c.(cls := None);
      }
      cells := cells[id := c];
    }

    // -------------------------------------------------------------------------------------
    // appendRow, removeRow

    /** `Dom.create('td', '')`: a plain empty cell under the next identity. */
    method CreateCell() returns (c: CellId)
      modifies this
      ensures c == old(next) && next == old(next) + 1 && cells == old(cells)[c := NewCell("")]
      ensures rows == old(rows) && marked == old(marked) && pending == old(pending)
    {
      c := next;
      cells := cells[c := NewCell("")];
      next := next + 1;
    }

    /** `appendRow(table, line, after)`, `line` given as the index of the reference row. */
    method AppendRow(line: Option<nat>, after: bool)
      requires Valid() && (line.Some? ==> line.value < |rows|)
      modifies this
      ensures State() == RowOps.AppendRow(old(State()), line, after)
      ensures Valid() && marked == old(marked) && pending == old(pending)
    {
      AppendRowShape(State(), line, after);
      var n := ColumnsCount();
      var row := NewRow(n);
      var pos;
      if after && line.Some? && line.value + 1 < |rows| {
        pos := line.value + 1;
      } else if !after && line.Some? {
        pos := line.value;
      } else {
        pos := |rows|;
      }
      rows := rows[..pos] + [row] + rows[pos..];
    }

    /** The `tr` of appendRow: `n` new plain cells. */
    method NewRow(n: nat) returns (row: seq<CellId>)
      modifies this
      ensures row == Ids(old(next), n) && cells == Create(old(cells), old(next), n) && next == old(next) + n
      ensures rows == old(rows) && marked == old(marked) && pending == old(pending)
    {
      row := [];
      var j := 0;
      while j < n
        invariant 0 <= j <= n && next == old(next) + j && row == Ids(old(next), j)
        invariant Create(cells, next, n - j) == Create(old(cells), old(next), n)
        invariant rows == old(rows) && marked == old(marked) && pending == old(pending)
      {
        var c := CreateCell();
        row := row + [c];
        j := j + 1;
      }
    }

    /**
     * `removeRow(table, r)`; `thrown` tells that a DOM exception ended it, with the changes
     * made before it kept.
     */
    method RemoveRow(r: nat) returns (thrown: bool)
      requires Valid()
      modifies this
      ensures thrown == RowOps.RemoveRow(old(State()), r).Thrown?
      ensures State() == RowOps.RemoveRow(old(State()), r).doc
      ensures Valid() && marked == old(marked) && pending == old(pending)
    {
      RemoveRowEffect(State(), r, false);
      var box := FormalMatrix();
      ghost var d0 := State();
      var j := 0;
      ghost var goal := RemoveRowSlots(box, r, 0, d0, false);
      while j < |RowAt(box, r)|
        invariant j <= |RowAt(box, r)|
        invariant RemoveRowSlots(box, r, j, State(), false) == goal
        invariant marked == old(marked) && pending == old(pending)
      {
        thrown := RemoveRowAt(box, r, j);
        if thrown {
          return;
        }
        j := j + 1;
      }
      thrown := false;
      if r < |rows| {
        rows := rows[..r] + rows[r + 1..];
      }
    }

    /** The callback of removeRow for slot (r, j) of `box`. */
    method RemoveRowAt(box: Grid, r: nat, j: nat) returns (thrown: bool)
      modifies this
      ensures RemoveRowSlot(box, r, j, old(State()), false) == if thrown then Thrown(State()) else Done(State())
      ensures marked == old(marked) && pending == old(pending)
    {
      if r >= 1 && Undefined(box, r - 1) {
        return true;
      }
      var s := Get(box, r, j);
      if s.None? {
        return true;
      }
      var c := s.value;
      var dec := false;
      if r >= 1 && Get(box, r - 1, j) == Some(c) {
        dec := true;
      } else if Get(box, r + 1, j) == Some(c) {
        if Parent(rows, c) == Some(r) && r + 1 < |rows| {
          dec := true;
          thrown := RelocateAt(box, r, j, c);
          if thrown {
            return;
          }
        }
      } else {
        rows := Detach(rows, c);
      }
      if dec {
        ShrinkAt(box, r, j, c);
      }
      thrown := false;
    }

    /** The move of a cell that starts in row `r` and goes on below into row `r + 1`. */
    method RelocateAt(box: Grid, r: nat, j: nat, c: CellId) returns (thrown: bool)
      requires r + 1 < |rows|
      modifies this
      ensures Relocate(box, r, j, old(State()), c, false) == if thrown then Thrown(State()) else Done(State())
      ensures marked == old(marked) && pending == old(pending)
    {
      var n := j + 1;
      while Get(box, r + 1, n) == Some(c)
        invariant RunEnd(box, r + 1, n, c) == RunEnd(box, r + 1, j + 1, c)
        decreases |RowAt(box, r + 1)| - n
      {
        n := n + 1;
      }
      var ref := Get(box, r + 1, n);
      if ref.Some? {
        if ref.value !in rows[r + 1] {
          return true;
        }
        rows := MoveBefore(rows, c, r + 1, ref.value);
      } else {
        rows := MoveToEnd(rows, c, r + 1);
      }
      thrown := false;
    }

    /** The once-per-cell rowspan decrement of removeRow. */
    method ShrinkAt(box: Grid, r: nat, j: nat, c: CellId)
      modifies this
      ensures State() == Shrink(old(State()), box, r, j, c)
      ensures marked == old(marked) && pending == old(pending)
    {
      if (Parent(rows, c) == Some(r) || Get(box, r, j - 1) != Some(c)) && c in cells {
        var span := RowSpan(cells[c]);
        cells := cells[c := cells[c].(rowspan := if span - 1 > 1 then Some(span - 1) else None)];
      }
    }

    // ---------------------------------------------------------------------------------------
    // appendColumn, removeColumn

    /** `appendColumn(table, j, after)`, `j` not given as `None`. */
    method AppendColumn(j: Option<int>, after: bool) returns (thrown: bool)
      requires Valid()
      modifies this
      ensures thrown == ColumnOps.AppendColumn(old(State()), j, after).Thrown?
      ensures State() == ColumnOps.AppendColumn(old(State()), j, after).doc
      ensures Valid() && marked == old(marked) && pending == old(pending)
    {
      AppendColumnEffect(State(), j, after);
      var box := FormalMatrix();
      var col: int;
      if j.None? {
        var n := ColumnsCount();
        col := n as int - 1;
      } else {
        col := j.value;
      }
      thrown := AppendColumnLoop(box, col, after);
    }

    /** appendColumn's loop over the formal rows of `box` at column `j`. */
    method AppendColumnLoop(box: Grid, j: int, after: bool) returns (thrown: bool)
      modifies this
      ensures AppendColumnRows(box, j, after, 0, old(State())) == if thrown then Thrown(State()) else Done(State())
      ensures marked == old(marked) && pending == old(pending)
    {
      ghost var d0 := State();
      var i := 0;
      ghost var goal := AppendColumnRows(box, j, after, 0, d0);
      while i < |box|
        invariant i <= |box|
        invariant AppendColumnRows(box, j, after, i, State()) == goal
        invariant marked == old(marked) && pending == old(pending)
      {
        thrown := AppendColumnAt(box, i, j, after);
        if thrown {
          return;
        }
        i := i + 1;
      }
      thrown := false;
    }

    /** The body of appendColumn's loop for formal row `i` of `box`. */
    method AppendColumnAt(box: Grid, i: nat, j: int, after: bool) returns (thrown: bool)
      modifies this
      ensures AppendColumnSlot(box, i, j, after, old(State())) == if thrown then Thrown(State()) else Done(State())
      ensures marked == old(marked) && pending == old(pending)
    {
      var c := CreateCell();
      var s := Get(box, i, j);
      if s.None? {
        return true;
      }
      var x := s.value;
      var added := false;
      if after {
        if j + 1 >= |RowAt(box, i)| || Get(box, i, j + 1) != s {
          var p := Parent(rows, x);
          if p.None? {
            return true;
          }
          rows := rows[p.value := InsertAfter(rows[p.value], x, c)];
          added := true;
        }
      } else {
        if j - 1 < 0 || Get(box, i, j - 1) != s {
          var p := Parent(rows, x);
          if p.None? {
            return true;
          }
          rows := rows[p.value := InsertBefore(rows[p.value], c, x)];
          added := true;
        }
      }
      if !added && x in cells {
        cells := cells[x := cells[x].(colspan := Widened(cells[x].colspan))];
      }
      thrown := false;
    }

    /** `removeColumn(table, j)`. */
    method RemoveColumn(j: int) returns (thrown: bool)
      requires Valid()
      modifies this
      ensures thrown == ColumnOps.RemoveColumn(old(State()), j).Thrown?
      ensures State() == ColumnOps.RemoveColumn(old(State()), j).doc
      ensures Valid() && marked == old(marked) && pending == old(pending)
    {
      RemoveColumnEffect(State(), j);
      var box := FormalMatrix();
      ghost var d0 := State();
      var i := 0;
      ghost var goal := RemoveColumnRows(box, j, 0, d0);
      while i < |box|
        invariant i <= |box|
        invariant RemoveColumnRows(box, j, i, State()) == goal
        invariant marked == old(marked) && pending == old(pending)
      {
        thrown := RemoveColumnAt(box, i, j);
        if thrown {
          return;
        }
        i := i + 1;
      }
      thrown := false;
    }

    /** The callback of removeColumn for formal row `i` of `box`. */
    method RemoveColumnAt(box: Grid, i: nat, j: int) returns (thrown: bool)
      modifies this
      ensures RemoveColumnSlot(box, i, j, old(State())) == if thrown then Thrown(State()) else Done(State())
      ensures marked == old(marked) && pending == old(pending)
    {
      if Undefined(box, i) {
        return true;
      }
      var x := Get(box, i, j);
      var dec := false;
      if j - 1 >= 0 && Get(box, i, j - 1) == x {
        dec := true;
      } else if j + 1 < |RowAt(box, i)| && Get(box, i, j + 1) == x {
        dec := true;
      } else {
        if x.None? {
          return true;
        }
        rows := Detach(rows, x.value);
      }
      if dec && i >= 1 && Undefined(box, i - 1) {
        return true;
      }
      if dec && (i - 1 < 0 || x != Get(box, i - 1, j)) {
        if x.None? {
          return true;
        }
        var c := x.value;
        if c in cells {
          var span := ColSpan(cells[c]);
          if span - 1 > 1 {
            cells := cells[c := cells[c].(colspan := Some(span - 1))];
          } else {
            cells := cells[c := cells[c].(colspan := None)];
          }
        }
      }
      thrown := false;
    }

    // ---------------------------------------------------------------------------------------
    // mergeSelected

    /** `mergeSelected(table)`. */
    method MergeSelected() returns (thrown: bool)
      requires Valid() && pending == map[]
      modifies this
      ensures thrown == Merging.MergeSelected(old(State())).Thrown?
      ensures State() == Merging.MergeSelected(old(State())).doc
      ensures Valid() && pending == MergeLeftover(old(State()))
    {
      MergeSelectedClosed(State());
      var sel := GetAllSelectedCells();
      var sb := GetSelectedBound(sel);
      if sb.None? {
        return true;
      }
      var b := sb.value;
      if b.Rect? && b.top == b.bottom && b.left == b.right {
        return false;
      }
      thrown := MergeWithin(b);
    }

    /** mergeSelected once the bound `b` covers more than one slot. */
    method MergeWithin(b: Bound) returns (thrown: bool)
      requires Valid() && pending == map[]
      modifies this
      ensures var g := Gather(Placements(old(rows)), old(cells), b);
              var o := if |g.met| == 0 then Done(old(State())) else MergeResult(old(State()), g, b);
              thrown == o.Thrown? && State() == o.doc
      ensures var g := Gather(Placements(old(rows)), old(cells), b);
              pending == if |g.met| == 0 then map[] else Leftover(MergeCells(old(State()), g, b))
    {
      ghost var d0 := State();
      marked := [];
      var met, html := GatherLoop(b);
      GatherMarks(Placements(rows), cells, b);
      if |met| == 0 {
        return false;
      }
      MergeCommit(met, html, b);
      MergeCellsClosed(d0, Gather(Placements(d0.rows), d0.cells, b), b);
      thrown := NormalizeTable();
      if thrown {
        return;
      }
      DropEmptyRows();
    }

    /** The span marks and the contents of the first cell, then `__unmark`. */
    method MergeCommit(met: seq<CellId>, html: seq<Html>, b: Bound)
      requires |met| > 0 && MarksListed() && met[0] !in pending
      modifies this
      ensures State() == MergeCells(old(State()), Gathered(met, html, old(pending)), b)
      ensures pending == map[]
    {
      var first := met[0];
      ghost var p0 := pending;
      if b.Rect? {
        if b.right - b.left + 1 > 1 {
          Mark(first, ColSpanTo(b.right - b.left + 1));
        }
        if b.bottom - b.top + 1 > 1 {
          Mark(first, RowSpanTo(b.bottom - b.top + 1));
        }
      }
      assert pending == SpanMarks(p0, first, b);
      if first in cells {
        cells := cells[first := cells[first].(html := Join(html, "<br/>"))];
      }
      Unmark();
    }

    /** formalMatrix(table, callback) with the callback of mergeSelected. */
    method GatherLoop(b: Bound) returns (met: seq<CellId>, html: seq<Html>)
      requires pending == map[] && MarksListed()
      modifies this
      ensures Gathered(met, html, pending) == Gather(Placements(rows), cells, b)
      ensures rows == old(rows) && cells == old(cells) && next == old(next) && MarksListed()
    {
      var m: Grid := [[]];
      met, html := [], [];
      var visited: set<CellId> := {};
      var i := 0;
      while i < |rows|
        invariant 0 <= i <= |rows|
        invariant rows == old(rows) && cells == old(cells) && next == old(next) && MarksListed()
        invariant m == Build(Placements(rows[..i]), cells)
        invariant Gathered(met, html, pending) == Gather(Placements(rows[..i]), cells, b)
        invariant forall c :: c in visited <==> c in met
      {
        m, met, visited, html := GatherRow(m, i, b, met, visited, html);
        i := i + 1;
      }
      assert rows[..|rows|] == rows;
    }

    /** The scan of formalMatrix over row `i`, with the callback of mergeSelected. */
    method GatherRow(m0: Grid, i: nat, b: Bound, met0: seq<CellId>, visited0: set<CellId>, html0: seq<Html>)
      returns (m: Grid, met: seq<CellId>, visited: set<CellId>, html: seq<Html>)
      requires i < |rows| && MarksListed()
      requires m0 == Build(Placements(rows[..i]), cells)
      requires Gathered(met0, html0, pending) == Gather(Placements(rows[..i]), cells, b)
      requires forall c :: c in visited0 <==> c in met0
      modifies this
      ensures rows == old(rows) && cells == old(cells) && next == old(next) && MarksListed()
      ensures m == Build(Placements(rows[..i + 1]), cells)
      ensures Gathered(met, html, pending) == Gather(Placements(rows[..i + 1]), cells, b)
      ensures forall c :: c in visited <==> c in met
    {
      RowDone(rows, i);
      m, met, visited, html := m0, met0, visited0, html0;
      var k := 0;
      while k < |rows[i]|
        invariant rows == old(rows) && cells == old(cells) && next == old(next) && MarksListed()
        invariant 0 <= k <= |rows[i]|
        invariant m == Build(PrefixPlacements(rows, i, k), cells)
        invariant Gathered(met, html, pending) == Gather(PrefixPlacements(rows, i, k), cells, b)
        invariant forall c :: c in visited <==> c in met
      {
        BuildStep(rows, cells, i, k);
        GatherSnoc(PrefixPlacements(rows, i, k), Placement(rows[i][k], i), cells, b);
        met, visited, html := VisitCell(m, i, rows[i][k], b, met, visited, html);
        m := SetCellAt(m, rows[i][k], i);
        k := k + 1;
      }
    }

    /** The callback of mergeSelected for the slots of `td`, placed in row `i` of the matrix `m` built so far. */
    method VisitCell(m: Grid, i: nat, td: CellId, b: Bound, met0: seq<CellId>, visited0: set<CellId>, html0: seq<Html>)
      returns (met: seq<CellId>, visited: set<CellId>, html: seq<Html>)
      requires MarksListed() && forall c :: c in visited0 <==> c in met0
      modifies this
      ensures Gathered(met, html, pending) == Visit(Gathered(met0, html0, old(pending)), cells, b, Placement(td, i), FormalColumn(m, i))
      ensures forall c :: c in visited <==> c in met
      ensures rows == old(rows) && cells == old(cells) && next == old(next) && MarksListed()
    {
      met, visited, html := met0, visited0, html0;
      var col := FirstFreeColumn(RowAt(m, i));
      if !Meets(cells, b, Placement(td, i), col) || td in visited {
        return;
      }
      visited := visited + {td};
      var h := HtmlOf(cells, td);
      if !Blank(h) {
        html := html + [h];
      }
      if |met| > 0 {
        Mark(td, Remove);
      }
      met := met + [td];
    }

    /** `if (!tr.cells.length) tr.parentNode.removeChild(tr)` over a copy of `table.rows`. */
    method DropEmptyRows()
      modifies this
      ensures rows == NonEmptyRows(old(rows))
      ensures cells == old(cells) && next == old(next) && marked == old(marked) && pending == old(pending)
    {
      var kept: seq<seq<CellId>> := [];
      var i := 0;
      while i < |rows|
        invariant 0 <= i <= |rows|
        invariant kept == NonEmptyRows(rows[..i])
      {
        assert rows[..i + 1][..i] == rows[..i];
        if |rows[i]| > 0 {
          kept := kept + [rows[i]];
        }
        i := i + 1;
      }
      assert rows[..|rows|] == rows;
      rows := kept;
    }
    // ---------------------------------------------------------------------------------------
    // splitVertical and splitHorizontal

    /** `Dom.create('td')` with a `<br>` appended: the new cell of a split. */
    method CreateBreakCell() returns (c: CellId)
      modifies this
      ensures c == old(next) && State() == WithNewCell(old(State()))
      ensures marked == old(marked) && pending == old(pending)
    {
      c := next;
      cells := cells[c := NewCell(BreakHtml)];
      next := next + 1;
    }

    /**
     * `formalMatrix(table, cb)` with one of the grow callbacks of the splits: every cell the
     * callback marks gets its write queued.
     */
    method GrowLoop(cb: Callback)
      requires !cb.Anchor? && MarksListed()
      modifies this
      ensures Walk(Placements(rows), cb, rows, cells, Scan(old(pending), None, None)) == Scan(pending, None, None)
      ensures rows == old(rows) && cells == old(cells) && next == old(next) && MarksListed()
    {
      ghost var start := Scan(pending, None, None);
      var m: Grid := [[]];
      var i := 0;
      while i < |rows|
        invariant 0 <= i <= |rows|
        invariant rows == old(rows) && cells == old(cells) && next == old(next) && MarksListed()
        invariant m == Build(Placements(rows[..i]), cells)
        invariant Walk(Placements(rows[..i]), cb, rows, cells, start) == Scan(pending, None, None)
      {
        m := GrowRow(m, i, cb, start);
        i := i + 1;
      }
      assert rows[..|rows|] == rows;
    }

    /** The scan of formalMatrix over row `i`, with a grow callback. */
    method GrowRow(m0: Grid, i: nat, cb: Callback, ghost start: Scan) returns (m: Grid)
      requires i < |rows| && !cb.Anchor? && MarksListed()
      requires m0 == Build(Placements(rows[..i]), cells)
      requires Walk(Placements(rows[..i]), cb, rows, cells, start) == Scan(pending, None, None)
      modifies this
      ensures rows == old(rows) && cells == old(cells) && next == old(next) && MarksListed()
      ensures m == Build(Placements(rows[..i + 1]), cells)
      ensures Walk(Placements(rows[..i + 1]), cb, rows, cells, start) == Scan(pending, None, None)
    {
      RowDone(rows, i);
      m := m0;
      var k := 0;
      while k < |rows[i]|
        invariant rows == old(rows) && cells == old(cells) && next == old(next) && MarksListed()
        invariant 0 <= k <= |rows[i]|
        invariant m == Build(PrefixPlacements(rows, i, k), cells)
        invariant Walk(PrefixPlacements(rows, i, k), cb, rows, cells, start) == Scan(pending, None, None)
      {
        BuildStep(rows, cells, i, k);
        WalkSnoc(PrefixPlacements(rows, i, k), Placement(rows[i][k], i), cb, rows, cells, start);
        GrowCell(m, i, rows[i][k], cb);
        m := SetCellAt(m, rows[i][k], i);
        k := k + 1;
      }
    }

    /** A grow callback for the slots of `td`, placed in row `i` of the matrix `m` built so far. */
    method GrowCell(m: Grid, i: nat, td: CellId, cb: Callback)
      requires !cb.Anchor? && MarksListed()
      modifies this
      ensures Step(Scan(old(pending), None, None), cb, rows, cells, Placement(td, i), FormalColumn(m, i)) == Scan(pending, None, None)
      ensures rows == old(rows) && cells == old(cells) && next == old(next) && MarksListed()
    {
      var col := FirstFreeColumn(RowAt(m, i));
      if Widens(cb, cells, Placement(td, i), col) {
        Mark(td, Growth(cb, cells, td));
      }
    }

    /**
     * `formalMatrix(table, cb)` with the callback of splitHorizontal that looks for the place
     * of the new cell: the `after` and `parent` variables it leaves.
     */
    method AnchorLoop(cb: Callback, after0: Option<CellId>, parent0: Option<int>) returns (after: Option<CellId>, parent: Option<int>)
      requires cb.Anchor?
      ensures Walk(Placements(rows), cb, rows, cells, Scan(map[], after0, parent0)) == Scan(map[], after, parent)
    {
      ghost var start := Scan(map[], after0, parent0);
      after, parent := after0, parent0;
      var m: Grid := [[]];
      var i := 0;
      while i < |rows|
        invariant 0 <= i <= |rows|
        invariant m == Build(Placements(rows[..i]), cells)
        invariant Walk(Placements(rows[..i]), cb, rows, cells, start) == Scan(map[], after, parent)
      {
        RowDone(rows, i);
        var k := 0;
        while k < |rows[i]|
          invariant 0 <= k <= |rows[i]|
          invariant m == Build(PrefixPlacements(rows, i, k), cells)
          invariant Walk(PrefixPlacements(rows, i, k), cb, rows, cells, start) == Scan(map[], after, parent)
        {
          BuildStep(rows, cells, i, k);
          WalkSnoc(PrefixPlacements(rows, i, k), Placement(rows[i][k], i), cb, rows, cells, start);
          after, parent := AnchorCell(m, i, rows[i][k], cb, after, parent);
          m := SetCellAt(m, rows[i][k], i);
          k := k + 1;
        }
        i := i + 1;
      }
      assert rows[..|rows|] == rows;
    }

    /** The anchor callback for the slots of `td`, placed in row `i` of the matrix `m` built so far. */
    method AnchorCell(m: Grid, i: nat, td: CellId, cb: Callback, after0: Option<CellId>, parent0: Option<int>)
      returns (after: Option<CellId>, parent: Option<int>)
      requires cb.Anchor?
      ensures Step(Scan(map[], after0, parent0), cb, rows, cells, Placement(td, i), FormalColumn(m, i)) == Scan(map[], after, parent)
    {
      var col := FirstFreeColumn(RowAt(m, i));
      after, parent := after0, parent0;
      if Anchors(rows, cells, Placement(td, i), col, cb.k, cb.x, cb.span) {
        after := Some(td);
      }
      var last := i + RowSpanOf(cells, td) - 1;
      if td == cb.cell && last > cb.k {
        parent := Some(last);
      }
    }

    /** `__unmark(__marked)` and `restoreSelection(cell)`, the end of one split. */
    method FinishSplit(cell: CellId)
      requires MarksListed()
      modifies this
      ensures State() == Finish(old(State()), old(pending), cell)
      ensures pending == map[]
    {
      Unmark();
      RestoreSelection(cell);
    }

    /** The body of splitVertical's loop for `cell`; `thrown` when `Dom.after` raises. */
    method SplitVerticalAt(cell: CellId) returns (thrown: bool)
      requires pending == map[]
      modifies this
      ensures var o := SplitVerticalCell(old(State()), cell);
              thrown == o.Thrown? && State() == o.doc
      ensures !thrown ==> pending == map[]
    {
      ghost var d := State();
      var rs := RowSpanOf(cells, cell);
      ColumnMarksAt(cell);
      var td := CreateBreakCell();
      ghost var d1 := State();
      if rs > 1 {
        Mark(td, RowSpanTo(rs));
      }
      assert pending == VerticalMarks(d, cell);
      var p := Parent(rows, cell);
      if p.None? {
        assert SplitVerticalCell(d, cell) == Thrown(d1);
        return true;
      }
      rows := rows[p.value := InsertAfter(rows[p.value], cell, td)];
      ghost var d2 := State();
      assert d2 == d1.(rows := d1.rows[p.value := InsertAfter(d1.rows[p.value], cell, td)]);
      assert SplitVerticalCell(d, cell) == Done(Finish(d2, VerticalMarks(d, cell), cell));
      FinishSplit(cell);
      thrown := false;
    }

    /** The writes splitVertical queues for the columns of `cell`. */
    method ColumnMarksAt(cell: CellId)
      requires pending == map[]
      modifies this
      ensures State() == old(State()) && pending == ColumnMarks(old(State()), cell) && MarksListed()
    {
      var co := FormalCoordinate(cell, false);
      var cs := ColSpanOf(cells, cell);
      if cs < 2 {
        GrowLoop(ColGrow(co.row, co.col, cell));
      } else {
        Mark(cell, ColSpanTo(cs - 1));
      }
    }

    /** `splitVertical(table)`; `thrown` tells that a DOM exception ended it. */
    method SplitVertical() returns (thrown: bool)
      requires Valid() && pending == map[]
      modifies this
      ensures thrown == Splitting.SplitVertical(old(State())).Thrown?
      ensures State() == Splitting.SplitVertical(old(State())).doc
      ensures Valid() && pending == Leftover(VerticalFrom(old(State()), AllSelected(old(State())), 0).doc)
    {
      ghost var d0 := State();
      VerticalFromClosed(d0);
      AllSelectedInTree(d0);
      var sel := GetAllSelectedCells();
      VerticalFromEffect(d0, sel, 0);
      thrown := VerticalLoop(sel);
      thrown := NormalizeTable();
    }

    /** splitVertical's loop over the selected cells `sel`. */
    method VerticalLoop(sel: seq<CellId>) returns (thrown: bool)
      requires pending == map[]
      modifies this
      ensures var o := VerticalFrom(old(State()), sel, 0);
              thrown == o.Thrown? && State() == o.doc
      ensures !thrown ==> pending == map[]
    {
      var k := 0;
      ghost var goal := VerticalFrom(old(State()), sel, 0);
      while k < |sel|
        invariant 0 <= k <= |sel| && pending == map[]
        invariant VerticalFrom(State(), sel, k) == goal
      {
        VerticalFromStep(State(), sel, k);
        thrown := SplitVerticalAt(sel[k]);
        if thrown {
          return;
        }
        k := k + 1;
      }
      thrown := false;
    }

    /** splitHorizontal for a cell one row high: a new row under the cell's row holds the new cell. */
    method SplitShortAt(cell: CellId) returns (thrown: bool)
      requires pending == map[]
      modifies this
      ensures var o := SplitShort(old(State()), cell);
              thrown == o.Thrown? && State() == o.doc
      ensures !thrown ==> pending == map[]
    {
      ghost var d := State();
      var cs := ColSpanOf(cells, cell);
      RowMarksOf(cell);
      var p := Parent(rows, cell);
      var td := CreateBreakCell();
      ghost var d1 := State();
      if p.None? {
        assert SplitShort(d, cell) == Thrown(d1);
        return true;
      }
      rows := rows[..p.value + 1] + [[td]] + rows[p.value + 1..];
      ghost var d2 := State();
      assert d2 == d1.(rows := d1.rows[..p.value + 1] + [[td]] + d1.rows[p.value + 1..]);
      if cs > 1 {
        Mark(td, ColSpanTo(cs));
      }
      assert pending == ShortMarks(d, cell);
      assert SplitShort(d, cell) == Done(Finish(d2, ShortMarks(d, cell), cell));
      FinishSplit(cell);
      thrown := false;
    }

    /** The writes splitHorizontal queues for the rows crossing a cell one row high. */
    method RowMarksOf(cell: CellId)
      requires pending == map[]
      modifies this
      ensures State() == old(State()) && MarksListed()
      ensures pending == RowMarksAt(old(State()), cell, Coordinate(old(rows), old(cells), cell, false))
    {
      var co := FormalCoordinate(cell, false);
      GrowLoop(RowGrow(co.row, co.col, cell));
    }

    /** splitHorizontal for a cell at least two rows high, from the `after` and `parent` left before. */
    method SplitTallAt(cell: CellId, after0: Option<CellId>, parent0: Option<int>)
      returns (thrown: bool, after: Option<CellId>, parent: Option<int>)
      requires pending == map[]
      modifies this
      ensures var r := SplitTall(old(State()), cell, after0, parent0);
              thrown == r.out.Thrown? && State() == r.out.doc && after == r.after && parent == r.parent
      ensures !thrown ==> pending == map[]
    {
      ghost var d := State();
      var cs := ColSpanOf(cells, cell);
      var rs := RowSpanOf(cells, cell);
      Mark(cell, RowSpanTo(rs - 1));
      ghost var p1 := pending;
      assert p1 == MarkWrite(map[], cell, RowSpanTo(RowSpanOf(d.cells, cell) - 1));
      after, parent := TallScanAt(cell, after0, parent0);
      assert TallScan(d, cell, after0, parent0) == Scan(map[], after, parent);
      var td := CreateBreakCell();
      assert td == d.next && State() == WithNewCell(d);
      thrown := PlaceNewCellAt(td, after, parent);
      if thrown {
        return;
      }
      if cs > 1 {
        Mark(td, ColSpanTo(cs));
      }
      assert pending == TallMarks(d, cell);
      FinishSplit(cell);
      thrown := false;
    }

    /** The formalCoordinate and formalMatrix scans of splitHorizontal for a cell at least two rows high. */
    method TallScanAt(cell: CellId, after0: Option<CellId>, parent0: Option<int>) returns (after: Option<CellId>, parent: Option<int>)
      ensures TallScan(State(), cell, after0, parent0) == Scan(map[], after, parent)
    {
      var co := FormalCoordinate(cell, false);
      after, parent := AnchorLoop(Anchor(co.row, co.col, RowSpanOf(cells, cell), cell), after0, parent0);
    }

    /**
     * Where splitHorizontal puts the new cell `td` of a taller cell: `Dom.after(after, td)`,
     * else `parent.insertBefore(td, parent.firstChild)`.
     */
    method PlaceNewCellAt(td: CellId, after: Option<CellId>, parent: Option<int>) returns (thrown: bool)
      modifies this
      ensures var o := PlaceNewCell(old(State()), td, Scan(map[], after, parent));
              thrown == o.Thrown? && State() == o.doc
      ensures marked == old(marked) && pending == old(pending)
    {
      thrown := false;
      if after.Some? {
        var q := Parent(rows, after.value);
        if q.None? {
          return true;
        }
        rows := rows[q.value := InsertAfter(rows[q.value], after.value, td)];
      } else if parent.Some? && 0 <= parent.value < |rows| {
        rows := rows[parent.value := [td] + rows[parent.value]];
      } else {
        thrown := true;
      }
    }

    /** The body of splitHorizontal's loop for `cell`. */
    method SplitHorizontalAt(cell: CellId, after0: Option<CellId>, parent0: Option<int>)
      returns (thrown: bool, after: Option<CellId>, parent: Option<int>)
      requires pending == map[]
      modifies this
      ensures var r := SplitHorizontalCell(old(State()), cell, after0, parent0);
              thrown == r.out.Thrown? && State() == r.out.doc && after == r.after && parent == r.parent
      ensures !thrown ==> pending == map[]
    {
      if RowSpanOf(cells, cell) < 2 {
        thrown := SplitShortAt(cell);
        after, parent := after0, parent0;
      } else {
        thrown, after, parent := SplitTallAt(cell, after0, parent0);
      }
    }

    /**
     * `splitHorizontal(table)` as written: `after` and `parent` are declared once for the whole
     * operation; `thrown` tells that a DOM exception ended it.
     */
    method SplitHorizontal() returns (thrown: bool)
      requires Valid() && pending == map[]
      modifies this
      ensures thrown == Splitting.SplitHorizontal(old(State()), false).Thrown?
      ensures State() == Splitting.SplitHorizontal(old(State()), false).doc
      ensures Valid()
      ensures var o := HorizontalFrom(old(State()), AllSelected(old(State())), 0, None, None, false);
              o.Done? ==> pending == Leftover(o.doc)
    {
      ghost var d0 := State();
      HorizontalFromClosed(d0, false);
      var sel := GetAllSelectedCells();
      thrown := HorizontalLoop(sel);
      if thrown {
        return;
      }
      thrown := NormalizeTable();
    }

    /** splitHorizontal's loop over the selected cells `sel`, from no `after` and no `parent`. */
    method HorizontalLoop(sel: seq<CellId>) returns (thrown: bool)
      requires pending == map[]
      modifies this
      ensures var o := HorizontalFrom(old(State()), sel, 0, None, None, false);
              thrown == o.Thrown? && State() == o.doc
      ensures !thrown ==> pending == map[]
    {
      var after: Option<CellId> := None;
      var parent: Option<int> := None;
      var k := 0;
      ghost var goal := HorizontalFrom(old(State()), sel, 0, None, None, false);
      while k < |sel|
        invariant 0 <= k <= |sel| && pending == map[]
        invariant HorizontalFrom(State(), sel, k, after, parent, false) == goal
      {
        HorizontalFromStep(State(), sel, k, after, parent, false);
        thrown, after, parent := SplitHorizontalAt(sel[k], after, parent);
        if thrown {
          return;
        }
        k := k + 1;
      }
      thrown := false;
    }
  }
}

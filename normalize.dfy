/**
 * Table.normalizeTable: per formal column, and then per formal row, a span that every cell
 * of that column (row) shares is trimmed; afterwards span attributes equal to 1 and empty
 * class attributes are dropped from every cell of the matrix. The trims are queued with
 * `__mark` and applied at the end; the clean-up writes the cells directly.
 */
module Normalization {
  import opened Wrappers
  import opened Cells
  import opened Matrix
  import opened Dom
  import opened Marks

  /** The `min` the source starts every column and row with. */
  const MinStart := 1000000

  /**
   * The scan of column `j` from row `i` on: `None` when a cell of the column has a colSpan
   * below 2 (`not = true; break`), otherwise the smallest colSpan met, capped by `min`.
   * Empty slots are skipped.
   */
  function ColumnMin(m: Grid, cells: map<CellId, Cell>, j: int, i: nat, min: int): (r: Option<int>)
    requires min >= 2
    ensures r.Some? ==> 2 <= r.value <= min
    ensures r.Some? ==> forall k :: i <= k < |m| && Get(m, k, j).Some? ==> ColSpanOf(cells, Get(m, k, j).value) >= r.value
    ensures r.None? ==> exists k :: i <= k < |m| && Get(m, k, j).Some? && ColSpanOf(cells, Get(m, k, j).value) < 2
    decreases |m| - i
  {
    if i >= |m| then Some(min)
    else match Get(m, i, j)
      case None => ColumnMin(m, cells, j, i + 1, min)
      case Some(c) =>
        if ColSpanOf(cells, c) < 2 then None
        else ColumnMin(m, cells, j, i + 1, if ColSpanOf(cells, c) < min then ColSpanOf(cells, c) else min)
  }

  /** The marking loop of column `j` from row `i` on: every cell met gets colspan `colSpan - min + 1`. */
  function MarkColumn(m: Grid, cells: map<CellId, Cell>, j: int, i: nat, min: int, p: map<CellId, Pending>): map<CellId, Pending>
    decreases |m| - i
  {
    if i >= |m| then p
    else match Get(m, i, j)
      case None => MarkColumn(m, cells, j, i + 1, min, p)
      case Some(c) => MarkColumn(m, cells, j, i + 1, min, MarkWrite(p, c, ColSpanTo(ColSpanOf(cells, c) - min + 1)))
  }

  /** One slot of the colspan marking of column `j`. */
  lemma MarkColumnStep(m: Grid, cells: map<CellId, Cell>, j: int, i: nat, min: int, p: map<CellId, Pending>)
    requires i < |m|
    ensures MarkColumn(m, cells, j, i, min, p) ==
            MarkColumn(m, cells, j, i + 1, min,
                       if Get(m, i, j).Some? then MarkWrite(p, Get(m, i, j).value, ColSpanTo(ColSpanOf(cells, Get(m, i, j).value) - min + 1)) else p)
  {
  }

  /** The colspan sweep from column `j` on; its columns are those of `box[0]`. */
  function ColumnSweep(m: Grid, cells: map<CellId, Cell>, j: nat, p: map<CellId, Pending>): map<CellId, Pending>
    decreases |RowAt(m, 0)| - j
  {
    if j >= |RowAt(m, 0)| then p
    else
      var p' := match ColumnMin(m, cells, j, 0, MinStart)
                case None => p
                case Some(min) => MarkColumn(m, cells, j, 0, min, p);
      ColumnSweep(m, cells, j + 1, p')
  }

  /** The scan of row `i` from column `j` on, as ColumnMin for rowSpan. */
  function RowMin(m: Grid, cells: map<CellId, Cell>, i: nat, j: nat, min: int): (r: Option<int>)
    requires i < |m| && min >= 2
    ensures r.Some? ==> 2 <= r.value <= min
    ensures r.Some? ==> forall x :: j <= x < |m[i]| && m[i][x].Some? ==> RowSpanOf(cells, m[i][x].value) >= r.value
    ensures r.None? ==> exists x :: j <= x < |m[i]| && m[i][x].Some? && RowSpanOf(cells, m[i][x].value) < 2
    decreases |m[i]| - j
  {
    if j >= |m[i]| then Some(min)
    else match m[i][j]
      case None => RowMin(m, cells, i, j + 1, min)
      case Some(c) =>
        if RowSpanOf(cells, c) < 2 then None
        else RowMin(m, cells, i, j + 1, if RowSpanOf(cells, c) < min then RowSpanOf(cells, c) else min)
  }

  /** The marking loop of row `i` from column `j` on: every cell met gets rowspan `rowSpan - min + 1`. */
  function MarkRow(m: Grid, cells: map<CellId, Cell>, i: nat, j: nat, min: int, p: map<CellId, Pending>): map<CellId, Pending>
    requires i < |m|
    decreases |m[i]| - j
  {
    if j >= |m[i]| then p
    else match m[i][j]
      case None => MarkRow(m, cells, i, j + 1, min, p)
      case Some(c) => MarkRow(m, cells, i, j + 1, min, MarkWrite(p, c, RowSpanTo(RowSpanOf(cells, c) - min + 1)))
  }

  /** One slot of the rowspan marking of row `i`. */
  lemma MarkRowStep(m: Grid, cells: map<CellId, Cell>, i: nat, j: nat, min: int, p: map<CellId, Pending>)
    requires i < |m| && j < |m[i]|
    ensures MarkRow(m, cells, i, j, min, p) ==
            MarkRow(m, cells, i, j + 1, min,
                    if m[i][j].Some? then MarkWrite(p, m[i][j].value, RowSpanTo(RowSpanOf(cells, m[i][j].value) - min + 1)) else p)
  {
  }

  /** The rowspan sweep from row `i` on. */
  function RowSweep(m: Grid, cells: map<CellId, Cell>, i: nat, p: map<CellId, Pending>): map<CellId, Pending>
    decreases |m| - i
  {
    if i >= |m| then p
    else
      var p' := match RowMin(m, cells, i, 0, MinStart)
                case None => p
                case Some(min) => MarkRow(m, cells, i, 0, min, p);
      RowSweep(m, cells, i + 1, p')
  }

  /** All writes normalizeTable queues, in the order it queues them. */
  function NormalizeMarks(m: Grid, cells: map<CellId, Cell>): map<CellId, Pending>
  {
    RowSweep(m, cells, 0, ColumnSweep(m, cells, 0, map[]))
  }

  /**
   * The clean-up of one cell: a span attribute whose value reads as 1 is removed, and so is a
   * class attribute with an empty value.
   */
  function Tidy(c: Cell): (r: Cell)
    ensures ColSpan(r) == ColSpan(c) && RowSpan(r) == RowSpan(c)
    ensures r.colspan.None? || r.colspan.value >= 2
    ensures r.rowspan.None? || r.rowspan.value >= 2
    ensures r.cls != Some("") && (c.cls != Some("") ==> r.cls == c.cls)
    ensures r.selected == c.selected && r.html == c.html
  {
    c.(rowspan := if c.rowspan.Some? && RowSpan(c) == 1 then None else c.rowspan,
       colspan := if c.colspan.Some? && ColSpan(c) == 1 then None else c.colspan,
       cls := if c.cls == Some("") then None else c.cls)
  }

  function TidyAt(cells: map<CellId, Cell>, c: CellId): (r: map<CellId, Cell>)
    ensures r.Keys == cells.Keys
  {
    if c in cells then cells[c := Tidy(cells[c])] else cells
  }

  /** The clean-up loop over row `i` from column `j` on. */
  function TidyRow(m: Grid, i: nat, j: nat, cells: map<CellId, Cell>): (r: map<CellId, Cell>)
    requires i < |m|
    ensures r.Keys == cells.Keys
    decreases |m[i]| - j
  {
    if j >= |m[i]| then cells
    else TidyRow(m, i, j + 1, match m[i][j] case None => cells case Some(c) => TidyAt(cells, c))
  }

  /** The clean-up loop from row `i` on. */
  function TidyRows(m: Grid, i: nat, cells: map<CellId, Cell>): (r: map<CellId, Cell>)
    ensures r.Keys == cells.Keys
    decreases |m| - i
  {
    if i >= |m| then cells else TidyRows(m, i + 1, TidyRow(m, i, 0, cells))
  }

  /**
   * normalizeTable(table): when the matrix has an undefined row the sweeps read its length and
   * throw before any attribute is written.
   */
  function Normalize(d: Doc): Outcome
  {
    var m := FormalMatrix(d.rows, d.cells);
    if Broken(m) then Thrown(d)
    else Done(ApplyPending(d.(cells := TidyRows(m, 0, d.cells)), NormalizeMarks(m, d.cells)))
  }

  // ---------------------------------------------------------------------------------------
  // What the sweeps queue.

  /** The identities held by the slots of rows `i..` of `m`. */
  function GridIds(m: Grid, i: nat): set<CellId>
    decreases |m| - i
  {
    if i >= |m| then {} else SlotIds(m[i]) + GridIds(m, i + 1)
  }

  /** An identity is in GridIds(m, i) exactly when a slot of a row from `i` on holds it. */
  lemma {:induction false} GridIdsHold(m: Grid, i: nat, c: CellId)
    ensures c in GridIds(m, i) <==> exists k, x :: i <= k < |m| && 0 <= x < |m[k]| && m[k][x] == Some(c)
    decreases |m| - i
  {
    if i < |m| {
      GridIdsHold(m, i + 1, c);
      if Some(c) in m[i] {
        var x :| 0 <= x < |m[i]| && m[i][x] == Some(c);
      }
    }
  }

  /**
   * Queued writes that only trim: nothing is removed, and a queued span lies between 1 and the
   * span the cell has, and only cells of the matrix are queued.
   */
  predicate Trims(m: Grid, cells: map<CellId, Cell>, p: map<CellId, Pending>)
  {
    forall c :: c in p ==>
      c in GridIds(m, 0) && !p[c].remove &&
      (p[c].colspan.Some? ==> 1 <= p[c].colspan.value <= ColSpanOf(cells, c)) &&
      (p[c].rowspan.Some? ==> 1 <= p[c].rowspan.value <= RowSpanOf(cells, c))
  }

  lemma SlotInGrid(m: Grid, k: int, j: int)
    requires Get(m, k, j).Some?
    ensures Get(m, k, j).value in GridIds(m, 0)
  {
    GridIdsHold(m, 0, Get(m, k, j).value);
  }

  /** Queuing one trim keeps the writes trimming. */
  lemma QueueTrims(m: Grid, cells: map<CellId, Cell>, p: map<CellId, Pending>, c: CellId, w: Write)
    requires Trims(m, cells, p) && c in GridIds(m, 0) && !w.Remove?
    requires w.ColSpanTo? ==> 1 <= w.n <= ColSpanOf(cells, c)
    requires w.RowSpanTo? ==> 1 <= w.n <= RowSpanOf(cells, c)
    ensures Trims(m, cells, MarkWrite(p, c, w))
  {
  }

  /** One slot of the colspan marking keeps the writes trimming. */
  lemma ColumnTrimStep(m: Grid, cells: map<CellId, Cell>, j: int, i: nat, min: int, p: map<CellId, Pending>)
    requires i < |m| && Trims(m, cells, p) && min >= 1
    requires Get(m, i, j).Some? ==> ColSpanOf(cells, Get(m, i, j).value) >= min
    ensures Trims(m, cells, if Get(m, i, j).Some? then MarkWrite(p, Get(m, i, j).value, ColSpanTo(ColSpanOf(cells, Get(m, i, j).value) - min + 1)) else p)
  {
    if Get(m, i, j).Some? {
      SlotInGrid(m, i, j);
      QueueTrims(m, cells, p, Get(m, i, j).value, ColSpanTo(ColSpanOf(cells, Get(m, i, j).value) - min + 1));
    }
  }

  lemma {:induction false} MarkColumnTrims(m: Grid, cells: map<CellId, Cell>, j: int, i: nat, min: int, p: map<CellId, Pending>)
    requires Trims(m, cells, p) && min >= 1
    requires forall k :: i <= k < |m| && Get(m, k, j).Some? ==> ColSpanOf(cells, Get(m, k, j).value) >= min
    ensures Trims(m, cells, MarkColumn(m, cells, j, i, min, p))
    decreases |m| - i
  {
    if i < |m| {
      MarkColumnStep(m, cells, j, i, min, p);
      ColumnTrimStep(m, cells, j, i, min, p);
      MarkColumnTrims(m, cells, j, i + 1, min,
                      if Get(m, i, j).Some? then MarkWrite(p, Get(m, i, j).value, ColSpanTo(ColSpanOf(cells, Get(m, i, j).value) - min + 1)) else p);
    }
  }

  lemma {:induction false} ColumnSweepTrims(m: Grid, cells: map<CellId, Cell>, j: nat, p: map<CellId, Pending>)
    requires Trims(m, cells, p)
    ensures Trims(m, cells, ColumnSweep(m, cells, j, p))
    decreases |RowAt(m, 0)| - j
  {
    if j < |RowAt(m, 0)| {
      match ColumnMin(m, cells, j, 0, MinStart)
      case None => ColumnSweepTrims(m, cells, j + 1, p);
      case Some(min) =>
        MarkColumnTrims(m, cells, j, 0, min, p);
        ColumnSweepTrims(m, cells, j + 1, MarkColumn(m, cells, j, 0, min, p));
    }
  }

  /** One slot of the rowspan marking keeps the writes trimming. */
  lemma RowTrimStep(m: Grid, cells: map<CellId, Cell>, i: nat, j: nat, min: int, p: map<CellId, Pending>)
    requires i < |m| && j < |m[i]| && Trims(m, cells, p) && min >= 1
    requires m[i][j].Some? ==> RowSpanOf(cells, m[i][j].value) >= min
    ensures Trims(m, cells, if m[i][j].Some? then MarkWrite(p, m[i][j].value, RowSpanTo(RowSpanOf(cells, m[i][j].value) - min + 1)) else p)
  {
    if m[i][j].Some? {
      assert Get(m, i, j) == m[i][j];
      SlotInGrid(m, i, j);
      QueueTrims(m, cells, p, m[i][j].value, RowSpanTo(RowSpanOf(cells, m[i][j].value) - min + 1));
    }
  }

  lemma {:induction false} MarkRowTrims(m: Grid, cells: map<CellId, Cell>, i: nat, j: nat, min: int, p: map<CellId, Pending>)
    requires i < |m| && Trims(m, cells, p) && min >= 1
    requires forall x :: j <= x < |m[i]| && m[i][x].Some? ==> RowSpanOf(cells, m[i][x].value) >= min
    ensures Trims(m, cells, MarkRow(m, cells, i, j, min, p))
    decreases |m[i]| - j
  {
    if j < |m[i]| {
      MarkRowStep(m, cells, i, j, min, p);
      RowTrimStep(m, cells, i, j, min, p);
      MarkRowTrims(m, cells, i, j + 1, min,
                   if m[i][j].Some? then MarkWrite(p, m[i][j].value, RowSpanTo(RowSpanOf(cells, m[i][j].value) - min + 1)) else p);
    }
  }

  lemma {:induction false} RowSweepTrims(m: Grid, cells: map<CellId, Cell>, i: nat, p: map<CellId, Pending>)
    requires Trims(m, cells, p)
    ensures Trims(m, cells, RowSweep(m, cells, i, p))
    decreases |m| - i
  {
    if i < |m| {
      match RowMin(m, cells, i, 0, MinStart)
      case None => RowSweepTrims(m, cells, i + 1, p);
      case Some(min) =>
        MarkRowTrims(m, cells, i, 0, min, p);
        RowSweepTrims(m, cells, i + 1, MarkRow(m, cells, i, 0, min, p));
    }
  }

  /** normalizeTable queues no removal, and every span it queues trims the cell's span. */
  lemma NormalizeMarksTrim(m: Grid, cells: map<CellId, Cell>)
    ensures Trims(m, cells, NormalizeMarks(m, cells))
  {
    ColumnSweepTrims(m, cells, 0, map[]);
    RowSweepTrims(m, cells, 0, ColumnSweep(m, cells, 0, map[]));
  }

  /**
   * Within one column the trim is uniform: every cell met in column `j` (from row `i` on) is
   * queued colspan `colSpan - min + 1`, whichever of its slots is met last.
   */
  lemma {:induction false} MarkColumnValue(m: Grid, cells: map<CellId, Cell>, j: int, i: nat, min: int,
                                           p: map<CellId, Pending>, c: CellId, k: int)
    requires (c in p && p[c].colspan == Some(ColSpanOf(cells, c) - min + 1)) || (i <= k < |m| && Get(m, k, j) == Some(c))
    ensures var r := MarkColumn(m, cells, j, i, min, p);
            c in r && r[c].colspan == Some(ColSpanOf(cells, c) - min + 1)
    decreases |m| - i
  {
    if i < |m| {
      var s := Get(m, i, j);
      var q := if s.Some? then MarkWrite(p, s.value, ColSpanTo(ColSpanOf(cells, s.value) - min + 1)) else p;
      MarkColumnStep(m, cells, j, i, min, p);
      if s.Some? && s.value == c {
        assert c in q && q[c] == Queue(Lookup(p, c), ColSpanTo(ColSpanOf(cells, c) - min + 1));
      }
      MarkColumnValue(m, cells, j, i + 1, min, q, c, k);
    }
  }

  /** Within one row every cell met is queued rowspan `rowSpan - min + 1`. */
  lemma {:induction false} MarkRowValue(m: Grid, cells: map<CellId, Cell>, i: nat, j: nat, min: int,
                                        p: map<CellId, Pending>, c: CellId, x: int)
    requires i < |m|
    requires (c in p && p[c].rowspan == Some(RowSpanOf(cells, c) - min + 1)) || (j <= x < |m[i]| && m[i][x] == Some(c))
    ensures var r := MarkRow(m, cells, i, j, min, p);
            c in r && r[c].rowspan == Some(RowSpanOf(cells, c) - min + 1)
    decreases |m[i]| - j
  {
    if j < |m[i]| {
      var s := m[i][j];
      var q := if s.Some? then MarkWrite(p, s.value, RowSpanTo(RowSpanOf(cells, s.value) - min + 1)) else p;
      MarkRowStep(m, cells, i, j, min, p);
      if s.Some? && s.value == c {
        assert c in q && q[c] == Queue(Lookup(p, c), RowSpanTo(RowSpanOf(cells, c) - min + 1));
      }
      MarkRowValue(m, cells, i, j + 1, min, q, c, x);
    }
  }

  // ---------------------------------------------------------------------------------------
  // What the clean-up does.

  /** The records of `cells`, those of `s` tidied. */
  function TidySet(cells: map<CellId, Cell>, s: set<CellId>): (r: map<CellId, Cell>)
    ensures r.Keys == cells.Keys
  {
    map c | c in cells :: if c in s then Tidy(cells[c]) else cells[c]
  }

  lemma TidyTwice(c: Cell)
    ensures Tidy(Tidy(c)) == Tidy(c)
  {
  }

  lemma TidyAtSet(c0: map<CellId, Cell>, s: set<CellId>, c: CellId)
    ensures TidyAt(TidySet(c0, s), c) == TidySet(c0, s + {c})
  {
    if c in c0 {
      TidyTwice(c0[c]);
    }
  }

  lemma {:induction false} TidyRowSet(m: Grid, i: nat, j: nat, c0: map<CellId, Cell>, s: set<CellId>)
    requires i < |m| && j <= |m[i]|
    ensures TidyRow(m, i, j, TidySet(c0, s)) == TidySet(c0, s + SlotIds(m[i][j..]))
    decreases |m[i]| - j
  {
    if j == |m[i]| {
      assert s + SlotIds(m[i][j..]) == s;
    } else {
      assert m[i][j..][1..] == m[i][j + 1..];
      match m[i][j]
      case None =>
        TidyRowSet(m, i, j + 1, c0, s);
      case Some(c) =>
        TidyAtSet(c0, s, c);
        TidyRowSet(m, i, j + 1, c0, s + {c});
        assert s + {c} + SlotIds(m[i][j + 1..]) == s + SlotIds(m[i][j..]);
    }
  }

  lemma {:induction false} TidyRowsSet(m: Grid, i: nat, c0: map<CellId, Cell>, s: set<CellId>)
    ensures TidyRows(m, i, TidySet(c0, s)) == TidySet(c0, s + GridIds(m, i))
    decreases |m| - i
  {
    if i >= |m| {
      assert s + GridIds(m, i) == s;
    } else {
      TidyRowSet(m, i, 0, c0, s);
      assert m[i][0..] == m[i];
      TidyRowsSet(m, i + 1, c0, s + SlotIds(m[i]));
      assert s + SlotIds(m[i]) + GridIds(m, i + 1) == s + GridIds(m, i);
    }
  }

  /** The clean-up tidies every cell of the matrix and no other. */
  lemma TidyAll(m: Grid, cells: map<CellId, Cell>)
    ensures TidyRows(m, 0, cells) == TidySet(cells, GridIds(m, 0))
  {
    assert TidySet(cells, {}) == cells;
    TidyRowsSet(m, 0, cells, {});
    assert {} + GridIds(m, 0) == GridIds(m, 0);
  }

  // ---------------------------------------------------------------------------------------
  // normalizeTable as a whole.

  /**
   * normalizeTable throws, having changed nothing, exactly when the matrix has an undefined
   * row; either way it moves no cell.
   */
  lemma NormalizeKeepsRows(d: Doc)
    ensures Normalize(d).Thrown? <==> Broken(FormalMatrix(d.rows, d.cells))
    ensures Normalize(d).Thrown? ==> Normalize(d).doc == d
    ensures Normalize(d).doc.rows == d.rows && Normalize(d).doc.next == d.next && Normalize(d).doc.cells.Keys == d.cells.Keys
  {
    var m := FormalMatrix(d.rows, d.cells);
    var p := NormalizeMarks(m, d.cells);
    NormalizeMarksTrim(m, d.cells);
    TidyAll(m, d.cells);
    forall i | 0 <= i < |d.rows|
      ensures Keep(d.rows[i], p) == d.rows[i]
    {
      KeepNothing(d.rows[i], p);
    }
  }

  /**
   * normalizeTable, when it completes, only ever shrinks spans and keeps contents and
   * selection. A cell's colSpan ends as `colSpan - min + 1` for the last column of `box[0]`'s
   * length that holds it and whose scan finds no colSpan below 2 (`min` being that column's
   * smallest colSpan), and is kept when there is none; its rowSpan likewise by rows. A cell of
   * the matrix is left without a span attribute of value 1 and without an empty class, and a
   * cell outside the matrix is left alone.
   */
  lemma NormalizeCell(d: Doc, c: CellId)
    requires c in d.cells
    ensures Normalize(d).Done? ==>
            var before := d.cells[c];
            var after := Normalize(d).doc.cells[c];
            var m := FormalMatrix(d.rows, d.cells);
            ColSpan(after) <= ColSpan(before) && RowSpan(after) <= RowSpan(before) &&
            ColSpan(after) == (match LastColumnTrim(m, d.cells, c, 0, |RowAt(m, 0)|)
                               case Some(v) => v case None => ColSpan(before)) &&
            RowSpan(after) == (match LastRowTrim(m, d.cells, c, 0, |m|)
                               case Some(v) => v case None => RowSpan(before)) &&
            after.html == before.html && after.selected == before.selected &&
            (before.cls != Some("") ==> after.cls == before.cls) &&
            (c in GridIds(m, 0) ==>
               (after.colspan.None? || after.colspan.value >= 2) &&
               (after.rowspan.None? || after.rowspan.value >= 2) &&
               after.cls != Some("")) &&
            (c !in GridIds(m, 0) ==> after == before)
  {
    var m := FormalMatrix(d.rows, d.cells);
    var p := NormalizeMarks(m, d.cells);
    NormalizeMarksTrim(m, d.cells);
    TidyAll(m, d.cells);
    MarksSpans(m, d.cells, c);
  }

  // ---------------------------------------------------------------------------------------
  // The spans the sweeps leave.

  /** Some row of the matrix holds `c` in column `j`. */
  predicate InColumn(m: Grid, j: int, c: CellId)
  {
    exists k | 0 <= k < |m| :: Get(m, k, j) == Some(c)
  }

  /** Some column of row `i` holds `c`. */
  predicate InRow(m: Grid, i: int, c: CellId)
  {
    0 <= i < |m| && Some(c) in m[i]
  }

  /**
   * The colspan the sweep of columns `j` to `n - 1` queues for `c` last: that of the highest
   * of those columns that holds `c` and whose scan finds no colSpan below 2.
   */
  function LastColumnTrim(m: Grid, cells: map<CellId, Cell>, c: CellId, j: int, n: int): Option<int>
    decreases n - j
  {
    if n <= j then None
    else match ColumnMin(m, cells, n - 1, 0, MinStart)
      case Some(min) =>
        if InColumn(m, n - 1, c) then Some(ColSpanOf(cells, c) - min + 1) else LastColumnTrim(m, cells, c, j, n - 1)
      case None => LastColumnTrim(m, cells, c, j, n - 1)
  }

  /**
   * The rowspan the sweep of rows `i` to `n - 1` queues for `c` last: that of the lowest of
   * those rows that holds `c` and whose scan finds no rowSpan below 2.
   */
  function LastRowTrim(m: Grid, cells: map<CellId, Cell>, c: CellId, i: int, n: int): Option<int>
    requires n <= |m|
    decreases n - i
  {
    if n <= i || n <= 0 then None
    else match RowMin(m, cells, n - 1, 0, MinStart)
      case Some(min) =>
        if InRow(m, n - 1, c) then Some(RowSpanOf(cells, c) - min + 1) else LastRowTrim(m, cells, c, i, n - 1)
      case None => LastRowTrim(m, cells, c, i, n - 1)
  }

  /**
   * LastColumnTrim is the trim of the last qualifying column: there is none exactly when no
   * column from `j` to `n - 1` that holds `c` passes its scan, and otherwise it is that of a
   * column that does, after which no column holding `c` passes.
   */
  lemma {:induction false} LastColumnTrimIsLast(m: Grid, cells: map<CellId, Cell>, c: CellId, j: int, n: int)
    ensures var r := LastColumnTrim(m, cells, c, j, n);
            (r.None? <==> forall x :: j <= x < n && InColumn(m, x, c) ==> ColumnMin(m, cells, x, 0, MinStart).None?) &&
            (r.Some? ==>
               exists x :: j <= x < n && InColumn(m, x, c) && ColumnMin(m, cells, x, 0, MinStart).Some? &&
                           r.value == ColSpanOf(cells, c) - ColumnMin(m, cells, x, 0, MinStart).value + 1 &&
                           forall y :: x < y < n && InColumn(m, y, c) ==> ColumnMin(m, cells, y, 0, MinStart).None?)
    decreases n - j
  {
    if j < n {
      var top := ColumnMin(m, cells, n - 1, 0, MinStart);
      if top.Some? && InColumn(m, n - 1, c) {
        assert LastColumnTrim(m, cells, c, j, n) == Some(ColSpanOf(cells, c) - top.value + 1);
        assert j <= n - 1 < n && InColumn(m, n - 1, c) && ColumnMin(m, cells, n - 1, 0, MinStart).Some?;
      } else {
        var r := LastColumnTrim(m, cells, c, j, n - 1);
        assert LastColumnTrim(m, cells, c, j, n) == r;
        LastColumnTrimIsLast(m, cells, c, j, n - 1);
        if r.Some? {
          var x :| j <= x < n - 1 && InColumn(m, x, c) && ColumnMin(m, cells, x, 0, MinStart).Some? &&
                   r.value == ColSpanOf(cells, c) - ColumnMin(m, cells, x, 0, MinStart).value + 1 &&
                   forall y :: x < y < n - 1 && InColumn(m, y, c) ==> ColumnMin(m, cells, y, 0, MinStart).None?;
          assert forall y :: x < y < n && InColumn(m, y, c) ==> ColumnMin(m, cells, y, 0, MinStart).None?;
        }
      }
    }
  }

  /** LastRowTrim is the trim of the last qualifying row, as LastColumnTrim is for columns. */
  lemma {:induction false} LastRowTrimIsLast(m: Grid, cells: map<CellId, Cell>, c: CellId, i: int, n: int)
    requires n <= |m|
    ensures var r := LastRowTrim(m, cells, c, i, n);
            (r.None? <==> forall y :: i <= y < n && InRow(m, y, c) ==> RowMin(m, cells, y, 0, MinStart).None?) &&
            (r.Some? ==>
               exists y :: i <= y < n && InRow(m, y, c) && RowMin(m, cells, y, 0, MinStart).Some? &&
                           r.value == RowSpanOf(cells, c) - RowMin(m, cells, y, 0, MinStart).value + 1 &&
                           forall z :: y < z < n && InRow(m, z, c) ==> RowMin(m, cells, z, 0, MinStart).None?)
    decreases n - i
  {
    if i < n && 0 < n {
      LastRowTrimIsLast(m, cells, c, i, n - 1);
    }
  }

  /** The trim from column `j` on is that of the later columns, or else that of column `j`. */
  lemma {:induction false} LastColumnTrimFirst(m: Grid, cells: map<CellId, Cell>, c: CellId, j: int, n: int)
    requires j < n
    ensures LastColumnTrim(m, cells, c, j, n) ==
            if LastColumnTrim(m, cells, c, j + 1, n).Some? then LastColumnTrim(m, cells, c, j + 1, n)
            else match ColumnMin(m, cells, j, 0, MinStart)
              case Some(min) => if InColumn(m, j, c) then Some(ColSpanOf(cells, c) - min + 1) else None
              case None => None
    decreases n - j
  {
    if j + 1 < n {
      LastColumnTrimFirst(m, cells, c, j, n - 1);
    }
  }

  /** The trim from row `i` on is that of the later rows, or else that of row `i`. */
  lemma {:induction false} LastRowTrimFirst(m: Grid, cells: map<CellId, Cell>, c: CellId, i: nat, n: int)
    requires i < n <= |m|
    ensures LastRowTrim(m, cells, c, i, n) ==
            if LastRowTrim(m, cells, c, i + 1, n).Some? then LastRowTrim(m, cells, c, i + 1, n)
            else match RowMin(m, cells, i, 0, MinStart)
              case Some(min) => if InRow(m, i, c) then Some(RowSpanOf(cells, c) - min + 1) else None
              case None => None
    decreases n - i
  {
    if i + 1 < n {
      LastRowTrimFirst(m, cells, c, i, n - 1);
    }
  }

  /** The colspan marking of a column that does not hold `c`, from row `i` on, leaves `c`'s writes alone. */
  lemma {:induction false} MarkColumnOther(m: Grid, cells: map<CellId, Cell>, j: int, i: nat, min: int,
                                           p: map<CellId, Pending>, c: CellId)
    requires forall k :: i <= k < |m| ==> Get(m, k, j) != Some(c)
    ensures Lookup(MarkColumn(m, cells, j, i, min, p), c) == Lookup(p, c)
    decreases |m| - i
  {
    if i < |m| {
      MarkColumnStep(m, cells, j, i, min, p);
      var s := Get(m, i, j);
      MarkColumnOther(m, cells, j, i + 1, min, if s.Some? then MarkWrite(p, s.value, ColSpanTo(ColSpanOf(cells, s.value) - min + 1)) else p, c);
    }
  }

  /** The colspan marking never touches a queued rowspan or removal. */
  lemma {:induction false} MarkColumnKeeps(m: Grid, cells: map<CellId, Cell>, j: int, i: nat, min: int,
                                           p: map<CellId, Pending>, c: CellId)
    ensures Lookup(MarkColumn(m, cells, j, i, min, p), c).rowspan == Lookup(p, c).rowspan
    decreases |m| - i
  {
    if i < |m| {
      MarkColumnStep(m, cells, j, i, min, p);
      var s := Get(m, i, j);
      MarkColumnKeeps(m, cells, j, i + 1, min, if s.Some? then MarkWrite(p, s.value, ColSpanTo(ColSpanOf(cells, s.value) - min + 1)) else p, c);
    }
  }

  /** The colspan the column sweep from column `j` on leaves queued for `c`. */
  lemma {:induction false} ColumnSweepSpans(m: Grid, cells: map<CellId, Cell>, j: nat, p: map<CellId, Pending>, c: CellId)
    ensures var r := ColumnSweep(m, cells, j, p);
            Lookup(r, c).rowspan == Lookup(p, c).rowspan &&
            Lookup(r, c).colspan == match LastColumnTrim(m, cells, c, j, |RowAt(m, 0)|)
                                    case Some(v) => Some(v) case None => Lookup(p, c).colspan
    decreases |RowAt(m, 0)| - j
  {
    var n := |RowAt(m, 0)|;
    if j < n {
      LastColumnTrimFirst(m, cells, c, j, n);
      match ColumnMin(m, cells, j, 0, MinStart)
      case None =>
        ColumnSweepSpans(m, cells, j + 1, p, c);
      case Some(min) =>
        var q := MarkColumn(m, cells, j, 0, min, p);
        MarkColumnKeeps(m, cells, j, 0, min, p, c);
        if InColumn(m, j, c) {
          var k :| 0 <= k < |m| && Get(m, k, j) == Some(c);
          MarkColumnValue(m, cells, j, 0, min, p, c, k);
        } else {
          MarkColumnOther(m, cells, j, 0, min, p, c);
        }
        ColumnSweepSpans(m, cells, j + 1, q, c);
    }
  }

  /** The rowspan marking of a row that does not hold `c`, from column `j` on, leaves `c`'s writes alone. */
  lemma {:induction false} MarkRowOther(m: Grid, cells: map<CellId, Cell>, i: nat, j: nat, min: int,
                                        p: map<CellId, Pending>, c: CellId)
    requires i < |m| && forall x :: j <= x < |m[i]| ==> m[i][x] != Some(c)
    ensures Lookup(MarkRow(m, cells, i, j, min, p), c) == Lookup(p, c)
    decreases |m[i]| - j
  {
    if j < |m[i]| {
      MarkRowStep(m, cells, i, j, min, p);
      var s := m[i][j];
      MarkRowOther(m, cells, i, j + 1, min, if s.Some? then MarkWrite(p, s.value, RowSpanTo(RowSpanOf(cells, s.value) - min + 1)) else p, c);
    }
  }

  /** The rowspan marking never touches a queued colspan. */
  lemma {:induction false} MarkRowKeeps(m: Grid, cells: map<CellId, Cell>, i: nat, j: nat, min: int,
                                        p: map<CellId, Pending>, c: CellId)
    requires i < |m|
    ensures Lookup(MarkRow(m, cells, i, j, min, p), c).colspan == Lookup(p, c).colspan
    decreases |m[i]| - j
  {
    if j < |m[i]| {
      MarkRowStep(m, cells, i, j, min, p);
      var s := m[i][j];
      MarkRowKeeps(m, cells, i, j + 1, min, if s.Some? then MarkWrite(p, s.value, RowSpanTo(RowSpanOf(cells, s.value) - min + 1)) else p, c);
    }
  }

  /** The rowspan the row sweep from row `i` on leaves queued for `c`. */
  lemma {:induction false} RowSweepSpans(m: Grid, cells: map<CellId, Cell>, i: nat, p: map<CellId, Pending>, c: CellId)
    ensures var r := RowSweep(m, cells, i, p);
            Lookup(r, c).colspan == Lookup(p, c).colspan &&
            Lookup(r, c).rowspan == match LastRowTrim(m, cells, c, i, |m|)
                                    case Some(v) => Some(v) case None => Lookup(p, c).rowspan
    decreases |m| - i
  {
    if i < |m| {
      LastRowTrimFirst(m, cells, c, i, |m|);
      match RowMin(m, cells, i, 0, MinStart)
      case None =>
        RowSweepSpans(m, cells, i + 1, p, c);
      case Some(min) =>
        var q := MarkRow(m, cells, i, 0, min, p);
        MarkRowKeeps(m, cells, i, 0, min, p, c);
        if InRow(m, i, c) {
          var x :| 0 <= x < |m[i]| && m[i][x] == Some(c);
          MarkRowValue(m, cells, i, 0, min, p, c, x);
        } else {
          MarkRowOther(m, cells, i, 0, min, p, c);
        }
        RowSweepSpans(m, cells, i + 1, q, c);
    }
  }

  /** The spans normalizeTable queues for `c`: the last trims of the two sweeps. */
  lemma MarksSpans(m: Grid, cells: map<CellId, Cell>, c: CellId)
    ensures var p := Lookup(NormalizeMarks(m, cells), c);
            p.colspan == LastColumnTrim(m, cells, c, 0, |RowAt(m, 0)|) &&
            p.rowspan == LastRowTrim(m, cells, c, 0, |m|)
  {
    ColumnSweepSpans(m, cells, 0, map[], c);
    RowSweepSpans(m, cells, 0, ColumnSweep(m, cells, 0, map[]), c);
  }

  // ---------------------------------------------------------------------------------------
  // Where the sweeps throw, and what they leave queued then.

  /** How far the sweeps got: whether they threw, and the writes queued by then. */
  datatype Swept = Swept(thrown: bool, queued: map<CellId, Pending>)

  /**
   * The scan of column `j` from row `i` on reads `box[i][j]` of an undefined row, and so
   * throws, before a colSpan below 2 stops it.
   */
  predicate ColumnScanThrows(m: Grid, cells: map<CellId, Cell>, j: int, i: nat)
    decreases |m| - i
  {
    i < |m| &&
    (Undefined(m, i) ||
     match Get(m, i, j)
     case None => ColumnScanThrows(m, cells, j, i + 1)
     case Some(c) => ColSpanOf(cells, c) >= 2 && ColumnScanThrows(m, cells, j, i + 1))
  }

  /**
   * The colspan sweep from column `j` on, stopping at the first column whose scan throws. A
   * column is marked only after its scan has passed every row.
   */
  function ColumnSweepUntil(m: Grid, cells: map<CellId, Cell>, j: nat, p: map<CellId, Pending>): Swept
    decreases |RowAt(m, 0)| - j
  {
    if j >= |RowAt(m, 0)| then Swept(false, p)
    else if ColumnScanThrows(m, cells, j, 0) then Swept(true, p)
    else
      var p' := match ColumnMin(m, cells, j, 0, MinStart)
                case None => p
                case Some(min) => MarkColumn(m, cells, j, 0, min, p);
      ColumnSweepUntil(m, cells, j + 1, p')
  }

  /** The rowspan sweep from row `i` on, stopping at the first undefined row (`box[i].length`). */
  function RowSweepUntil(m: Grid, cells: map<CellId, Cell>, i: nat, p: map<CellId, Pending>): Swept
    decreases |m| - i
  {
    if i >= |m| then Swept(false, p)
    else if Undefined(m, i) then Swept(true, p)
    else
      var p' := match RowMin(m, cells, i, 0, MinStart)
                case None => p
                case Some(min) => MarkRow(m, cells, i, 0, min, p);
      RowSweepUntil(m, cells, i + 1, p')
  }

  /** Both sweeps of normalizeTable with their exceptions, from no queued writes. */
  function NormalizeSweeps(m: Grid, cells: map<CellId, Cell>): Swept
  {
    var c := ColumnSweepUntil(m, cells, 0, map[]);
    if c.thrown then c else RowSweepUntil(m, cells, 0, c.queued)
  }

  /**
   * The `__marked_value` records normalizeTable leaves on the cells: the writes queued before
   * it threw, and none when it completes, since `__unmark` deletes them.
   */
  function Leftover(d: Doc): map<CellId, Pending>
  {
    var s := NormalizeSweeps(FormalMatrix(d.rows, d.cells), d.cells);
    if s.thrown then s.queued else map[]
  }

  /** A scan that throws has met an undefined row. */
  lemma {:induction false} ScanThrowsBroken(m: Grid, cells: map<CellId, Cell>, j: int, i: nat)
    requires ColumnScanThrows(m, cells, j, i)
    ensures Broken(m)
    decreases |m| - i
  {
    if !Undefined(m, i) {
      ScanThrowsBroken(m, cells, j, i + 1);
    }
  }

  /** A scan that does not throw although row `u` is undefined was stopped above `u`. */
  lemma {:induction false} ScanStopsAbove(m: Grid, cells: map<CellId, Cell>, j: int, i: nat, u: nat, min: int)
    requires i <= u && Undefined(m, u) && min >= 2 && !ColumnScanThrows(m, cells, j, i)
    ensures ColumnMin(m, cells, j, i, min).None?
    decreases u - i
  {
    if i < u {
      match Get(m, i, j)
      case None => ScanStopsAbove(m, cells, j, i + 1, u, min);
      case Some(c) =>
        if ColSpanOf(cells, c) >= 2 {
          ScanStopsAbove(m, cells, j, i + 1, u, if ColSpanOf(cells, c) < min then ColSpanOf(cells, c) else min);
        }
    }
  }

  /** On a table with no undefined row the colspan sweep does not throw. */
  lemma {:induction false} ColumnSweepDefined(m: Grid, cells: map<CellId, Cell>, j: nat, p: map<CellId, Pending>)
    requires !Broken(m)
    ensures ColumnSweepUntil(m, cells, j, p) == Swept(false, ColumnSweep(m, cells, j, p))
    decreases |RowAt(m, 0)| - j
  {
    if j < |RowAt(m, 0)| {
      if ColumnScanThrows(m, cells, j, 0) {
        ScanThrowsBroken(m, cells, j, 0);
      }
      var p' := match ColumnMin(m, cells, j, 0, MinStart)
                case None => p
                case Some(min) => MarkColumn(m, cells, j, 0, min, p);
      ColumnSweepDefined(m, cells, j + 1, p');
    }
  }

  /** On a table with an undefined row the colspan sweep queues nothing, whether it throws or not. */
  lemma {:induction false} ColumnSweepBroken(m: Grid, cells: map<CellId, Cell>, j: nat, u: nat, p: map<CellId, Pending>)
    requires Undefined(m, u)
    ensures ColumnSweepUntil(m, cells, j, p).queued == p
    ensures ColumnSweepUntil(m, cells, j, p).thrown ==> exists x :: j <= x < |RowAt(m, 0)| && ColumnScanThrows(m, cells, x, 0)
    ensures (exists x :: j <= x < |RowAt(m, 0)| && ColumnScanThrows(m, cells, x, 0)) ==> ColumnSweepUntil(m, cells, j, p).thrown
    decreases |RowAt(m, 0)| - j
  {
    if j < |RowAt(m, 0)| {
      if ColumnScanThrows(m, cells, j, 0) {
        assert ColumnSweepUntil(m, cells, j, p) == Swept(true, p);
        assert j <= j < |RowAt(m, 0)| && ColumnScanThrows(m, cells, j, 0);
      } else {
        ScanStopsAbove(m, cells, j, 0, u, MinStart);
        ColumnSweepBroken(m, cells, j + 1, u, p);
        if exists x :: j <= x < |RowAt(m, 0)| && ColumnScanThrows(m, cells, x, 0) {
          var x :| j <= x < |RowAt(m, 0)| && ColumnScanThrows(m, cells, x, 0);
          assert x != j;
        }
      }
    }
  }

  /** The rowspan scan of a row reads only that row. */
  lemma {:induction false} RowMinSame(m: Grid, m': Grid, cells: map<CellId, Cell>, i: nat, j: nat, min: int)
    requires i < |m| && i < |m'| && m[i] == m'[i] && min >= 2
    ensures RowMin(m, cells, i, j, min) == RowMin(m', cells, i, j, min)
    decreases |m[i]| - j
  {
    if j < |m[i]| && m[i][j].Some? && RowSpanOf(cells, m[i][j].value) >= 2 {
      var c := m[i][j].value;
      RowMinSame(m, m', cells, i, j + 1, if RowSpanOf(cells, c) < min then RowSpanOf(cells, c) else min);
    } else if j < |m[i]| && m[i][j].None? {
      RowMinSame(m, m', cells, i, j + 1, min);
    }
  }

  /** The rowspan marking of a row reads only that row. */
  lemma {:induction false} MarkRowSame(m: Grid, m': Grid, cells: map<CellId, Cell>, i: nat, j: nat, min: int, p: map<CellId, Pending>)
    requires i < |m| && i < |m'| && m[i] == m'[i]
    ensures MarkRow(m, cells, i, j, min, p) == MarkRow(m', cells, i, j, min, p)
    decreases |m[i]| - j
  {
    if j < |m[i]| {
      var p' := if m[i][j].Some? then MarkWrite(p, m[i][j].value, RowSpanTo(RowSpanOf(cells, m[i][j].value) - min + 1)) else p;
      MarkRowSame(m, m', cells, i, j + 1, min, p');
    }
  }

  /** With no undefined row from `i` on, the rowspan sweep does not throw. */
  lemma {:induction false} RowSweepDefined(m: Grid, cells: map<CellId, Cell>, i: nat, p: map<CellId, Pending>)
    requires forall k :: i <= k < |m| ==> !Undefined(m, k)
    ensures RowSweepUntil(m, cells, i, p) == Swept(false, RowSweep(m, cells, i, p))
    decreases |m| - i
  {
    if i < |m| {
      var p' := match RowMin(m, cells, i, 0, MinStart)
                case None => p
                case Some(min) => MarkRow(m, cells, i, 0, min, p);
      RowSweepDefined(m, cells, i + 1, p');
    }
  }

  /**
   * With `u` the first undefined row from `i` on, the rowspan sweep throws at `u`, having queued
   * the writes of the sweep of the rows above `u`.
   */
  lemma {:induction false} RowSweepBroken(m: Grid, cells: map<CellId, Cell>, i: nat, u: nat, p: map<CellId, Pending>)
    requires i <= u && Undefined(m, u) && forall k :: i <= k < u ==> !Undefined(m, k)
    ensures RowSweepUntil(m, cells, i, p) == Swept(true, RowSweep(m[..u], cells, i, p))
    decreases u - i
  {
    if i < u {
      var m' := m[..u];
      assert m'[i] == m[i];
      RowMinSame(m, m', cells, i, 0, MinStart);
      var p' := match RowMin(m, cells, i, 0, MinStart)
                case None => p
                case Some(min) => MarkRow(m, cells, i, 0, min, p);
      if RowMin(m, cells, i, 0, MinStart).Some? {
        MarkRowSame(m, m', cells, i, 0, RowMin(m, cells, i, 0, MinStart).value, p);
      }
      RowSweepBroken(m, cells, i + 1, u, p');
    }
  }

  /**
   * The sweeps throw exactly when the matrix has an undefined row; otherwise they queue the
   * writes normalizeTable applies.
   */
  lemma NormalizeSweepsThrow(m: Grid, cells: map<CellId, Cell>)
    ensures NormalizeSweeps(m, cells).thrown <==> Broken(m)
    ensures !Broken(m) ==> NormalizeSweeps(m, cells).queued == NormalizeMarks(m, cells)
  {
    if Broken(m) {
      var u :| 0 <= u < |m| && Undefined(m, u);
      FirstUndefined(m, u);
      var v :| Undefined(m, v) && forall k :: 0 <= k < v ==> !Undefined(m, k);
      ColumnSweepBroken(m, cells, 0, v, map[]);
      RowSweepBroken(m, cells, 0, v, map[]);
    } else {
      ColumnSweepDefined(m, cells, 0, map[]);
      RowSweepDefined(m, cells, 0, ColumnSweep(m, cells, 0, map[]));
    }
  }

  /** An undefined row has a first one. */
  lemma {:induction false} FirstUndefined(m: Grid, u: nat)
    requires Undefined(m, u)
    ensures exists v :: Undefined(m, v) && forall k :: 0 <= k < v ==> !Undefined(m, k)
    decreases u
  {
    if exists k :: 0 <= k < u && Undefined(m, k) {
      var k :| 0 <= k < u && Undefined(m, k);
      FirstUndefined(m, k);
    }
  }

  /**
   * What a normalizeTable that throws leaves queued, with `u` the first undefined row: nothing
   * when the scan of some column reaches `u` (every earlier column stopped above it and marked
   * nothing); otherwise the rowspan writes of the rows above `u`.
   */
  lemma NormalizeLeftover(d: Doc, u: nat)
    requires var m := FormalMatrix(d.rows, d.cells);
             Undefined(m, u) && forall k :: 0 <= k < u ==> !Undefined(m, k)
    ensures var m := FormalMatrix(d.rows, d.cells);
            ((exists j :: 0 <= j < |RowAt(m, 0)| && ColumnScanThrows(m, d.cells, j, 0)) ==> Leftover(d) == map[]) &&
            ((forall j :: 0 <= j < |RowAt(m, 0)| ==> !ColumnScanThrows(m, d.cells, j, 0)) ==> Leftover(d) == RowSweep(m[..u], d.cells, 0, map[]))
  {
    var m := FormalMatrix(d.rows, d.cells);
    ColumnSweepBroken(m, d.cells, 0, u, map[]);
    RowSweepBroken(m, d.cells, 0, u, map[]);
    var c := ColumnSweepUntil(m, d.cells, 0, map[]);
    assert c.queued == map[];
    if !c.thrown {
      assert !exists j :: 0 <= j < |RowAt(m, 0)| && ColumnScanThrows(m, d.cells, j, 0);
      assert NormalizeSweeps(m, d.cells) == RowSweepUntil(m, d.cells, 0, map[]);
      assert Leftover(d) == RowSweep(m[..u], d.cells, 0, map[]);
    }
  }
}

/**
 * Table.splitHorizontal and Table.splitVertical: every selected cell is split in two, one after
 * the other, and the table is normalized at the end. splitVertical puts a new cell right after
 * the cell and, when the cell is one column wide, widens every other cell of its formal column
 * by a column (otherwise the cell gives up a column). splitHorizontal, for a cell one row high,
 * adds a row for the new cell under the cell's row and makes every other cell of its formal row
 * one row higher; for a taller cell it gives up a row, and the new cell goes into one of the
 * rows the cell covered.
 */
module Splitting {
  import opened Wrappers
  import opened Cells
  import opened Matrix
  import opened Dom
  import opened Marks
  import opened Coordinates
  import opened Normalization

  // ---------------------------------------------------------------------------------------
  // The callbacks of the scans

  /**
   * The three formalMatrix callbacks of the splits: splitHorizontal's for a cell one row high
   * (slot (k, x) is the cell's first slot), splitVertical's for a cell one column wide, and
   * splitHorizontal's search of the place for the new cell of a cell `span` rows high.
   */
  datatype Callback =
    | RowGrow(k: int, x: int, cell: CellId)
    | ColGrow(k: int, x: int, cell: CellId)
    | Anchor(k: int, x: int, span: int, cell: CellId)

  /** What a scan collects: the queued writes, the last `after` cell and the last `parent` row. */
  datatype Scan = Scan(marks: map<CellId, Pending>, after: Option<CellId>, parent: Option<int>)

  /** The cell of placement `p` at column `col` has a slot (k, j) of row `k` with `j != x`. */
  predicate CrossesRow(cells: map<CellId, Cell>, p: Placement, col: int, k: int, x: int)
  {
    p.row <= k < p.row + RowSpanOf(cells, p.id) && (ColSpanOf(cells, p.id) >= 2 || col != x)
  }

  /** The cell of placement `p` at column `col` has a slot (i, x) of column `x` with `i != k`. */
  predicate CrossesColumn(cells: map<CellId, Cell>, p: Placement, col: int, k: int, x: int)
  {
    col <= x < col + ColSpanOf(cells, p.id) && (RowSpanOf(cells, p.id) >= 2 || p.row != k)
  }

  /**
   * The cell of placement `p` at column `col` has a slot (i, j) with `k < i < k + span` and
   * `j < x` in the row that holds it (`td.parentNode.rowIndex === i`).
   */
  predicate Anchors(rows: seq<seq<CellId>>, cells: map<CellId, Cell>, p: Placement, col: int, k: int, x: int, span: int)
  {
    match Parent(rows, p.id)
    case None => false
    case Some(q) => p.row <= q < p.row + RowSpanOf(cells, p.id) && k < q < k + span && col < x
  }

  /** The cells the grow callbacks mark: a slot of the cell is on the line of `cell` and the cell is another. */
  predicate Widens(cb: Callback, cells: map<CellId, Cell>, p: Placement, col: int)
  {
    match cb
    case RowGrow(k, x, cell) => CrossesRow(cells, p, col, k, x) && p.id != cell
    case ColGrow(k, x, cell) => CrossesColumn(cells, p, col, k, x) && p.id != cell
    case Anchor(_, _, _, _) => false
  }

  /** The write a grow callback queues for `c`: one more row, or one more column, than it has. */
  function Growth(cb: Callback, cells: map<CellId, Cell>, c: CellId): Write
  {
    if cb.RowGrow? then RowSpanTo(RowSpanOf(cells, c) + 1) else ColSpanTo(ColSpanOf(cells, c) + 1)
  }

  /** The callback `cb` over the slots of placement `p`, placed at formal column `col`. */
  function Step(s: Scan, cb: Callback, rows: seq<seq<CellId>>, cells: map<CellId, Cell>, p: Placement, col: int): Scan
  {
    match cb
    case Anchor(k, x, span, cell) =>
      var s1 := if Anchors(rows, cells, p, col, k, x, span) then s.(after := Some(p.id)) else s;
      var last := p.row + RowSpanOf(cells, p.id) - 1;
      if p.id == cell && last > k then s1.(parent := Some(last)) else s1
    case _ =>
      if Widens(cb, cells, p, col) then s.(marks := MarkWrite(s.marks, p.id, Growth(cb, cells, p.id))) else s
  }

  /** formalMatrix(table, cb) over the placements `ps`, starting from what `start` holds. */
  function Walk(ps: seq<Placement>, cb: Callback, rows: seq<seq<CellId>>, cells: map<CellId, Cell>, start: Scan): Scan
  {
    if |ps| == 0 then start
    else
      var n := |ps| - 1;
      Step(Walk(ps[..n], cb, rows, cells, start), cb, rows, cells, ps[n], FormalColumn(Build(ps[..n], cells), ps[n].row))
  }

  const Fresh: Scan := Scan(map[], None, None)

  /** One more placement of the scan. */
  lemma WalkSnoc(ps: seq<Placement>, p: Placement, cb: Callback, rows: seq<seq<CellId>>, cells: map<CellId, Cell>, start: Scan)
    ensures Walk(ps + [p], cb, rows, cells, start) ==
            Step(Walk(ps, cb, rows, cells, start), cb, rows, cells, p, FormalColumn(Build(ps, cells), p.row))
  {
    assert (ps + [p])[..|ps|] == ps;
  }

  // ---------------------------------------------------------------------------------------
  // One cell

  /** `restoreSelection(cell)`. */
  function Deselect(d: Doc, c: CellId): (r: Doc)
    ensures r.rows == d.rows && r.next == d.next && r.cells.Keys == d.cells.Keys
  {
    if c in d.cells then d.(cells := d.cells[c := d.cells[c].(selected := false)]) else d
  }

  /** The new cell of a split: `Dom.create('td')` holding a `<br>`, under the next identity. */
  function WithNewCell(d: Doc): (r: Doc)
    ensures r.rows == d.rows && r.next == d.next + 1 && r.cells.Keys == d.cells.Keys + {d.next}
  {
    Doc(d.rows, d.cells[d.next := NewCell(BreakHtml)], d.next + 1)
  }

  /** The end of one split: `__unmark` and `restoreSelection(cell)`. */
  function Finish(d: Doc, marks: map<CellId, Pending>, cell: CellId): Doc
  {
    Deselect(ApplyPending(d, marks), cell)
  }

  /**
   * The writes splitVertical queues for `cell`: one more column for every other cell crossing
   * the cell's formal column, or one column less for the cell itself, and the cell's rowspan
   * for the new cell `d.next`.
   */
  function VerticalMarks(d: Doc, cell: CellId): map<CellId, Pending>
  {
    var rs := RowSpanOf(d.cells, cell);
    var marks := ColumnMarks(d, cell);
    if rs > 1 then MarkWrite(marks, d.next, RowSpanTo(rs)) else marks
  }

  /** The column writes of splitVertical for `cell`. */
  function ColumnMarks(d: Doc, cell: CellId): map<CellId, Pending>
  {
    ColumnMarksAt(d, cell, Coordinate(d.rows, d.cells, cell, false))
  }

  /** The column writes of splitVertical for `cell`, found at coordinate `co`. */
  function ColumnMarksAt(d: Doc, cell: CellId, co: Coord): map<CellId, Pending>
  {
    var cs := ColSpanOf(d.cells, cell);
    if cs < 2 then Walk(Placements(d.rows), ColGrow(co.row, co.col, cell), d.rows, d.cells, Fresh).marks
    else MarkWrite(map[], cell, ColSpanTo(cs - 1))
  }

  /** The body of splitVertical's loop for `cell`; `Dom.after` raises when the cell has no parent. */
  function SplitVerticalCell(d: Doc, cell: CellId): Outcome
  {
    var td := d.next;
    var d1 := WithNewCell(d);
    match Parent(d1.rows, cell)
    case None => Thrown(d1)
    case Some(p) => Done(Finish(d1.(rows := d1.rows[p := InsertAfter(d1.rows[p], cell, td)]), VerticalMarks(d, cell), cell))
  }

  /** The writes of splitHorizontal for the new cell `td`: the colspan `cs` of the cell split. */
  function NewCellMarks(marks: map<CellId, Pending>, td: CellId, cs: int): map<CellId, Pending>
  {
    if cs > 1 then MarkWrite(marks, td, ColSpanTo(cs)) else marks
  }

  /** The row writes of splitHorizontal for a cell one row high, found at coordinate `co`. */
  function RowMarksAt(d: Doc, cell: CellId, co: Coord): map<CellId, Pending>
  {
    Walk(Placements(d.rows), RowGrow(co.row, co.col, cell), d.rows, d.cells, Fresh).marks
  }

  /** The writes of splitHorizontal for a cell one row high. */
  function ShortMarks(d: Doc, cell: CellId): map<CellId, Pending>
  {
    NewCellMarks(RowMarksAt(d, cell, Coordinate(d.rows, d.cells, cell, false)), d.next, ColSpanOf(d.cells, cell))
  }

  /** splitHorizontal for a cell one row high: a new row holding only the new cell goes under the cell's row. */
  function SplitShort(d: Doc, cell: CellId): Outcome
  {
    var td := d.next;
    var d1 := WithNewCell(d);
    match Parent(d.rows, cell)
    case None => Thrown(d1)
    case Some(p) => Done(Finish(d1.(rows := d1.rows[..p + 1] + [[td]] + d1.rows[p + 1..]), ShortMarks(d, cell), cell))
  }

  /**
   * Where splitHorizontal puts the new cell `td` of a taller cell, once the scan `s` is done:
   * right after the `after` cell, else first into row `parent`; raises when there is neither
   * or when that row does not exist.
   */
  function PlaceNewCell(d1: Doc, td: CellId, s: Scan): Outcome
  {
    match s.after
    case Some(a) =>
      (match Parent(d1.rows, a)
       case None => Thrown(d1)
       case Some(q) => Done(d1.(rows := d1.rows[q := InsertAfter(d1.rows[q], a, td)])))
    case None =>
      (match s.parent
       case None => Thrown(d1)
       case Some(i) => if 0 <= i < |d1.rows| then Done(d1.(rows := d1.rows[i := [td] + d1.rows[i]])) else Thrown(d1))
  }

  /** The outcome of one split and the `after` and `parent` variables it leaves behind. */
  datatype Split = Split(out: Outcome, after: Option<CellId>, parent: Option<int>)

  /** The writes of splitHorizontal for a cell at least two rows high: it gives up a row. */
  function TallMarks(d: Doc, cell: CellId): map<CellId, Pending>
  {
    NewCellMarks(MarkWrite(map[], cell, RowSpanTo(RowSpanOf(d.cells, cell) - 1)), d.next, ColSpanOf(d.cells, cell))
  }

  /** The anchor callback for `cell` at coordinate `co`. */
  function AnchorFor(d: Doc, cell: CellId, co: Coord): Callback
  {
    Anchor(co.row, co.col, RowSpanOf(d.cells, cell), cell)
  }

  /** The scan of splitHorizontal for a taller cell, from the `after` and `parent` left before. */
  function TallScan(d: Doc, cell: CellId, after: Option<CellId>, parent: Option<int>): Scan
  {
    Walk(Placements(d.rows), AnchorFor(d, cell, Coordinate(d.rows, d.cells, cell, false)), d.rows, d.cells, Scan(map[], after, parent))
  }

  /**
   * splitHorizontal for a cell at least two rows high. `after` and `parent` are variables of
   * the whole operation, so the scan starts from the values the previous cell left.
   */
  function SplitTall(d: Doc, cell: CellId, after: Option<CellId>, parent: Option<int>): Split
  {
    var s := TallScan(d, cell, after, parent);
    match PlaceNewCell(WithNewCell(d), d.next, s)
    case Thrown(e) => Split(Thrown(e), s.after, s.parent)
    case Done(e) => Split(Done(Finish(e, TallMarks(d, cell), cell)), s.after, s.parent)
  }

  /** The body of splitHorizontal's loop for `cell`. */
  function SplitHorizontalCell(d: Doc, cell: CellId, after: Option<CellId>, parent: Option<int>): Split
  {
    if RowSpanOf(d.cells, cell) < 2 then Split(SplitShort(d, cell), after, parent)
    else SplitTall(d, cell, after, parent)
  }

  // ---------------------------------------------------------------------------------------
  // The scans

  /** Some placement of `c` in `ps` is one the grow callback `cb` marks. */
  ghost predicate Grows(ps: seq<Placement>, cb: Callback, cells: map<CellId, Cell>, c: CellId)
  {
    exists n :: 0 <= n < |ps| && ps[n].id == c && Widens(cb, cells, ps[n], Cols(ps, cells)[n])
  }

  lemma GrowsSnoc(ps: seq<Placement>, cb: Callback, cells: map<CellId, Cell>, c: CellId)
    requires |ps| > 0
    ensures var n := |ps| - 1;
            Grows(ps, cb, cells, c) <==>
            Grows(ps[..n], cb, cells, c) || (ps[n].id == c && Widens(cb, cells, ps[n], FormalColumn(Build(ps[..n], cells), ps[n].row)))
  {
    var n := |ps| - 1;
    var front := ps[..n];
    ColsOfFront(ps, cells);
    if Grows(ps, cb, cells, c) {
      var p :| 0 <= p < |ps| && ps[p].id == c && Widens(cb, cells, ps[p], Cols(ps, cells)[p]);
      if p < n {
        assert front[p].id == c && Widens(cb, cells, front[p], Cols(front, cells)[p]);
      }
    }
    if Grows(front, cb, cells, c) {
      var p :| 0 <= p < n && front[p].id == c && Widens(cb, cells, front[p], Cols(front, cells)[p]);
      assert ps[p].id == c && Widens(cb, cells, ps[p], Cols(ps, cells)[p]);
    }
  }

  /** The placements of a prefix keep their formal columns; the last one's is the first free column. */
  lemma ColsOfFront(ps: seq<Placement>, cells: map<CellId, Cell>)
    requires |ps| > 0
    ensures var n := |ps| - 1;
            Cols(ps, cells)[n] == FormalColumn(Build(ps[..n], cells), ps[n].row) &&
            forall p :: 0 <= p < n ==> ps[..n][p] == ps[p] && Cols(ps[..n], cells)[p] == Cols(ps, cells)[p]
  {
    ColsSnoc(ps, cells);
  }

  /** One step of a grow scan marks the placement's cell when the callback widens it, and nothing else. */
  lemma StepMarks(s: Scan, cb: Callback, rows: seq<seq<CellId>>, cells: map<CellId, Cell>, p: Placement, col: int)
    requires !cb.Anchor?
    ensures var t := Step(s, cb, rows, cells, p, col);
            var w := Widens(cb, cells, p, col);
            (forall c :: c in t.marks <==> c in s.marks || (c == p.id && w)) &&
            (forall c :: c in t.marks && !(c == p.id && w) ==> t.marks[c] == s.marks[c]) &&
            (w ==> t.marks[p.id] == Queue(Lookup(s.marks, p.id), Growth(cb, cells, p.id)))
  {
  }

  /**
   * A grow scan queues exactly one write for each cell it marks, and marks exactly the cells
   * that have a placement crossing the line of the cell being split.
   */
  lemma WalkMarks(ps: seq<Placement>, cb: Callback, rows: seq<seq<CellId>>, cells: map<CellId, Cell>)
    requires !cb.Anchor?
    ensures var s := Walk(ps, cb, rows, cells, Fresh);
            (forall c :: c in s.marks <==> Grows(ps, cb, cells, c)) &&
            (forall c :: c in s.marks ==> s.marks[c] == Queue(NoWrites, Growth(cb, cells, c)))
  {
    WalkMarked(ps, cb, rows, cells);
    WalkQueued(ps, cb, rows, cells);
  }

  /** The cells a grow scan marks are those it widens. */
  lemma {:induction false} WalkMarked(ps: seq<Placement>, cb: Callback, rows: seq<seq<CellId>>, cells: map<CellId, Cell>)
    requires !cb.Anchor?
    ensures forall c :: c in Walk(ps, cb, rows, cells, Fresh).marks <==> Grows(ps, cb, cells, c)
  {
    if |ps| > 0 {
      var n := |ps| - 1;
      WalkMarked(ps[..n], cb, rows, cells);
      var s := Walk(ps[..n], cb, rows, cells, Fresh);
      var col := FormalColumn(Build(ps[..n], cells), ps[n].row);
      assert Walk(ps, cb, rows, cells, Fresh) == Step(s, cb, rows, cells, ps[n], col);
      StepMarks(s, cb, rows, cells, ps[n], col);
      forall c
        ensures c in Step(s, cb, rows, cells, ps[n], col).marks <==> Grows(ps, cb, cells, c)
      {
        GrowsSnoc(ps, cb, cells, c);
      }
    }
  }

  /** A grow scan queues one write per marked cell: its growth. */
  lemma {:induction false} WalkQueued(ps: seq<Placement>, cb: Callback, rows: seq<seq<CellId>>, cells: map<CellId, Cell>)
    requires !cb.Anchor?
    ensures var s := Walk(ps, cb, rows, cells, Fresh);
            forall c :: c in s.marks ==> s.marks[c] == Queue(NoWrites, Growth(cb, cells, c))
  {
    if |ps| > 0 {
      var n := |ps| - 1;
      WalkQueued(ps[..n], cb, rows, cells);
      var s := Walk(ps[..n], cb, rows, cells, Fresh);
      var col := FormalColumn(Build(ps[..n], cells), ps[n].row);
      assert Walk(ps, cb, rows, cells, Fresh) == Step(s, cb, rows, cells, ps[n], col);
      StepMarks(s, cb, rows, cells, ps[n], col);
      var t := Step(s, cb, rows, cells, ps[n], col);
      forall c | c in t.marks
        ensures t.marks[c] == Queue(NoWrites, Growth(cb, cells, c))
      {
        if c == ps[n].id && Widens(cb, cells, ps[n], col) {
          RequeueGrowth(cb, cells, c, Lookup(s.marks, c));
        }
      }
    }
  }

  /** Queuing a cell's growth a second time leaves the one write it already held. */
  lemma RequeueGrowth(cb: Callback, cells: map<CellId, Cell>, c: CellId, q: Pending)
    requires !cb.Anchor? && (q == NoWrites || q == Queue(NoWrites, Growth(cb, cells, c)))
    ensures Queue(q, Growth(cb, cells, c)) == Queue(NoWrites, Growth(cb, cells, c))
  {
  }

  /** Placement `n` of `ps` is one the anchor callback `cb` takes as `after`. */
  ghost predicate AnchorAt(ps: seq<Placement>, cb: Callback, rows: seq<seq<CellId>>, cells: map<CellId, Cell>, n: int)
    requires cb.Anchor?
  {
    0 <= n < |ps| && Anchors(rows, cells, ps[n], Cols(ps, cells)[n], cb.k, cb.x, cb.span)
  }

  /** Placement `n` of `ps` is one of the cell being split whose last row lies below its first slot's row. */
  ghost predicate LastRowAt(ps: seq<Placement>, cb: Callback, cells: map<CellId, Cell>, n: int)
    requires cb.Anchor?
  {
    0 <= n < |ps| && ps[n].id == cb.cell && ps[n].row + RowSpanOf(cells, cb.cell) - 1 > cb.k
  }

  lemma ColsSnoc(ps: seq<Placement>, cells: map<CellId, Cell>)
    requires |ps| > 0
    ensures var n := |ps| - 1;
            ps == ps[..n] + [ps[n]] && Cols(ps, cells) == Cols(ps[..n], cells) + [FormalColumn(Build(ps[..n], cells), ps[n].row)]
  {
    var n := |ps| - 1;
    assert ps == ps[..n] + [ps[n]];
    PlaceSnoc(ps[..n], ps[n], cells);
  }

  /** The placements of a prefix keep their anchor and last-row tests. */
  lemma AnchorFront(ps: seq<Placement>, cb: Callback, rows: seq<seq<CellId>>, cells: map<CellId, Cell>)
    requires cb.Anchor? && |ps| > 0
    ensures var n := |ps| - 1;
            (forall p :: AnchorAt(ps[..n], cb, rows, cells, p) <==> 0 <= p < n && AnchorAt(ps, cb, rows, cells, p)) &&
            (forall p :: 0 <= p < n ==> ps[..n][p] == ps[p]) &&
            (AnchorAt(ps, cb, rows, cells, n) <==>
             Anchors(rows, cells, ps[n], FormalColumn(Build(ps[..n], cells), ps[n].row), cb.k, cb.x, cb.span))
  {
    var n := |ps| - 1;
    var front := ps[..n];
    ColsSnoc(ps, cells);
    var cols := Cols(ps, cells);
    assert forall p :: 0 <= p < n ==> ps[p] == front[p] && cols[p] == Cols(front, cells)[p];
  }

  /**
   * The anchor scan queues nothing and ends with `after` naming the cell of the last placement
   * it takes, or with the `after` it started from when it takes none.
   */
  lemma {:induction false} WalkAfter(ps: seq<Placement>, cb: Callback, rows: seq<seq<CellId>>, cells: map<CellId, Cell>, start: Scan)
    requires cb.Anchor?
    ensures var s := Walk(ps, cb, rows, cells, start);
            s.marks == start.marks &&
            if exists n :: AnchorAt(ps, cb, rows, cells, n)
            then exists n :: AnchorAt(ps, cb, rows, cells, n) && s.after == Some(ps[n].id)
            else s.after == start.after
  {
    AnchorKeepsMarks(ps, cb, rows, cells, start);
    if |ps| > 0 {
      var n := |ps| - 1;
      WalkAfter(ps[..n], cb, rows, cells, start);
      AnchorFront(ps, cb, rows, cells);
      var s := Walk(ps[..n], cb, rows, cells, start);
      AnchorStep(ps, cb, rows, cells, start);
      if AnchorAt(ps, cb, rows, cells, n) {
      } else if exists p :: AnchorAt(ps[..n], cb, rows, cells, p) {
        var p :| AnchorAt(ps[..n], cb, rows, cells, p) && s.after == Some(ps[..n][p].id);
        assert AnchorAt(ps, cb, rows, cells, p) && Walk(ps, cb, rows, cells, start).after == Some(ps[p].id);
      }
    }
  }

  /** The last placement of an anchor scan takes `after` when it meets the anchor test. */
  lemma AnchorStep(ps: seq<Placement>, cb: Callback, rows: seq<seq<CellId>>, cells: map<CellId, Cell>, start: Scan)
    requires cb.Anchor? && |ps| > 0
    ensures var n := |ps| - 1;
            Walk(ps, cb, rows, cells, start).after ==
            if Anchors(rows, cells, ps[n], FormalColumn(Build(ps[..n], cells), ps[n].row), cb.k, cb.x, cb.span)
            then Some(ps[n].id) else Walk(ps[..n], cb, rows, cells, start).after
  {
  }

  /** The anchor scan queues no write. */
  lemma {:induction false} AnchorKeepsMarks(ps: seq<Placement>, cb: Callback, rows: seq<seq<CellId>>, cells: map<CellId, Cell>, start: Scan)
    requires cb.Anchor?
    ensures Walk(ps, cb, rows, cells, start).marks == start.marks
  {
    if |ps| > 0 {
      AnchorKeepsMarks(ps[..|ps| - 1], cb, rows, cells, start);
    }
  }

  /** The `parent` an anchor scan of `ps` leaves, from `start` on, read off the placements alone. */
  ghost function LastRow(ps: seq<Placement>, cb: Callback, cells: map<CellId, Cell>, start: Option<int>): Option<int>
    requires cb.Anchor?
  {
    if |ps| == 0 then start
    else if LastRowAt(ps, cb, cells, |ps| - 1) then Some(ps[|ps| - 1].row + RowSpanOf(cells, cb.cell) - 1)
    else LastRow(ps[..|ps| - 1], cb, cells, start)
  }

  lemma {:induction false} WalkLastRow(ps: seq<Placement>, cb: Callback, rows: seq<seq<CellId>>, cells: map<CellId, Cell>, start: Scan)
    requires cb.Anchor?
    ensures Walk(ps, cb, rows, cells, start).parent == LastRow(ps, cb, cells, start.parent)
  {
    if |ps| > 0 {
      WalkLastRow(ps[..|ps| - 1], cb, rows, cells, start);
    }
  }

  lemma {:induction false} LastRowFound(ps: seq<Placement>, cb: Callback, cells: map<CellId, Cell>, start: Option<int>)
    requires cb.Anchor?
    ensures var r := LastRow(ps, cb, cells, start);
            if exists n :: LastRowAt(ps, cb, cells, n)
            then exists n :: LastRowAt(ps, cb, cells, n) && r == Some(ps[n].row + RowSpanOf(cells, cb.cell) - 1)
            else r == start
  {
    if |ps| > 0 {
      var n := |ps| - 1;
      var front := ps[..n];
      LastRowFound(front, cb, cells, start);
      assert forall p :: 0 <= p < n ==> front[p] == ps[p];
      assert forall p :: LastRowAt(front, cb, cells, p) <==> 0 <= p < n && LastRowAt(ps, cb, cells, p);
    }
  }

  /**
   * The anchor scan ends with `parent` the last row of the last placement of the split cell
   * reaching below the row of its first slot, or with the `parent` it started from.
   */
  lemma WalkParent(ps: seq<Placement>, cb: Callback, rows: seq<seq<CellId>>, cells: map<CellId, Cell>, start: Scan)
    requires cb.Anchor?
    ensures var s := Walk(ps, cb, rows, cells, start);
            if exists n :: LastRowAt(ps, cb, cells, n)
            then exists n :: LastRowAt(ps, cb, cells, n) && s.parent == Some(ps[n].row + RowSpanOf(cells, cb.cell) - 1)
            else s.parent == start.parent
  {
    WalkLastRow(ps, cb, rows, cells, start);
    LastRowFound(ps, cb, cells, start.parent);
  }

  // ---------------------------------------------------------------------------------------
  // One split

  /** No queued write removes a cell. */
  predicate NoRemoves(marks: map<CellId, Pending>)
  {
    forall c :: c in marks ==> !marks[c].remove
  }

  /** `__unmark` without removals moves no cell. */
  lemma NoRemoval(d: Doc, marks: map<CellId, Pending>)
    requires NoRemoves(marks)
    ensures ApplyPending(d, marks).rows == d.rows
  {
    forall i | 0 <= i < |d.rows|
      ensures Keep(d.rows[i], marks) == d.rows[i]
    {
      KeepNothing(d.rows[i], marks);
    }
  }

  /** A cell a grow scan marks is a cell of the tree. */
  lemma GrowsInTree(rows: seq<seq<CellId>>, cb: Callback, cells: map<CellId, Cell>, c: CellId)
    requires Grows(Placements(rows), cb, cells, c)
    ensures InTree(rows, c)
  {
    var ps := Placements(rows);
    var n :| 0 <= n < |ps| && ps[n].id == c && Widens(cb, cells, ps[n], Cols(ps, cells)[n]);
    PlacementsInRows(rows, n);
  }

  /** The writes a grow scan queues in a closed table: spans only, and only for cells with a record. */
  lemma GrowMarks(d: Doc, cb: Callback)
    requires Closed(d) && !cb.Anchor?
    ensures var marks := Walk(Placements(d.rows), cb, d.rows, d.cells, Fresh).marks;
            NoRemoves(marks) && (forall c :: c in marks ==> c in d.cells && c < d.next) &&
            (forall c :: c in marks <==> Grows(Placements(d.rows), cb, d.cells, c)) &&
            (forall c :: c in marks ==> marks[c] == if cb.RowGrow? then Pending(false, Some(RowSpanOf(d.cells, c) + 1), None)
                                                     else Pending(false, None, Some(ColSpanOf(d.cells, c) + 1))) &&
            cb.cell !in marks
  {
    GrowMembers(d, cb);
    GrowValues(d, cb);
  }

  /** The cells a grow scan marks in a closed table: those it widens, all with a record. */
  lemma GrowMembers(d: Doc, cb: Callback)
    requires Closed(d) && !cb.Anchor?
    ensures var marks := Walk(Placements(d.rows), cb, d.rows, d.cells, Fresh).marks;
            (forall c :: c in marks ==> c in d.cells && c < d.next) &&
            (forall c :: c in marks <==> Grows(Placements(d.rows), cb, d.cells, c)) &&
            cb.cell !in marks
  {
    var ps := Placements(d.rows);
    WalkMarked(ps, cb, d.rows, d.cells);
    forall c | Grows(ps, cb, d.cells, c)
      ensures c in d.cells
    {
      GrowsInTree(d.rows, cb, d.cells, c);
    }
  }

  /** Each write of a grow scan is one span one larger than the cell's. */
  lemma GrowValues(d: Doc, cb: Callback)
    requires !cb.Anchor?
    ensures var marks := Walk(Placements(d.rows), cb, d.rows, d.cells, Fresh).marks;
            NoRemoves(marks) &&
            (forall c :: c in marks ==> marks[c] == if cb.RowGrow? then Pending(false, Some(RowSpanOf(d.cells, c) + 1), None)
                                                     else Pending(false, None, Some(ColSpanOf(d.cells, c) + 1)))
  {
    var ps := Placements(d.rows);
    WalkQueued(ps, cb, d.rows, d.cells);
    var marks := Walk(ps, cb, d.rows, d.cells, Fresh).marks;
    forall c | c in marks
      ensures marks[c] == if cb.RowGrow? then Pending(false, Some(RowSpanOf(d.cells, c) + 1), None)
                          else Pending(false, None, Some(ColSpanOf(d.cells, c) + 1))
    {
      GrowthValue(cb, d.cells, c);
    }
  }

  /** The one write a grow scan queues for a cell, as `__marked_value` holds it. */
  lemma GrowthValue(cb: Callback, cells: map<CellId, Cell>, c: CellId)
    requires !cb.Anchor?
    ensures Queue(NoWrites, Growth(cb, cells, c)) ==
            if cb.RowGrow? then Pending(false, Some(RowSpanOf(cells, c) + 1), None)
            else Pending(false, None, Some(ColSpanOf(cells, c) + 1))
  {
  }

  /** `__unmark` of a one-column widening. */
  lemma WidenApplied(c: Cell)
    ensures ApplyAttrs(c, Pending(false, None, Some(ColSpan(c) + 1))) == c.(colspan := Some(ColSpan(c) + 1))
  {
  }

  /** `__unmark` of a one-row growth. */
  lemma GrowApplied(c: Cell)
    ensures ApplyAttrs(c, Pending(false, Some(RowSpan(c) + 1), None)) == c.(rowspan := Some(RowSpan(c) + 1))
  {
  }

  /** The column writes of splitVertical, cell by cell. */
  lemma ColumnMarksFacts(d: Doc, cell: CellId, co: Coord)
    requires Closed(d)
    ensures var m := ColumnMarksAt(d, cell, co);
            var cs := ColSpanOf(d.cells, cell);
            NoRemoves(m) && d.next !in m &&
            (cell in m <==> cs >= 2) && (cell in m ==> m[cell] == Pending(false, None, Some(cs - 1))) &&
            forall c :: c != cell ==>
              (c in m <==> cs < 2 && Grows(Placements(d.rows), ColGrow(co.row, co.col, cell), d.cells, c)) &&
              (c in m ==> c in d.cells && m[c] == Pending(false, None, Some(ColSpanOf(d.cells, c) + 1)))
  {
    if ColSpanOf(d.cells, cell) < 2 {
      GrowMarks(d, ColGrow(co.row, co.col, cell));
    }
  }

  /** The writes of splitVertical, cell by cell. */
  lemma VerticalMarksFacts(d: Doc, cell: CellId)
    requires Closed(d)
    ensures var m := VerticalMarks(d, cell);
            var co := Coordinate(d.rows, d.cells, cell, false);
            var cs := ColSpanOf(d.cells, cell);
            var rs := RowSpanOf(d.cells, cell);
            NoRemoves(m) &&
            (d.next in m <==> rs > 1) && (d.next in m ==> m[d.next] == Pending(false, Some(rs), None)) &&
            (cell in m <==> cs >= 2) && (cell in m ==> m[cell] == Pending(false, None, Some(cs - 1))) &&
            forall c :: c != cell && c != d.next ==>
              (c in m <==> cs < 2 && Grows(Placements(d.rows), ColGrow(co.row, co.col, cell), d.cells, c)) &&
              (c in m ==> c in d.cells && m[c] == Pending(false, None, Some(ColSpanOf(d.cells, c) + 1)))
  {
    ColumnMarksFacts(d, cell, Coordinate(d.rows, d.cells, cell, false));
    assert cell in d.cells ==> cell < d.next;
  }

  /** What `__unmark` and `restoreSelection` leave of one record. */
  lemma FinishCell(d: Doc, marks: map<CellId, Pending>, cell: CellId, c: CellId)
    requires c in d.cells
    ensures var r := Finish(d, marks, cell).cells;
            c in r &&
            var w := if c in marks then ApplyAttrs(d.cells[c], marks[c]) else d.cells[c];
            r[c] == if c == cell then w.(selected := false) else w
  {
  }

  /** A record other than the split cell after `__unmark`: one column wider when it was marked. */
  lemma FinishWidened(d: Doc, m: map<CellId, Pending>, cell: CellId, c: CellId, orig: Cell, grow: bool)
    requires c in d.cells && c != cell && d.cells[c] == orig
    requires (c in m <==> grow) && (c in m ==> m[c] == Pending(false, None, Some(ColSpan(orig) + 1)))
    ensures c in Finish(d, m, cell).cells && Finish(d, m, cell).cells[c] == if grow then orig.(colspan := Some(ColSpan(orig) + 1)) else orig
  {
    FinishCell(d, m, cell, c);
    if grow {
      WidenApplied(orig);
    }
  }

  /** A record other than the split cell after `__unmark`: one row higher when it was marked. */
  lemma FinishGrown(d: Doc, m: map<CellId, Pending>, cell: CellId, c: CellId, orig: Cell, grow: bool)
    requires c in d.cells && c != cell && d.cells[c] == orig
    requires (c in m <==> grow) && (c in m ==> m[c] == Pending(false, Some(RowSpan(orig) + 1), None))
    ensures c in Finish(d, m, cell).cells && Finish(d, m, cell).cells[c] == if grow then orig.(rowspan := Some(RowSpan(orig) + 1)) else orig
  {
    FinishCell(d, m, cell, c);
    if grow {
      GrowApplied(orig);
    }
  }

  /** `__unmark` over every record but the split cell: the marked ones one column wider. */
  lemma FinishAllWidened(d: Doc, m: map<CellId, Pending>, cell: CellId, cells: map<CellId, Cell>, g: set<CellId>)
    requires forall c :: c in cells && c != cell ==> c in d.cells && d.cells[c] == cells[c]
    requires forall c :: c in cells && c != cell ==>
               (c in m <==> c in g) && (c in m ==> m[c] == Pending(false, None, Some(ColSpan(cells[c]) + 1)))
    ensures forall c :: c in cells && c != cell ==>
              c in Finish(d, m, cell).cells &&
              Finish(d, m, cell).cells[c] == if c in g then cells[c].(colspan := Some(ColSpan(cells[c]) + 1)) else cells[c]
  {
    forall c | c in cells && c != cell
      ensures c in Finish(d, m, cell).cells &&
              Finish(d, m, cell).cells[c] == if c in g then cells[c].(colspan := Some(ColSpan(cells[c]) + 1)) else cells[c]
    {
      FinishWidened(d, m, cell, c, cells[c], c in g);
    }
  }

  /** `__unmark` over every record but the split cell: the marked ones one row higher. */
  lemma FinishAllGrown(d: Doc, m: map<CellId, Pending>, cell: CellId, cells: map<CellId, Cell>, g: set<CellId>)
    requires forall c :: c in cells && c != cell ==> c in d.cells && d.cells[c] == cells[c]
    requires forall c :: c in cells && c != cell ==>
               (c in m <==> c in g) && (c in m ==> m[c] == Pending(false, Some(RowSpan(cells[c]) + 1), None))
    ensures forall c :: c in cells && c != cell ==>
              c in Finish(d, m, cell).cells &&
              Finish(d, m, cell).cells[c] == if c in g then cells[c].(rowspan := Some(RowSpan(cells[c]) + 1)) else cells[c]
  {
    forall c | c in cells && c != cell
      ensures c in Finish(d, m, cell).cells &&
              Finish(d, m, cell).cells[c] == if c in g then cells[c].(rowspan := Some(RowSpan(cells[c]) + 1)) else cells[c]
    {
      FinishGrown(d, m, cell, c, cells[c], c in g);
    }
  }

  /**
   * splitVertical on a cell of a closed table does not raise; the new cell goes right after
   * the cell in its row, and the table stays closed.
   */
  lemma SplitVerticalTree(d: Doc, cell: CellId)
    requires Closed(d) && InTree(d.rows, cell)
    ensures var o := SplitVerticalCell(d, cell);
            Parent(d.rows, cell).Some? && o.Done? && Closed(o.doc) &&
            var p := Parent(d.rows, cell).value;
            o.doc.rows == d.rows[p := InsertAfter(d.rows[p], cell, d.next)]
  {
    VerticalMarksFacts(d, cell);
    var d1 := WithNewCell(d);
    var p := Parent(d1.rows, cell).value;
    var d2 := d1.(rows := d1.rows[p := InsertAfter(d1.rows[p], cell, d.next)]);
    NoRemoval(d2, VerticalMarks(d, cell));
    assert forall i :: 0 <= i < |d2.rows| ==> forall c :: c in d2.rows[i] ==> c in d.rows[i] || c == d.next;
  }

  /** The table of one vertical split before `__unmark`, with the new cell in the tree. */
  function VerticalTree(d: Doc, cell: CellId): Doc
    requires InTree(d.rows, cell)
  {
    var d1 := WithNewCell(d);
    var p := Parent(d1.rows, cell).value;
    d1.(rows := d1.rows[p := InsertAfter(d1.rows[p], cell, d.next)])
  }

  lemma VerticalFinish(d: Doc, cell: CellId)
    requires InTree(d.rows, cell)
    ensures SplitVerticalCell(d, cell) == Done(Finish(VerticalTree(d, cell), VerticalMarks(d, cell), cell))
  {
  }

  /**
   * The new cell of splitVertical spans as many rows as the cell split; that cell gives up a
   * column when it is at least two columns wide, and loses the selection marker.
   */
  lemma SplitVerticalPair(d: Doc, cell: CellId)
    requires Closed(d) && InTree(d.rows, cell)
    ensures var o := SplitVerticalCell(d, cell);
            var cs := ColSpanOf(d.cells, cell);
            o.Done? && o.doc.next == d.next + 1 && o.doc.cells.Keys == d.cells.Keys + {d.next} && cell in d.cells &&
            o.doc.cells[d.next] == NewCell(BreakHtml).(rowspan := SpanAttr(RowSpanOf(d.cells, cell))) &&
            o.doc.cells[cell] == d.cells[cell].(colspan := if cs >= 2 then SpanAttr(cs - 1) else d.cells[cell].colspan,
                                                 selected := false)
  {
    VerticalFinish(d, cell);
    VerticalMarksFacts(d, cell);
    var d2 := VerticalTree(d, cell);
    var m := VerticalMarks(d, cell);
    FinishCell(d2, m, cell, d.next);
    FinishCell(d2, m, cell, cell);
  }

  /** The cells splitVertical widens: those crossing the formal column of a one-column cell. */
  ghost function VerticalGrown(d: Doc, cell: CellId): set<CellId>
  {
    var co := Coordinate(d.rows, d.cells, cell, false);
    set c | c in d.cells && ColSpanOf(d.cells, cell) < 2 && Grows(Placements(d.rows), ColGrow(co.row, co.col, cell), d.cells, c)
  }

  /** The widenings splitVertical queues, for every record but the split cell. */
  lemma VerticalMarksOthers(d: Doc, cell: CellId)
    requires Closed(d)
    ensures var m := VerticalMarks(d, cell);
            forall c :: c in d.cells && c != cell ==>
              (c in m <==> c in VerticalGrown(d, cell)) &&
              (c in m ==> m[c] == Pending(false, None, Some(ColSpan(d.cells[c]) + 1)))
  {
    VerticalMarksFacts(d, cell);
    assert d.next !in d.cells;
  }

  /**
   * splitVertical of a cell one column wide makes every other cell with a slot of the cell's
   * formal column in another row a column wider; no other cell changes.
   */
  lemma SplitVerticalOthers(d: Doc, cell: CellId)
    requires Closed(d) && InTree(d.rows, cell)
    ensures var o := SplitVerticalCell(d, cell);
            var co := Coordinate(d.rows, d.cells, cell, false);
            var cs := ColSpanOf(d.cells, cell);
            o.Done? && o.doc.cells.Keys == d.cells.Keys + {d.next} &&
            forall c :: c in d.cells && c != cell ==>
              o.doc.cells[c] == if cs < 2 && Grows(Placements(d.rows), ColGrow(co.row, co.col, cell), d.cells, c)
                                then d.cells[c].(colspan := Some(ColSpan(d.cells[c]) + 1)) else d.cells[c]
  {
    VerticalFinish(d, cell);
    VerticalMarksOthers(d, cell);
    var d2 := VerticalTree(d, cell);
    assert d2.cells == d.cells[d.next := NewCell(BreakHtml)];
    assert d.next !in d.cells;
    FinishAllWidened(d2, VerticalMarks(d, cell), cell, d.cells, VerticalGrown(d, cell));
  }

  /** The row writes of splitHorizontal for a cell one row high, cell by cell. */
  lemma RowMarksFacts(d: Doc, cell: CellId, co: Coord)
    requires Closed(d)
    ensures var m := RowMarksAt(d, cell, co);
            NoRemoves(m) && d.next !in m && cell !in m &&
            forall c ::
              (c in m <==> Grows(Placements(d.rows), RowGrow(co.row, co.col, cell), d.cells, c)) &&
              (c in m ==> c in d.cells && m[c] == Pending(false, Some(RowSpanOf(d.cells, c) + 1), None))
  {
    GrowMarks(d, RowGrow(co.row, co.col, cell));
  }

  /** The writes of splitHorizontal for a cell one row high, cell by cell. */
  lemma ShortMarksFacts(d: Doc, cell: CellId)
    requires Closed(d)
    ensures var m := ShortMarks(d, cell);
            var co := Coordinate(d.rows, d.cells, cell, false);
            var cs := ColSpanOf(d.cells, cell);
            NoRemoves(m) && cell !in m &&
            (d.next in m <==> cs > 1) && (d.next in m ==> m[d.next] == Pending(false, None, Some(cs))) &&
            forall c :: c != d.next ==>
              (c in m <==> Grows(Placements(d.rows), RowGrow(co.row, co.col, cell), d.cells, c)) &&
              (c in m ==> c in d.cells && m[c] == Pending(false, Some(RowSpanOf(d.cells, c) + 1), None))
  {
    RowMarksFacts(d, cell, Coordinate(d.rows, d.cells, cell, false));
  }

  lemma ShortNoRemoves(d: Doc, cell: CellId)
    requires Closed(d)
    ensures NoRemoves(ShortMarks(d, cell))
  {
    ShortMarksFacts(d, cell);
  }

  /** The table of one short horizontal split before `__unmark`, with the new row in the tree. */
  function ShortTree(d: Doc, cell: CellId): Doc
    requires InTree(d.rows, cell)
  {
    var d1 := WithNewCell(d);
    var p := Parent(d.rows, cell).value;
    d1.(rows := d1.rows[..p + 1] + [[d.next]] + d1.rows[p + 1..])
  }

  lemma ShortFinish(d: Doc, cell: CellId)
    requires InTree(d.rows, cell)
    ensures SplitShort(d, cell) == Done(Finish(ShortTree(d, cell), ShortMarks(d, cell), cell))
  {
  }

  /**
   * splitHorizontal on a cell one row high of a closed table does not raise; a row holding
   * only the new cell goes right under the cell's row, and the table stays closed.
   */
  lemma SplitShortTree(d: Doc, cell: CellId)
    requires Closed(d) && InTree(d.rows, cell)
    ensures var o := SplitShort(d, cell);
            Parent(d.rows, cell).Some? && o.Done? && Closed(o.doc) &&
            var p := Parent(d.rows, cell).value;
            o.doc.rows == d.rows[..p + 1] + [[d.next]] + d.rows[p + 1..]
  {
    ShortFinish(d, cell);
    ShortNoRemoves(d, cell);
    ShortTreeClosed(d, cell);
    FinishClosed(ShortTree(d, cell), ShortMarks(d, cell), cell);
  }

  lemma ShortTreeClosed(d: Doc, cell: CellId)
    requires Closed(d) && InTree(d.rows, cell)
    ensures Closed(ShortTree(d, cell))
  {
    var p := Parent(d.rows, cell).value;
    NewCellClosed(d);
    RowInsertedClosed(WithNewCell(d), p, [d.next]);
  }

  /** The new cell's record keeps a closed table closed. */
  lemma NewCellClosed(d: Doc)
    requires Closed(d)
    ensures Closed(WithNewCell(d)) && d.next in WithNewCell(d).cells
  {
  }

  /** A row of cells that have records, put under row `p`, keeps a table closed. */
  lemma RowInsertedClosed(d: Doc, p: nat, row: seq<CellId>)
    requires Closed(d) && p < |d.rows| && forall c :: c in row ==> c in d.cells
    ensures Closed(d.(rows := d.rows[..p + 1] + [row] + d.rows[p + 1..]))
  {
    var r := d.rows[..p + 1] + [row] + d.rows[p + 1..];
    RowInserted(d.rows, p, row);
    forall i | 0 <= i < |r|
      ensures forall c :: c in r[i] ==> c in d.cells
    {
      if i > p + 1 {
        assert r[i] == d.rows[i - 1];
      }
    }
  }

  /** `__unmark` without removals and `restoreSelection` keep the rows, and a closed table closed. */
  lemma FinishClosed(d: Doc, marks: map<CellId, Pending>, cell: CellId)
    requires Closed(d) && NoRemoves(marks)
    ensures Finish(d, marks, cell).rows == d.rows && Closed(Finish(d, marks, cell))
  {
    NoRemoval(d, marks);
  }

  lemma RowInserted(rows: seq<seq<CellId>>, p: nat, row: seq<CellId>)
    requires p < |rows|
    ensures var r := rows[..p + 1] + [row] + rows[p + 1..];
            |r| == |rows| + 1 &&
            forall i :: 0 <= i < |r| ==> r[i] == if i <= p then rows[i] else if i == p + 1 then row else rows[i - 1]
  {
  }

  /**
   * The new cell of a short horizontal split is as wide as the cell split, which keeps its
   * spans and loses the selection marker.
   */
  lemma SplitShortPair(d: Doc, cell: CellId)
    requires Closed(d) && InTree(d.rows, cell)
    ensures var o := SplitShort(d, cell);
            o.Done? && o.doc.next == d.next + 1 && o.doc.cells.Keys == d.cells.Keys + {d.next} && cell in d.cells &&
            o.doc.cells[d.next] == NewCell(BreakHtml).(colspan := SpanAttr(ColSpanOf(d.cells, cell))) &&
            o.doc.cells[cell] == d.cells[cell].(selected := false)
  {
    ShortFinish(d, cell);
    ShortMarksFacts(d, cell);
    var d2 := ShortTree(d, cell);
    var m := ShortMarks(d, cell);
    FinishCell(d2, m, cell, d.next);
    FinishCell(d2, m, cell, cell);
  }

  /** The cells splitHorizontal makes a row higher: those crossing the formal row of a one-row cell. */
  ghost function ShortGrown(d: Doc, cell: CellId): set<CellId>
  {
    var co := Coordinate(d.rows, d.cells, cell, false);
    set c | c in d.cells && Grows(Placements(d.rows), RowGrow(co.row, co.col, cell), d.cells, c)
  }

  /** The growths splitHorizontal queues for a one-row cell, for every record but that cell. */
  lemma ShortMarksOthers(d: Doc, cell: CellId)
    requires Closed(d)
    ensures var m := ShortMarks(d, cell);
            forall c :: c in d.cells && c != cell ==>
              (c in m <==> c in ShortGrown(d, cell)) &&
              (c in m ==> m[c] == Pending(false, Some(RowSpan(d.cells[c]) + 1), None))
  {
    ShortMarksFacts(d, cell);
    assert d.next !in d.cells;
  }

  /**
   * splitHorizontal of a cell one row high makes every other cell with a slot of the cell's
   * formal row in another column a row higher; no other cell changes.
   */
  lemma SplitShortOthers(d: Doc, cell: CellId)
    requires Closed(d) && InTree(d.rows, cell)
    ensures var o := SplitShort(d, cell);
            var co := Coordinate(d.rows, d.cells, cell, false);
            o.Done? && o.doc.cells.Keys == d.cells.Keys + {d.next} &&
            forall c :: c in d.cells && c != cell ==>
              o.doc.cells[c] == if Grows(Placements(d.rows), RowGrow(co.row, co.col, cell), d.cells, c)
                                then d.cells[c].(rowspan := Some(RowSpan(d.cells[c]) + 1)) else d.cells[c]
  {
    ShortFinish(d, cell);
    ShortMarksOthers(d, cell);
    var d2 := ShortTree(d, cell);
    assert d2.cells == d.cells[d.next := NewCell(BreakHtml)];
    assert d.next !in d.cells;
    FinishAllGrown(d2, ShortMarks(d, cell), cell, d.cells, ShortGrown(d, cell));
  }

  /** The writes of splitHorizontal for a cell at least two rows high, cell by cell. */
  lemma TallMarksFacts(d: Doc, cell: CellId)
    requires cell != d.next
    ensures var m := TallMarks(d, cell);
            var cs := ColSpanOf(d.cells, cell);
            NoRemoves(m) && m.Keys == {cell} + (if cs > 1 then {d.next} else {}) &&
            m[cell] == Pending(false, Some(RowSpanOf(d.cells, cell) - 1), None) &&
            (cs > 1 ==> m[d.next] == Pending(false, None, Some(cs)))
  {
  }

  /** `rows'` is `rows` with `td` added to row `q` and nothing else changed. */
  ghost predicate PutInto(rows: seq<seq<CellId>>, rows': seq<seq<CellId>>, q: int, td: CellId)
  {
    0 <= q < |rows| && |rows'| == |rows| &&
    (forall i :: 0 <= i < |rows| && i != q ==> rows'[i] == rows[i]) &&
    (forall y :: y in rows'[q] <==> y in rows[q] || y == td)
  }

  /** The new cell goes into one row, or the split raises and leaves the table as it was with the new cell made. */
  lemma PlaceNewCellFacts(d1: Doc, td: CellId, s: Scan)
    ensures var o := PlaceNewCell(d1, td, s);
            (o.Thrown? ==> o.doc == d1) &&
            (o.Done? ==> o.doc.cells == d1.cells && o.doc.next == d1.next &&
                         exists q :: PutInto(d1.rows, o.doc.rows, q, td))
  {
    var o := PlaceNewCell(d1, td, s);
    if o.Done? {
      if s.after.Some? {
        var q := Parent(d1.rows, s.after.value).value;
        assert PutInto(d1.rows, o.doc.rows, q, td);
      } else {
        assert PutInto(d1.rows, o.doc.rows, s.parent.value, td);
      }
    }
  }

  /**
   * What splitHorizontal writes for a cell at least two rows high: it gives up a row and loses
   * the selection marker, the new cell is as wide as it, and no other cell changes. When it
   * raises, only the new cell has been made. The table stays closed either way.
   */
  lemma SplitTallRecords(d: Doc, cell: CellId, after: Option<CellId>, parent: Option<int>)
    requires Closed(d) && InTree(d.rows, cell) && RowSpanOf(d.cells, cell) >= 2
    ensures var r := SplitTall(d, cell, after, parent);
            var e := r.out.doc;
            cell in d.cells && Closed(e) && e.next == d.next + 1 && e.cells.Keys == d.cells.Keys + {d.next} &&
            (r.out.Thrown? ==> e == WithNewCell(d)) &&
            (r.out.Done? ==>
               e.cells[d.next] == NewCell(BreakHtml).(colspan := SpanAttr(ColSpanOf(d.cells, cell))) &&
               e.cells[cell] == d.cells[cell].(rowspan := SpanAttr(RowSpanOf(d.cells, cell) - 1), selected := false) &&
               forall c :: c in d.cells && c != cell ==> e.cells[c] == d.cells[c])
  {
    assert cell in d.cells;
    var s := TallScan(d, cell, after, parent);
    var d1 := WithNewCell(d);
    var o := PlaceNewCell(d1, d.next, s);
    TallFinish(d, cell, after, parent);
    PlaceClosed(d1, d.next, s);
    PlaceNewCellFacts(d1, d.next, s);
    if o.Done? {
      assert d.next !in d.cells;
      TallCells(d, o.doc, cell);
    }
  }

  /** The records after the writes of a taller cell's split, once the new cell is in the tree `e`. */
  lemma TallCells(d: Doc, e: Doc, cell: CellId)
    requires Closed(e) && cell in d.cells && d.next !in d.cells && e.cells == d.cells[d.next := NewCell(BreakHtml)]
    ensures var f := Finish(e, TallMarks(d, cell), cell);
            Closed(f) && f.next == e.next && f.cells.Keys == e.cells.Keys &&
            f.cells[d.next] == NewCell(BreakHtml).(colspan := SpanAttr(ColSpanOf(d.cells, cell))) &&
            f.cells[cell] == d.cells[cell].(rowspan := SpanAttr(RowSpanOf(d.cells, cell) - 1), selected := false) &&
            forall c :: c in d.cells && c != cell ==> f.cells[c] == d.cells[c]
  {
    var m := TallMarks(d, cell);
    TallMarksFacts(d, cell);
    FinishClosed(e, m, cell);
    FinishCell(e, m, cell, d.next);
    FinishCell(e, m, cell, cell);
    forall c | c in d.cells && c != cell
      ensures Finish(e, m, cell).cells[c] == d.cells[c]
    {
      assert c != d.next;
      FinishCell(e, m, cell, c);
    }
  }

  /** In a table where no cell is placed twice, the split cell's only placement is its first. */
  lemma OnlyPlacement(d: Doc, cell: CellId)
    requires InTree(d.rows, cell) && DistinctPlacements(Placements(d.rows))
    ensures var ps := Placements(d.rows);
            var p := IndexOf(ps, cell);
            var co := Coordinate(d.rows, d.cells, cell, false);
            p < |ps| && co.row == ps[p].row && co.col == Cols(ps, d.cells)[p] &&
            forall n :: 0 <= n < |ps| && ps[n].id == cell ==> n == p
  {
    var ps := Placements(d.rows);
    var i :| 0 <= i < |d.rows| && cell in d.rows[i];
    var k :| 0 <= k < |d.rows[i]| && d.rows[i][k] == cell;
    PlacementOf(d.rows, i, k);
  }

  /**
   * Started afresh, the scan for a cell at least two rows high ends with `parent` the cell's
   * last row, and with `after` a cell whose row is strictly inside the rows the cell covers.
   */
  lemma FreshTallScan(d: Doc, cell: CellId)
    requires InTree(d.rows, cell) && RowSpanOf(d.cells, cell) >= 2 && DistinctPlacements(Placements(d.rows))
    ensures var co := Coordinate(d.rows, d.cells, cell, false);
            var cb := AnchorFor(d, cell, co);
            var ps := Placements(d.rows);
            var s := TallScan(d, cell, None, None);
            var rs := RowSpanOf(d.cells, cell);
            s.parent == Some(co.row + rs - 1) &&
            (s.after.Some? <==> exists n :: AnchorAt(ps, cb, d.rows, d.cells, n)) &&
            (s.after.Some? ==> Parent(d.rows, s.after.value).Some? &&
                               co.row < Parent(d.rows, s.after.value).value < co.row + rs)
  {
    var co := Coordinate(d.rows, d.cells, cell, false);
    var cb := AnchorFor(d, cell, co);
    var ps := Placements(d.rows);
    var start := Scan(map[], None, None);
    OnlyPlacement(d, cell);
    WalkAfter(ps, cb, d.rows, d.cells, start);
    WalkParent(ps, cb, d.rows, d.cells, start);
    assert LastRowAt(ps, cb, d.cells, IndexOf(ps, cell));
  }

  /** Where PlaceNewCell puts the new cell. */
  lemma PlaceNewCellRows(d1: Doc, td: CellId, s: Scan)
    requires s.after.Some? ==> Parent(d1.rows, s.after.value).Some?
    ensures var o := PlaceNewCell(d1, td, s);
            (o.Done? <==> s.after.Some? || (s.parent.Some? && 0 <= s.parent.value < |d1.rows|)) &&
            (s.after.Some? ==> var q := Parent(d1.rows, s.after.value).value;
                               o.doc.rows == d1.rows[q := InsertAfter(d1.rows[q], s.after.value, td)]) &&
            (s.after.None? && o.Done? ==> var i := s.parent.value; o.doc.rows == d1.rows[i := [td] + d1.rows[i]])
  {
  }

  /** A split of a taller cell ends as PlaceNewCell does and leaves the variables of its scan. */
  lemma SplitTallRows(d: Doc, cell: CellId, after: Option<CellId>, parent: Option<int>)
    requires Closed(d) && cell != d.next
    ensures var s := TallScan(d, cell, after, parent);
            var o := PlaceNewCell(WithNewCell(d), d.next, s);
            var r := SplitTall(d, cell, after, parent);
            r.after == s.after && r.parent == s.parent && r.out.Done? == o.Done? && (o.Done? ==> r.out.doc.rows == o.doc.rows)
  {
    var s := TallScan(d, cell, after, parent);
    var o := PlaceNewCell(WithNewCell(d), d.next, s);
    TallMarksFacts(d, cell);
    if o.Done? {
      NoRemoval(o.doc, TallMarks(d, cell));
    }
  }

  /**
   * splitHorizontal, corrected to start every cell's scan afresh, on a cell at least two rows
   * high: it raises exactly when no anchor is found and the cell's last row lies past the end
   * of the table; otherwise the new cell goes into one of the rows the cell covers, below its
   * first.
   */
  lemma CorrectedTallPlacement(d: Doc, cell: CellId)
    requires Closed(d) && InTree(d.rows, cell) && RowSpanOf(d.cells, cell) >= 2 && DistinctPlacements(Placements(d.rows))
    ensures var co := Coordinate(d.rows, d.cells, cell, false);
            var cb := AnchorFor(d, cell, co);
            var rs := RowSpanOf(d.cells, cell);
            var r := SplitTall(d, cell, None, None);
            (r.out.Done? <==> (exists n :: AnchorAt(Placements(d.rows), cb, d.rows, d.cells, n)) || co.row + rs - 1 < |d.rows|) &&
            (r.out.Done? ==> exists q :: co.row < q < co.row + rs && PutInto(d.rows, r.out.doc.rows, q, d.next))
  {
    var co := Coordinate(d.rows, d.cells, cell, false);
    var rs := RowSpanOf(d.cells, cell);
    var s := TallScan(d, cell, None, None);
    assert cell in d.cells;
    FreshTallScan(d, cell);
    SplitTallRows(d, cell, None, None);
    var d1 := WithNewCell(d);
    PlaceNewCellRows(d1, d.next, s);
    var o := PlaceNewCell(d1, d.next, s);
    if o.Done? {
      var q := if s.after.Some? then Parent(d.rows, s.after.value).value else co.row + rs - 1;
      assert PutInto(d.rows, o.doc.rows, q, d.next);
    }
  }

  /**
   * splitHorizontal as written, on a cell at least two rows high for which the scan finds no
   * anchor, while an earlier cell left `after` set to a cell `a` of the table: the new cell
   * goes right after `a`, in `a`'s row, whichever rows the cell being split covers.
   */
  lemma StaleAnchor(d: Doc, cell: CellId, a: CellId, parent: Option<int>)
    requires Closed(d) && InTree(d.rows, cell) && RowSpanOf(d.cells, cell) >= 2 && InTree(d.rows, a)
    requires forall n :: !AnchorAt(Placements(d.rows), AnchorFor(d, cell, Coordinate(d.rows, d.cells, cell, false)), d.rows, d.cells, n)
    ensures var r := SplitTall(d, cell, Some(a), parent);
            Parent(d.rows, a).Some? && r.out.Done? && r.after == Some(a) &&
            var q := Parent(d.rows, a).value;
            r.out.doc.rows == d.rows[q := InsertAfter(d.rows[q], a, d.next)]
  {
    var co := Coordinate(d.rows, d.cells, cell, false);
    var s := TallScan(d, cell, Some(a), parent);
    assert cell in d.cells;
    WalkAfter(Placements(d.rows), AnchorFor(d, cell, co), d.rows, d.cells, Scan(map[], Some(a), parent));
    SplitTallRows(d, cell, Some(a), parent);
    PlaceNewCellRows(WithNewCell(d), d.next, s);
  }

  /**
   * One split of `cell` took `d` to `e`: the table stays closed, one cell is made, every cell
   * of the tree stays in it, and no cell gains the selection marker while `cell` loses it.
   */
  ghost predicate Grew(d: Doc, e: Doc, cell: CellId)
  {
    Closed(e) && e.next == d.next + 1 && e.cells.Keys == d.cells.Keys + {d.next} &&
    (forall y :: InTree(d.rows, y) ==> InTree(e.rows, y)) &&
    (forall c :: c in e.cells && e.cells[c].selected ==> c in d.cells && d.cells[c].selected && c != cell)
  }

  /** After `__unmark` and `restoreSelection(cell)` the cells selected are those selected before, but `cell`. */
  lemma FinishSelection(d: Doc, marks: map<CellId, Pending>, cell: CellId)
    ensures var e := Finish(d, marks, cell);
            e.cells.Keys == d.cells.Keys && e.next == d.next &&
            forall c :: c in e.cells ==> (e.cells[c].selected <==> c != cell && d.cells[c].selected)
  {
  }

  lemma VerticalGrew(d: Doc, cell: CellId)
    requires Closed(d) && InTree(d.rows, cell)
    ensures SplitVerticalCell(d, cell).Done? && Grew(d, SplitVerticalCell(d, cell).doc, cell)
  {
    VerticalFinish(d, cell);
    SplitVerticalTree(d, cell);
    FinishSelection(VerticalTree(d, cell), VerticalMarks(d, cell), cell);
    var e := SplitVerticalCell(d, cell).doc;
    var p := Parent(d.rows, cell).value;
    assert PutInto(d.rows, e.rows, p, d.next);
    PutKeeps(d.rows, e.rows, p, d.next);
  }

  lemma ShortGrew(d: Doc, cell: CellId)
    requires Closed(d) && InTree(d.rows, cell)
    ensures SplitShort(d, cell).Done? && Grew(d, SplitShort(d, cell).doc, cell)
  {
    ShortFinish(d, cell);
    SplitShortTree(d, cell);
    FinishSelection(ShortTree(d, cell), ShortMarks(d, cell), cell);
    InsertKeeps(d.rows, Parent(d.rows, cell).value, [d.next]);
  }

  lemma InsertKeeps(rows: seq<seq<CellId>>, p: nat, row: seq<CellId>)
    requires p < |rows|
    ensures forall y :: InTree(rows, y) ==> InTree(rows[..p + 1] + [row] + rows[p + 1..], y)
  {
    var r := rows[..p + 1] + [row] + rows[p + 1..];
    RowInserted(rows, p, row);
    forall y | InTree(rows, y)
      ensures InTree(r, y)
    {
      var i :| 0 <= i < |rows| && y in rows[i];
      if i <= p {
        assert y in r[i];
      } else {
        assert y in r[i + 1];
      }
    }
  }

  lemma PutKeeps(rows: seq<seq<CellId>>, rows': seq<seq<CellId>>, q: int, td: CellId)
    requires PutInto(rows, rows', q, td)
    ensures forall y :: InTree(rows, y) ==> InTree(rows', y)
  {
    forall y | InTree(rows, y)
      ensures InTree(rows', y)
    {
      var i :| 0 <= i < |rows| && y in rows[i];
      assert y in rows'[i];
    }
  }

  lemma TallFinish(d: Doc, cell: CellId, after: Option<CellId>, parent: Option<int>)
    ensures var o := PlaceNewCell(WithNewCell(d), d.next, TallScan(d, cell, after, parent));
            SplitTall(d, cell, after, parent).out == if o.Done? then Done(Finish(o.doc, TallMarks(d, cell), cell)) else o
  {
  }

  /** PlaceNewCell keeps a closed table closed, and a cell of the tree in the tree. */
  lemma PlaceClosed(d1: Doc, td: CellId, s: Scan)
    requires Closed(d1) && td in d1.cells
    ensures var o := PlaceNewCell(d1, td, s);
            Closed(o.doc) && o.doc.cells == d1.cells && o.doc.next == d1.next &&
            forall y :: InTree(d1.rows, y) ==> InTree(o.doc.rows, y)
  {
    var o := PlaceNewCell(d1, td, s);
    PlaceNewCellFacts(d1, td, s);
    if o.Done? {
      var q :| PutInto(d1.rows, o.doc.rows, q, td);
      PutKeeps(d1.rows, o.doc.rows, q, td);
    }
  }

  lemma TallGrew(d: Doc, cell: CellId, after: Option<CellId>, parent: Option<int>)
    requires Closed(d) && InTree(d.rows, cell) && RowSpanOf(d.cells, cell) >= 2
    ensures var r := SplitTall(d, cell, after, parent);
            Closed(r.out.doc) && (r.out.Done? ==> Grew(d, r.out.doc, cell))
  {
    assert cell in d.cells;
    var s := TallScan(d, cell, after, parent);
    var d1 := WithNewCell(d);
    TallFinish(d, cell, after, parent);
    PlaceClosed(d1, d.next, s);
    var o := PlaceNewCell(d1, d.next, s);
    if o.Done? {
      TallMarksFacts(d, cell);
      FinishClosed(o.doc, TallMarks(d, cell), cell);
      FinishSelection(o.doc, TallMarks(d, cell), cell);
    }
  }

  /** One split of splitHorizontal keeps the table closed, and when it does not raise it is a `Grew` step. */
  lemma HorizontalGrew(d: Doc, cell: CellId, after: Option<CellId>, parent: Option<int>)
    requires Closed(d) && InTree(d.rows, cell)
    ensures var r := SplitHorizontalCell(d, cell, after, parent);
            Closed(r.out.doc) && (r.out.Done? ==> Grew(d, r.out.doc, cell))
  {
    if RowSpanOf(d.cells, cell) < 2 {
      ShortGrew(d, cell);
    } else {
      TallGrew(d, cell, after, parent);
    }
  }

  // ---------------------------------------------------------------------------------------
  // The operations

  /** splitVertical's loop over the selected cells from the `k`-th on, stopping at an exception. */
  function VerticalFrom(d: Doc, sel: seq<CellId>, k: nat): Outcome
    decreases |sel| - k
  {
    if k >= |sel| then Done(d)
    else match SplitVerticalCell(d, sel[k])
      case Thrown(e) => Thrown(e)
      case Done(e) => VerticalFrom(e, sel, k + 1)
  }

  /** splitVertical(table): the splits, then normalizeTable. */
  function SplitVertical(d: Doc): Outcome
  {
    match VerticalFrom(d, AllSelected(d), 0)
    case Thrown(e) => Thrown(e)
    case Done(e) => Normalize(e)
  }

  /**
   * splitHorizontal's loop from the `k`-th selected cell on, with the `after` and `parent` the
   * earlier cells left; `corrected` starts every cell's scan afresh instead.
   */
  function HorizontalFrom(d: Doc, sel: seq<CellId>, k: nat, after: Option<CellId>, parent: Option<int>, corrected: bool): Outcome
    decreases |sel| - k
  {
    if k >= |sel| then Done(d)
    else
      var r := if corrected then SplitHorizontalCell(d, sel[k], None, None) else SplitHorizontalCell(d, sel[k], after, parent);
      match r.out
      case Thrown(e) => Thrown(e)
      case Done(e) => HorizontalFrom(e, sel, k + 1, r.after, r.parent, corrected)
  }

  /** splitHorizontal(table): the splits, then normalizeTable. */
  function SplitHorizontal(d: Doc, corrected: bool): Outcome
  {
    match HorizontalFrom(d, AllSelected(d), 0, None, None, corrected)
    case Thrown(e) => Thrown(e)
    case Done(e) => Normalize(e)
  }

  // ---------------------------------------------------------------------------------------
  // What the operations promise

  /** The selection marker survives only on cells selected before and not split since. */
  ghost predicate SelectionLeft(d: Doc, e: Doc, sel: seq<CellId>, k: nat)
  {
    forall c :: c in e.cells && e.cells[c].selected ==>
      c in d.cells && d.cells[c].selected && forall j :: k <= j < |sel| ==> sel[j] != c
  }

  /** One split followed by the rest of the loop: the counts and the selection compose. */
  lemma SelectionChain(d: Doc, e: Doc, f: Doc, sel: seq<CellId>, k: nat)
    requires k < |sel| && Grew(d, e, sel[k])
    requires (forall j :: k < j < |sel| ==> InTree(d.rows, sel[j]))
    requires f.next == e.next + (|sel| - (k + 1)) && SelectionLeft(e, f, sel, k + 1)
    ensures f.next == d.next + (|sel| - k) && SelectionLeft(d, f, sel, k)
    ensures forall j :: k + 1 <= j < |sel| ==> InTree(e.rows, sel[j])
  {
  }

  /** splitVertical's loop, one step: the split of the `k`-th cell and the rest of the loop. */
  lemma VerticalFromStep(d: Doc, sel: seq<CellId>, k: nat)
    requires k < |sel|
    ensures var o := SplitVerticalCell(d, sel[k]);
            VerticalFrom(d, sel, k) == if o.Thrown? then o else VerticalFrom(o.doc, sel, k + 1)
  {
  }

  /** splitVertical's loop on cells of a closed table never raises and makes one cell per split. */
  lemma {:induction false} VerticalFromEffect(d: Doc, sel: seq<CellId>, k: nat)
    requires Closed(d) && k <= |sel| && forall j :: k <= j < |sel| ==> InTree(d.rows, sel[j])
    ensures var o := VerticalFrom(d, sel, k);
            o.Done? && Closed(o.doc) && o.doc.next == d.next + (|sel| - k) && SelectionLeft(d, o.doc, sel, k)
    decreases |sel| - k
  {
    if k < |sel| {
      VerticalGrew(d, sel[k]);
      var e := SplitVerticalCell(d, sel[k]).doc;
      assert forall j :: k + 1 <= j < |sel| ==> InTree(e.rows, sel[j]);
      VerticalFromEffect(e, sel, k + 1);
      SelectionChain(d, e, VerticalFrom(e, sel, k + 1).doc, sel, k);
    }
  }

  /** splitHorizontal's loop, one step: the split of the `k`-th cell and the rest of the loop. */
  lemma HorizontalFromStep(d: Doc, sel: seq<CellId>, k: nat, after: Option<CellId>, parent: Option<int>, corrected: bool)
    requires k < |sel|
    ensures var r := SplitHorizontalCell(d, sel[k], if corrected then None else after, if corrected then None else parent);
            HorizontalFrom(d, sel, k, after, parent, corrected) ==
              if r.out.Thrown? then r.out else HorizontalFrom(r.out.doc, sel, k + 1, r.after, r.parent, corrected)
  {
  }

  /** splitHorizontal's loop keeps a closed table closed and, when it does not raise, makes one cell per split. */
  lemma {:induction false} HorizontalFromEffect(d: Doc, sel: seq<CellId>, k: nat, after: Option<CellId>, parent: Option<int>, corrected: bool)
    requires Closed(d) && k <= |sel| && forall j :: k <= j < |sel| ==> InTree(d.rows, sel[j])
    ensures var o := HorizontalFrom(d, sel, k, after, parent, corrected);
            Closed(o.doc) &&
            (o.Done? ==> o.doc.next == d.next + (|sel| - k) && SelectionLeft(d, o.doc, sel, k))
    decreases |sel| - k, 1
  {
    if k < |sel| {
      var a := if corrected then None else after;
      var p := if corrected then None else parent;
      HorizontalFromStep(d, sel, k, after, parent, corrected);
      HorizontalGrew(d, sel[k], a, p);
      var r := SplitHorizontalCell(d, sel[k], a, p);
      if r.out.Done? {
        HorizontalFromRest(d, r.out.doc, sel, k, r.after, r.parent, corrected);
      }
    }
  }

  /** The rest of splitHorizontal's loop after a split of the `k`-th cell that did not raise. */
  lemma {:induction false} HorizontalFromRest(d: Doc, e: Doc, sel: seq<CellId>, k: nat, after: Option<CellId>, parent: Option<int>, corrected: bool)
    requires Closed(d) && k < |sel| && (forall j :: k <= j < |sel| ==> InTree(d.rows, sel[j])) && Grew(d, e, sel[k])
    ensures var o := HorizontalFrom(e, sel, k + 1, after, parent, corrected);
            Closed(o.doc) &&
            (o.Done? ==> o.doc.next == d.next + (|sel| - k) && SelectionLeft(d, o.doc, sel, k))
    decreases |sel| - k, 0
  {
    assert forall j :: k + 1 <= j < |sel| ==> InTree(e.rows, sel[j]);
    HorizontalFromEffect(e, sel, k + 1, after, parent, corrected);
    var o := HorizontalFrom(e, sel, k + 1, after, parent, corrected);
    if o.Done? {
      SelectionChain(d, e, o.doc, sel, k);
    }
  }

  /** splitVertical's loop over the selected cells of a closed table leaves it closed. */
  lemma VerticalFromClosed(d: Doc)
    requires Closed(d)
    ensures Closed(VerticalFrom(d, AllSelected(d), 0).doc)
  {
    AllSelectedInTree(d);
    VerticalFromEffect(d, AllSelected(d), 0);
  }

  /** splitHorizontal's loop over the selected cells of a closed table leaves it closed, even when it raises. */
  lemma HorizontalFromClosed(d: Doc, corrected: bool)
    requires Closed(d)
    ensures Closed(HorizontalFrom(d, AllSelected(d), 0, None, None, corrected).doc)
  {
    AllSelectedInTree(d);
    HorizontalFromEffect(d, AllSelected(d), 0, None, None, corrected);
  }

  /** Every cell getAllSelectedCells lists is in the table. */
  lemma AllSelectedInTree(d: Doc)
    ensures forall j :: 0 <= j < |AllSelected(d)| ==> InTree(d.rows, AllSelected(d)[j])
  {
    var sel := AllSelected(d);
    forall j | 0 <= j < |sel|
      ensures InTree(d.rows, sel[j])
    {
      assert sel[j] in sel;
    }
  }

  /**
   * normalizeTable keeps a table closed and every cell's selection marker, and raises exactly
   * when the table has a row formalMatrix leaves undefined.
   */
  lemma NormalizeSelection(e: Doc)
    requires Closed(e)
    ensures var n := Normalize(e);
            (n.Thrown? <==> Broken(FormalMatrix(e.rows, e.cells))) &&
            Closed(n.doc) && n.doc.next == e.next && n.doc.cells.Keys == e.cells.Keys &&
            forall c :: c in n.doc.cells ==> n.doc.cells[c].selected == e.cells[c].selected
  {
    NormalizeKeepsRows(e);
    forall c | c in e.cells
      ensures Normalize(e).doc.cells[c].selected == e.cells[c].selected
    {
      NormalizeCell(e, c);
    }
  }

  /**
   * splitVertical on a closed table: the splits never raise, make one new cell per selected
   * cell and leave no cell of the table selected (the marker survives only on cells that were
   * selected while out of the tree); the normalization that follows raises exactly when the
   * split table has a row formalMatrix leaves undefined.
   */
  lemma SplitVerticalEffect(d: Doc)
    requires Closed(d)
    ensures var e := VerticalFrom(d, AllSelected(d), 0);
            var o := SplitVertical(d);
            e.Done? && (o.Done? <==> !Broken(FormalMatrix(e.doc.rows, e.doc.cells))) &&
            Closed(o.doc) && o.doc.next == d.next + |AllSelected(d)| &&
            forall c :: c in o.doc.cells && o.doc.cells[c].selected ==> c in d.cells && d.cells[c].selected && !InTree(d.rows, c)
  {
    var sel := AllSelected(d);
    AllSelectedInTree(d);
    VerticalFromEffect(d, sel, 0);
    var e := VerticalFrom(d, sel, 0).doc;
    NormalizeSelection(e);
    forall c | c in e.cells && e.cells[c].selected
      ensures !InTree(d.rows, c)
    {
      assert c !in sel;
    }
  }

  /**
   * splitHorizontal (as written or corrected) keeps a closed table closed; when its splits do
   * not raise they make one new cell per selected cell and leave no cell of the table selected,
   * and the normalization that follows raises exactly when the split table has a row
   * formalMatrix leaves undefined.
   */
  lemma SplitHorizontalEffect(d: Doc, corrected: bool)
    requires Closed(d)
    ensures var e := HorizontalFrom(d, AllSelected(d), 0, None, None, corrected);
            var o := SplitHorizontal(d, corrected);
            Closed(o.doc) &&
            (e.Done? ==> (o.Done? <==> !Broken(FormalMatrix(e.doc.rows, e.doc.cells))) &&
                         o.doc.next == d.next + |AllSelected(d)| &&
                         forall c :: c in o.doc.cells && o.doc.cells[c].selected ==>
                                       c in d.cells && d.cells[c].selected && !InTree(d.rows, c)) &&
            (e.Thrown? ==> o == e)
  {
    var sel := AllSelected(d);
    AllSelectedInTree(d);
    HorizontalFromEffect(d, sel, 0, None, None, corrected);
    var o := HorizontalFrom(d, sel, 0, None, None, corrected);
    if o.Done? {
      var e := o.doc;
      NormalizeSelection(e);
      forall c | c in e.cells && e.cells[c].selected
        ensures !InTree(d.rows, c)
      {
        assert c !in sel;
      }
    }
  }
}

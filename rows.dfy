/**
 * Table.appendRow and Table.removeRow. appendRow builds a row of fresh plain cells, one per
 * formal column, and puts it next to a reference row or at the end. removeRow walks the slots
 * of the formal row it removes, editing the tree directly as it goes: a cell whose span comes
 * from the row above loses one row of span, a cell that starts in the removed row and goes on
 * below moves into the next row, and any other cell is removed; at the end the row goes.
 */
module RowOps {
  import opened Wrappers
  import opened Cells
  import opened Matrix
  import opened Dom

  // ---------------------------------------------------------------------------------------
  // appendRow

  /** The identities `from`, `from + 1`, ..., `from + n - 1`. */
  function Ids(from: nat, n: nat): seq<CellId>
  {
    seq(n, k requires 0 <= k < n => from + k)
  }

  /** `n` calls of `Dom.create('td', '')`, the first handing out identity `from`. */
  function Create(cells: map<CellId, Cell>, from: nat, n: nat): map<CellId, Cell>
    decreases n
  {
    if n == 0 then cells else Create(cells[from := NewCell("")], from + 1, n - 1)
  }

  /** The created records are plain and empty; the others are kept. */
  lemma {:induction false} CreateCells(cells: map<CellId, Cell>, from: nat, n: nat)
    ensures forall c :: c in Create(cells, from, n) <==> c in cells || from <= c < from + n
    ensures forall k :: from <= k < from + n ==> Create(cells, from, n)[k] == NewCell("")
    ensures forall c :: c in cells && !(from <= c < from + n) ==> Create(cells, from, n)[c] == cells[c]
    decreases n
  {
    if n > 0 {
      CreateCells(cells[from := NewCell("")], from + 1, n - 1);
    }
  }

  /**
   * Where the new row goes: right after `line` when inserting after a line that has a next
   * sibling, at the place of `line` when inserting before it, and otherwise at the end.
   */
  function RowPosition(count: nat, line: Option<nat>, after: bool): nat
  {
    if after && line.Some? && line.value + 1 < count then line.value + 1
    else if !after && line.Some? then line.value
    else count
  }

  /** appendRow(table, line, after), `line` given as the index of the reference row. */
  function AppendRow(d: Doc, line: Option<nat>, after: bool): Doc
    requires line.Some? ==> line.value < |d.rows|
  {
    var n := Width(FormalMatrix(d.rows, d.cells));
    var pos := RowPosition(|d.rows|, line, after);
    Doc(d.rows[..pos] + [Ids(d.next, n)] + d.rows[pos..], Create(d.cells, d.next, n), d.next + n)
  }

  /** The position follows the three branches of the source, and always lies in `0..count`. */
  lemma RowPositionCases(count: nat, line: Option<nat>, after: bool)
    requires line.Some? ==> line.value < count
    ensures RowPosition(count, line, after) <= count
    ensures line.None? ==> RowPosition(count, line, after) == count
    ensures line.Some? && after ==> RowPosition(count, line, after) == line.value + 1
    ensures line.Some? && !after ==> RowPosition(count, line, after) == line.value
  {
  }

  /**
   * appendRow adds exactly one row, at the position of RowPosition, made of one fresh plain
   * empty cell per formal column, and leaves every other row and every existing cell as it was.
   */
  lemma AppendRowShape(d: Doc, line: Option<nat>, after: bool)
    requires Closed(d) && (line.Some? ==> line.value < |d.rows|)
    ensures var r := AppendRow(d, line, after);
            var pos := RowPosition(|d.rows|, line, after);
            var n := Width(FormalMatrix(d.rows, d.cells));
            Closed(r) && |r.rows| == |d.rows| + 1 && pos <= |d.rows| &&
            r.rows[..pos] == d.rows[..pos] && r.rows[pos + 1..] == d.rows[pos..] &&
            |r.rows[pos]| == n && r.next == d.next + n &&
            (forall k :: 0 <= k < n ==> d.next <= r.rows[pos][k] < r.next && r.cells[r.rows[pos][k]] == NewCell("")) &&
            (forall a, b :: 0 <= a < b < n ==> r.rows[pos][a] != r.rows[pos][b]) &&
            (forall c :: c in d.cells ==> c in r.cells && r.cells[c] == d.cells[c])
  {
    var r := AppendRow(d, line, after);
    var pos := RowPosition(|d.rows|, line, after);
    var n := Width(FormalMatrix(d.rows, d.cells));
    CreateCells(d.cells, d.next, n);
    assert r.rows[pos] == Ids(d.next, n);
    assert r.rows[..pos] == d.rows[..pos];
    assert r.rows[pos + 1..] == d.rows[pos..];
    forall i | 0 <= i < |r.rows|
      ensures forall c :: c in r.rows[i] ==> c in r.cells
    {
      if i < pos {
        assert r.rows[i] == d.rows[i];
      } else if i > pos {
        assert r.rows[i] == d.rows[i - 1];
      }
    }
  }

  // ---------------------------------------------------------------------------------------
  // removeRow

  /** `while (box[i][n] === cell) n += 1`, from `from` on. */
  function RunEnd(box: Grid, i: int, from: nat, c: CellId): (n: nat)
    ensures from <= n && Get(box, i, n) != Some(c)
    ensures forall k :: from <= k < n ==> Get(box, i, k) == Some(c)
    decreases |RowAt(box, i)| - from
  {
    if Get(box, i, from) == Some(c) then RunEnd(box, i, from + 1, c) else from
  }

  /** `rowspan - 1` written back: set when above 1, removed otherwise. */
  function Trim(c: Cell): (t: Cell)
    ensures t == c.(rowspan := t.rowspan) && RowSpan(t) == if RowSpan(c) > 2 then RowSpan(c) - 1 else 1
  {
    c.(rowspan := SpanAttr(RowSpan(c) - 1))
  }

  /**
   * The rowspan decrement for the cell met at slot (r, j), done when the cell lives in the
   * removed row or the slot is the first of its run in that row.
   */
  function Shrink(d: Doc, box: Grid, r: nat, j: nat, c: CellId): (e: Doc)
    ensures e.rows == d.rows && e.next == d.next && e.cells.Keys == d.cells.Keys
  {
    if (Parent(d.rows, c) == Some(r) || Get(box, r, j - 1) != Some(c)) && c in d.cells then
      d.(cells := d.cells[c := Trim(d.cells[c])])
    else d
  }

  /**
   * The first cell, from slot (i, from) on, that is a child of `row` and is not `c`: the
   * reference the relocation evidently means. The source takes the cell of slot (i, from)
   * itself, which may live in a higher row.
   */
  function NextChild(box: Grid, i: int, from: nat, row: seq<CellId>, c: CellId): (r: Option<CellId>)
    ensures r.Some? ==> r.value in row && r.value != c
    decreases |RowAt(box, i)| - from
  {
    if from >= |RowAt(box, i)| then None
    else match Get(box, i, from)
      case Some(y) => if y in row && y != c then Some(y) else NextChild(box, i, from + 1, row, c)
      case None => NextChild(box, i, from + 1, row, c)
  }

  /**
   * The relocation of cell `c`, which lives in row `r` and goes on below slot (r, j): it moves
   * into row `r + 1`, before the cell of the first slot after its run in that row (with
   * `corrected`, before NextChild), or to the end of the row when there is no such cell.
   */
  function Relocate(box: Grid, r: nat, j: nat, d: Doc, c: CellId, corrected: bool): (o: Outcome)
    requires r + 1 < |d.rows|
    ensures |o.doc.rows| == |d.rows| && o.doc.next == d.next && o.doc.cells == d.cells
    ensures forall y :: InTree(o.doc.rows, y) ==> InTree(d.rows, y) || y == c
    ensures o.Thrown? ==> o.doc == d
    ensures o.Done? ==> forall k :: 0 <= k < |d.rows| && k != r + 1 ==> o.doc.rows[k] == Without(d.rows[k], c)
    ensures o.Done? ==> var row := o.doc.rows[r + 1]; forall y :: y in row <==> y in d.rows[r + 1] || y == c
  {
    var n := RunEnd(box, r + 1, j + 1, c);
    match if corrected then NextChild(box, r + 1, n, d.rows[r + 1], c) else Get(box, r + 1, n)
    case Some(ref) =>
      if ref in d.rows[r + 1] then Done(d.(rows := MoveBefore(d.rows, c, r + 1, ref))) else Thrown(d)
    case None => Done(d.(rows := MoveToEnd(d.rows, c, r + 1)))
  }

  /**
   * The callback of removeRow for slot (r, j) of the formal matrix `box`; with `corrected`
   * the relocated cell goes before NextChild instead of before the cell of the slot after its
   * run. Reading `box[r - 1][j]` of an undefined row, or the attributes of an empty slot,
   * raises a TypeError.
   */
  function RemoveRowSlot(box: Grid, r: nat, j: nat, d: Doc, corrected: bool): (o: Outcome)
    ensures |o.doc.rows| == |d.rows| && o.doc.next == d.next && o.doc.cells.Keys == d.cells.Keys
  {
    if r >= 1 && Undefined(box, r - 1) then Thrown(d)
    else match Get(box, r, j)
    case None => Thrown(d)
    case Some(c) =>
      if r >= 1 && Get(box, r - 1, j) == Some(c) then Done(Shrink(d, box, r, j, c))
      else if Get(box, r + 1, j) == Some(c) then
        if Parent(d.rows, c) == Some(r) && r + 1 < |d.rows| then
          match Relocate(box, r, j, d, c, corrected)
          case Thrown(e) => Thrown(e)
          case Done(e) => Done(Shrink(e, box, r, j, c))
        else Done(d)
      else Done(d.(rows := Detach(d.rows, c)))
  }

  /** The callbacks for the slots of formal row `r` from `j` on, stopping at an exception. */
  function RemoveRowSlots(box: Grid, r: nat, j: nat, d: Doc, corrected: bool): (o: Outcome)
    ensures |o.doc.rows| == |d.rows| && o.doc.next == d.next && o.doc.cells.Keys == d.cells.Keys
    decreases |RowAt(box, r)| - j
  {
    if j >= |RowAt(box, r)| then Done(d)
    else match RemoveRowSlot(box, r, j, d, corrected)
      case Thrown(e) => Thrown(e)
      case Done(e) => RemoveRowSlots(box, r, j + 1, e, corrected)
  }

  /** `row.parentNode.removeChild(row)` when row `r` exists. */
  function DropRow(d: Doc, r: nat): (e: Doc)
    ensures |e.rows| == if r < |d.rows| then |d.rows| - 1 else |d.rows|
  {
    if r < |d.rows| then d.(rows := d.rows[..r] + d.rows[r + 1..]) else d
  }

  /** removeRow(table, r) as written (`corrected` false) or with the evident fix. */
  function RemoveRowWith(d: Doc, r: nat, corrected: bool): (o: Outcome)
    ensures o.doc.next == d.next && o.doc.cells.Keys == d.cells.Keys
    ensures |o.doc.rows| == if o.Done? && r < |d.rows| then |d.rows| - 1 else |d.rows|
  {
    var box := FormalMatrix(d.rows, d.cells);
    match RemoveRowSlots(box, r, 0, d, corrected)
    case Thrown(e) => Thrown(e)
    case Done(e) => Done(DropRow(e, r))
  }

  /** removeRow(table, r). */
  function RemoveRow(d: Doc, r: nat): Outcome
  {
    RemoveRowWith(d, r, false)
  }

  /** removeRow with every relocated cell put before a cell of its new row. */
  function RemoveRowFixed(d: Doc, r: nat): Outcome
  {
    RemoveRowWith(d, r, true)
  }

  /** Only the rowspan changes, and it does not grow. */
  predicate RowSpanTrim(a: Cell, b: Cell)
  {
    b == a.(rowspan := b.rowspan) && RowSpan(b) <= RowSpan(a)
  }

  /** Taken over every record of `before`, and exact outside `touched`. */
  predicate RecordsTrimmed(before: map<CellId, Cell>, after: map<CellId, Cell>, touched: set<CellId>)
  {
    before.Keys == after.Keys &&
    forall c :: c in before ==> RowSpanTrim(before[c], after[c]) && (c !in touched ==> after[c] == before[c])
  }

  lemma ShrinkTrims(d: Doc, box: Grid, r: nat, j: nat, c: CellId)
    ensures RecordsTrimmed(d.cells, Shrink(d, box, r, j, c).cells, {c})
  {
  }

  /** One callback adds no cell to the tree. */
  lemma RemoveRowSlotTree(box: Grid, r: nat, j: nat, d: Doc, corrected: bool)
    ensures var o := RemoveRowSlot(box, r, j, d, corrected);
            forall y :: InTree(o.doc.rows, y) ==> InTree(d.rows, y)
  {
    var o := RemoveRowSlot(box, r, j, d, corrected);
    if Get(box, r, j).Some? {
      var c := Get(box, r, j).value;
      forall y | InTree(o.doc.rows, y)
        ensures InTree(d.rows, y)
      {
        var i :| 0 <= i < |o.doc.rows| && y in o.doc.rows[i];
        if o.doc.rows == Detach(d.rows, c) {
          assert y in d.rows[i];
        }
      }
    }
  }

  /** One callback trims at most the record of the slot's cell. */
  lemma RemoveRowSlotRecords(box: Grid, r: nat, j: nat, d: Doc, corrected: bool)
    ensures RecordsTrimmed(d.cells, RemoveRowSlot(box, r, j, d, corrected).doc.cells, SlotIds([Get(box, r, j)]))
  {
    var o := RemoveRowSlot(box, r, j, d, corrected);
    if r >= 1 && Undefined(box, r - 1) {
      assert o == Thrown(d);
    } else {
      match Get(box, r, j)
      case None =>
      case Some(c) =>
        assert SlotIds([Get(box, r, j)]) == {c};
        if r >= 1 && Get(box, r - 1, j) == Some(c) {
          assert o == Done(Shrink(d, box, r, j, c));
          ShrinkTrims(d, box, r, j, c);
        } else if Get(box, r + 1, j) == Some(c) && Parent(d.rows, c) == Some(r) && r + 1 < |d.rows| {
          var rel := Relocate(box, r, j, d, c, corrected);
          ShrinkTrims(rel.doc, box, r, j, c);
        }
    }
  }

  lemma TrimChain(a: map<CellId, Cell>, b: map<CellId, Cell>, c: map<CellId, Cell>, s: set<CellId>, t: set<CellId>)
    requires RecordsTrimmed(a, b, s) && RecordsTrimmed(b, c, t)
    ensures RecordsTrimmed(a, c, s + t)
  {
  }

  lemma {:induction false} RemoveRowSlotsEffect(box: Grid, r: nat, j: nat, d: Doc, corrected: bool)
    requires j <= |RowAt(box, r)|
    ensures var o := RemoveRowSlots(box, r, j, d, corrected);
            (forall y :: InTree(o.doc.rows, y) ==> InTree(d.rows, y)) &&
            RecordsTrimmed(d.cells, o.doc.cells, SlotIds(RowAt(box, r)[j..]))
    decreases |RowAt(box, r)| - j
  {
    var row := RowAt(box, r);
    if j == |row| {
      assert SlotIds(row[j..]) == {};
    } else {
      assert Get(box, r, j) == row[j];
      assert row[j..] == [row[j]] + row[j + 1..];
      assert SlotIds(row[j..]) == SlotIds([row[j]]) + SlotIds(row[j + 1..]);
      RemoveRowSlotTree(box, r, j, d, corrected);
      RemoveRowSlotRecords(box, r, j, d, corrected);
      match RemoveRowSlot(box, r, j, d, corrected)
      case Thrown(e) =>
      case Done(e) =>
        RemoveRowSlotsEffect(box, r, j + 1, e, corrected);
        TrimChain(d.cells, e.cells, RemoveRowSlots(box, r, j + 1, e, corrected).doc.cells,
                  SlotIds([row[j]]), SlotIds(row[j + 1..]));
    }
  }

  lemma DropRowTree(e: Doc, r: nat, y: CellId)
    requires InTree(DropRow(e, r).rows, y)
    ensures InTree(e.rows, y)
  {
    var i :| 0 <= i < |DropRow(e, r).rows| && y in DropRow(e, r).rows[i];
    if r < |e.rows| {
      assert DropRow(e, r).rows[i] == e.rows[if i < r then i else i + 1];
    }
  }

  /**
   * removeRow keeps the table closed: it adds no cell to the tree and creates no record. Every
   * record keeps everything but its rowspan, which never grows, and a cell met in no slot of
   * the removed formal row keeps its record unchanged.
   */
  lemma RemoveRowEffect(d: Doc, r: nat, corrected: bool)
    requires Closed(d)
    ensures var o := RemoveRowWith(d, r, corrected);
            Closed(o.doc) &&
            RecordsTrimmed(d.cells, o.doc.cells, SlotIds(RowAt(FormalMatrix(d.rows, d.cells), r)))
  {
    var box := FormalMatrix(d.rows, d.cells);
    RemoveRowSlotsEffect(box, r, 0, d, corrected);
    assert RowAt(box, r)[0..] == RowAt(box, r);
    var o := RemoveRowSlots(box, r, 0, d, corrected);
    var e := RemoveRowWith(d, r, corrected).doc;
    assert forall y :: InTree(e.rows, y) ==> InTree(d.rows, y) by {
      forall y | InTree(e.rows, y)
        ensures InTree(d.rows, y)
      {
        if o.Done? {
          DropRowTree(o.doc, r, y);
        }
      }
    }
    forall i, c | 0 <= i < |e.rows| && c in e.rows[i]
      ensures c in e.cells
    {
      assert InTree(e.rows, c);
    }
  }

  // ---------------------------------------------------------------------------------------
  // removeRow on a tiled table

  /** Cell `c` comes down into row `r` from a row above it. */
  predicate FromAbove(d: Doc, r: nat, c: CellId)
  {
    match Parent(d.rows, c)
    case None => false
    case Some(top) => top < r < top + RowSpanOf(d.cells, c)
  }

  /** removeRow moves `c` into the next row: `c` starts in row `r`, goes on below it, and a next row exists. */
  predicate Moves(d: Doc, r: nat, c: CellId)
  {
    r + 1 < |d.rows| && c in d.rows[r] && RowSpanOf(d.cells, c) > 1
  }

  /** removeRow takes one row of span off `c`: the `dec` flag of the source. */
  predicate Trimmed(d: Doc, r: nat, c: CellId)
  {
    FromAbove(d, r, c) || Moves(d, r, c)
  }

  /** A cell of row `r`, once met, is out of that row: it is removed, or it moves. */
  predicate Leaves(d: Doc, r: nat, c: CellId)
  {
    RowSpanOf(d.cells, c) == 1 || r + 1 < |d.rows|
  }

  /**
   * The table after removeRow's callbacks for the first `x` slots of formal row `r` of `m`:
   * the cells met so far are dealt with and the other cells are as they were.
   */
  ghost predicate Stage(d: Doc, m: Grid, r: nat, x: nat, e: Doc)
    requires x <= |RowAt(m, r)|
  {
    var seen := RowAt(m, r)[..x];
    StageRows(d, m, r, x, e) &&
    (forall c | c in d.cells :: e.cells[c] == if Some(c) in seen && Trimmed(d, r, c) then Trim(d.cells[c]) else d.cells[c])
  }

  /** The rows of a stage: the cells met so far have left row `r`, and the moving ones are in row `r + 1`. */
  ghost predicate StageRows(d: Doc, m: Grid, r: nat, x: nat, e: Doc)
    requires x <= |RowAt(m, r)|
  {
    var seen := RowAt(m, r)[..x];
    e.next == d.next && e.cells.Keys == d.cells.Keys && |e.rows| == |d.rows| &&
    (forall i | 0 <= i < |d.rows| && i != r && i != r + 1 :: e.rows[i] == d.rows[i]) &&
    (r < |d.rows| ==> var row := e.rows[r]; forall y :: y in row <==> y in d.rows[r] && !(Some(y) in seen && Leaves(d, r, y))) &&
    (r + 1 < |d.rows| ==> var row := e.rows[r + 1]; forall y :: y in row <==> y in d.rows[r + 1] || (Some(y) in seen && Moves(d, r, y)))
  }

  /**
   * What a tiled table's formal matrix says about the cell `c` of slot (r, x): the row `top`
   * its rectangle starts in is its only row, and the slots above and below hold it exactly
   * when the rectangle reaches them.
   */
  ghost predicate SlotCell(d: Doc, m: Grid, r: nat, x: nat, c: CellId, top: nat)
  {
    c in d.cells && top < |d.rows| && Parent(d.rows, c) == Some(top) &&
    (forall i :: 0 <= i < |d.rows| ==> (c in d.rows[i] <==> i == top)) &&
    top <= r < top + RowSpanOf(d.cells, c) &&
    ((r >= 1 && Get(m, r - 1, x) == Some(c)) <==> top < r) &&
    (Get(m, r + 1, x) == Some(c) <==> r + 1 < top + RowSpanOf(d.cells, c))
  }

  /** The facts of SlotCell, and the slot to the left holds the cell exactly when an earlier slot does. */
  lemma SlotFacts(d: Doc, r: nat, x: nat) returns (top: nat)
    requires Closed(d) && Tiled(d.rows, d.cells) && Get(FormalMatrix(d.rows, d.cells), r, x).Some?
    ensures var m := FormalMatrix(d.rows, d.cells);
            var c := Get(m, r, x).value;
            SlotCell(d, m, r, x, c, top) &&
            (Get(m, r, x - 1) == Some(c) <==> Some(c) in RowAt(m, r)[..x])
  {
    var m := FormalMatrix(d.rows, d.cells);
    var c := Get(m, r, x).value;
    TiledCell(d.rows, d.cells, r, x);
    var ps := Placements(d.rows);
    var p := Home(d.rows, c);
    top := ps[p].row;
    PlacementsInRows(d.rows, p);
    assert Covers(ps, d.cells, p, r, x);
    assert Get(m, r - 1, x) == Some(c) <==> Covers(ps, d.cells, p, r - 1, x);
    assert Get(m, r + 1, x) == Some(c) <==> Covers(ps, d.cells, p, r + 1, x);
    assert Get(m, r, x - 1) == Some(c) <==> Covers(ps, d.cells, p, r, x - 1);
    var seen := RowAt(m, r)[..x];
    if Some(c) in seen {
      var z :| 0 <= z < x && seen[z] == Some(c);
      assert Get(m, r, z) == Some(c);
      assert Covers(ps, d.cells, p, r, z);
    }
    if Covers(ps, d.cells, p, r, x - 1) {
      assert seen[x - 1] == Get(m, r, x - 1);
    }
  }

  /**
   * `e2` is `e` with the cell `c` dealt with: it is out of row `r` when it leaves, in row
   * `r + 1` when it moves, and trimmed when removeRow trims it; nothing else changes.
   */
  ghost predicate StepTo(d: Doc, r: nat, e: Doc, e2: Doc, c: CellId)
  {
    e2.next == e.next && e2.cells.Keys == e.cells.Keys && e.cells.Keys == d.cells.Keys &&
    |e2.rows| == |e.rows| && |e.rows| == |d.rows| &&
    (forall i | 0 <= i < |d.rows| && i != r && i != r + 1 :: e2.rows[i] == e.rows[i]) &&
    (r < |d.rows| ==> var row, row2 := e.rows[r], e2.rows[r]; forall y :: y != c ==> (y in row2 <==> y in row)) &&
    (r < |d.rows| ==> (c in e2.rows[r] <==> c in d.rows[r] && !Leaves(d, r, c))) &&
    (r + 1 < |d.rows| ==> var row, row2 := e.rows[r + 1], e2.rows[r + 1]; forall y :: y != c ==> (y in row2 <==> y in row)) &&
    (r + 1 < |d.rows| ==> (c in e2.rows[r + 1] <==> c in d.rows[r + 1] || Moves(d, r, c))) &&
    (forall y | y in e.cells && y != c :: e2.cells[y] == e.cells[y]) &&
    (c in d.cells ==> e2.cells[c] == if Trimmed(d, r, c) then Trim(d.cells[c]) else d.cells[c])
  }

  /** Dealing with the cell of the next slot, met for the first time, reaches the next stage. */
  lemma StageStep(d: Doc, m: Grid, r: nat, x: nat, e: Doc, e2: Doc, c: CellId)
    requires x < |RowAt(m, r)| && Stage(d, m, r, x, e) && RowAt(m, r)[x] == Some(c) && Some(c) !in RowAt(m, r)[..x]
    requires StepTo(d, r, e, e2, c)
    ensures Stage(d, m, r, x + 1, e2)
  {
    var seen := RowAt(m, r)[..x];
    var seen' := RowAt(m, r)[..x + 1];
    assert seen' == seen + [Some(c)];
    assert forall y :: Some(y) in seen' <==> Some(y) in seen || y == c;
  }

  /** A slot whose cell was met before: the stage does not change. */
  lemma StageAgain(d: Doc, m: Grid, r: nat, x: nat, e: Doc)
    requires x < |RowAt(m, r)| && Stage(d, m, r, x, e) && RowAt(m, r)[x] in RowAt(m, r)[..x]
    ensures Stage(d, m, r, x + 1, e)
  {
    var seen := RowAt(m, r)[..x];
    var seen' := RowAt(m, r)[..x + 1];
    assert seen' == seen + [RowAt(m, r)[x]];
    assert forall y :: Some(y) in seen' <==> Some(y) in seen;
  }

  /** A slot whose cell was met at an earlier slot of the row leaves the table as it is. */
  lemma SlotAgain(d: Doc, m: Grid, r: nat, x: nat, e: Doc, corrected: bool, c: CellId, top: nat)
    requires x < |RowAt(m, r)| && Stage(d, m, r, x, e) && Get(m, r, x) == Some(c) && Some(c) in RowAt(m, r)[..x]
    requires SlotCell(d, m, r, x, c, top) && Get(m, r, x - 1) == Some(c)
    ensures var o := RemoveRowSlot(m, r, x, e, corrected);
            o.Done? ==> o.doc == e
  {
    if top < r {
      assert c in e.rows[top];
      SlotAgainAbove(m, r, x, e, corrected, c, top);
    } else if RowSpanOf(d.cells, c) == 1 {
      OneRowGone(d, m, r, x, e, c);
      SlotAgainGone(m, r, x, e, corrected, c);
    } else {
      if r + 1 < |d.rows| {
        assert c !in e.rows[r];
      }
      SlotAgainKept(m, r, x, e, corrected, c);
    }
  }

  /** A cell of row `r` one row high, once met, is in no row. */
  lemma OneRowGone(d: Doc, m: Grid, r: nat, x: nat, e: Doc, c: CellId)
    requires x <= |RowAt(m, r)| && StageRows(d, m, r, x, e) && Some(c) in RowAt(m, r)[..x]
    requires c in d.cells && RowSpanOf(d.cells, c) == 1 && forall i :: 0 <= i < |d.rows| ==> (c in d.rows[i] <==> i == r)
    ensures forall i :: 0 <= i < |e.rows| ==> c !in e.rows[i]
  {
    forall i | 0 <= i < |e.rows|
      ensures c !in e.rows[i]
    {
      if i == r {
        assert Leaves(d, r, c);
      } else if i == r + 1 {
        assert !Moves(d, r, c) && c !in d.rows[r + 1];
      } else {
        assert e.rows[i] == d.rows[i];
      }
    }
  }

  /** The later slot of a cell one row high: the cell is out of the tree already. */
  lemma SlotAgainGone(m: Grid, r: nat, x: nat, e: Doc, corrected: bool, c: CellId)
    requires Get(m, r, x) == Some(c) && !(r >= 1 && Get(m, r - 1, x) == Some(c)) && Get(m, r + 1, x) != Some(c)
    requires forall i :: 0 <= i < |e.rows| ==> c !in e.rows[i]
    ensures var o := RemoveRowSlot(m, r, x, e, corrected);
            o.Done? ==> o.doc == e
  {
    DetachAbsent(e.rows, c);
  }

  /** The later slot of a taller cell of row `r`: the cell has moved down or stays in the last row. */
  lemma SlotAgainKept(m: Grid, r: nat, x: nat, e: Doc, corrected: bool, c: CellId)
    requires Get(m, r, x) == Some(c) && !(r >= 1 && Get(m, r - 1, x) == Some(c)) && Get(m, r + 1, x) == Some(c)
    requires r + 1 < |e.rows| ==> r < |e.rows| && c !in e.rows[r]
    ensures var o := RemoveRowSlot(m, r, x, e, corrected);
            o.Done? ==> o.doc == e
  {
  }

  /** The later slot of a cell from a higher row: the rowspan was trimmed at its first slot. */
  lemma SlotAgainAbove(m: Grid, r: nat, x: nat, e: Doc, corrected: bool, c: CellId, top: nat)
    requires top < r && top < |e.rows| && c in e.rows[top]
    requires Get(m, r, x) == Some(c) && Get(m, r - 1, x) == Some(c) && Get(m, r, x - 1) == Some(c)
    ensures RemoveRowSlot(m, r, x, e, corrected) == Done(e)
  {
    assert Parent(e.rows, c) != Some(r);
  }

  /** The first slot of a cell coming down from above: its rowspan is trimmed. */
  lemma FirstAbove(d: Doc, m: Grid, r: nat, x: nat, e: Doc, corrected: bool, c: CellId, top: nat)
    requires x < |RowAt(m, r)| && Stage(d, m, r, x, e) && Get(m, r, x) == Some(c) && Some(c) !in RowAt(m, r)[..x]
    requires SlotCell(d, m, r, x, c, top) && Get(m, r, x - 1) != Some(c) && top < r
    ensures var o := RemoveRowSlot(m, r, x, e, corrected);
            o.Done? ==> StepTo(d, r, e, o.doc, c)
  {
    assert c in e.rows[top];
    assert e.cells[c] == d.cells[c];
    assert Trimmed(d, r, c);
    SlotAbove(m, r, x, e, corrected, c);
    TrimStep(d, r, e, c);
  }

  /** Trimming a cell of a higher row, with the rows left as they are, is one step. */
  lemma TrimStep(d: Doc, r: nat, e: Doc, c: CellId)
    requires |e.rows| == |d.rows| && e.cells.Keys == d.cells.Keys && c in d.cells && e.cells[c] == d.cells[c]
    requires FromAbove(d, r, c) && !Moves(d, r, c)
    requires r < |d.rows| ==> c !in d.rows[r] && c !in e.rows[r]
    requires r + 1 < |d.rows| ==> c !in d.rows[r + 1] && c !in e.rows[r + 1]
    ensures StepTo(d, r, e, e.(cells := e.cells[c := Trim(e.cells[c])]), c)
  {
  }

  /** The first slot of a cell from a higher row trims its rowspan and leaves the rows. */
  lemma SlotAbove(m: Grid, r: nat, x: nat, e: Doc, corrected: bool, c: CellId)
    requires r >= 1 && Get(m, r, x) == Some(c) && Get(m, r - 1, x) == Some(c) && Get(m, r, x - 1) != Some(c) && c in e.cells
    ensures RemoveRowSlot(m, r, x, e, corrected) == Done(e.(cells := e.cells[c := Trim(e.cells[c])]))
  {
  }

  /** The relocation of a moving cell, followed by its trim, is one step. */
  lemma MovedStep(d: Doc, r: nat, e: Doc, e1: Doc, c: CellId)
    requires r + 1 < |d.rows| && |e.rows| == |d.rows| && e.cells.Keys == d.cells.Keys && c in d.cells
    requires Moves(d, r, c) && e.cells[c] == d.cells[c] && c in e.rows[r]
    requires |e1.rows| == |e.rows| && e1.next == e.next && e1.cells == e.cells
    requires forall k :: 0 <= k < |e.rows| && k != r + 1 ==> e1.rows[k] == Without(e.rows[k], c)
    requires forall k :: 0 <= k < |e.rows| && k != r && k != r + 1 ==> c !in e.rows[k]
    requires var row := e1.rows[r + 1]; forall y :: y in row <==> y in e.rows[r + 1] || y == c
    ensures StepTo(d, r, e, e1.(cells := e.cells[c := Trim(e.cells[c])]), c)
  {
    var e2 := e1.(cells := e.cells[c := Trim(e.cells[c])]);
    forall k | 0 <= k < |d.rows| && k != r && k != r + 1
      ensures e2.rows[k] == e.rows[k]
    {
      assert c !in e.rows[k];
    }
    assert Trimmed(d, r, c);
  }

  /** The callback for the first slot of a cell that goes on below relocates it, then trims it. */
  lemma MoveSlot(m: Grid, r: nat, x: nat, e: Doc, corrected: bool, c: CellId)
    requires !(r >= 1 && Undefined(m, r - 1)) && Get(m, r, x) == Some(c) && !(r >= 1 && Get(m, r - 1, x) == Some(c))
    requires Get(m, r + 1, x) == Some(c) && Parent(e.rows, c) == Some(r) && r + 1 < |e.rows|
    ensures var rel := Relocate(m, r, x, e, c, corrected);
            RemoveRowSlot(m, r, x, e, corrected) == if rel.Done? then Done(Shrink(rel.doc, m, r, x, c)) else rel
  {
  }

  /** The first slot of a cell of row `r` that goes on below into a next row: it moves, trimmed. */
  lemma FirstMoves(d: Doc, m: Grid, r: nat, x: nat, e: Doc, corrected: bool, c: CellId, top: nat)
    requires x < |RowAt(m, r)| && Stage(d, m, r, x, e) && Get(m, r, x) == Some(c) && Some(c) !in RowAt(m, r)[..x]
    requires SlotCell(d, m, r, x, c, top) && Get(m, r, x - 1) != Some(c) && top == r && Moves(d, r, c)
    ensures var o := RemoveRowSlot(m, r, x, e, corrected);
            o.Done? ==> StepTo(d, r, e, o.doc, c)
  {
    assert c in e.rows[r];
    assert e.cells[c] == d.cells[c];
    assert forall k :: 0 <= k < |e.rows| && k != r && k != r + 1 ==> c !in e.rows[k];
    assert forall k :: 0 <= k < r ==> c !in e.rows[k];
    assert Parent(e.rows, c) == Some(r);
    if !(r >= 1 && Undefined(m, r - 1)) {
      MoveSlot(m, r, x, e, corrected, c);
      var rel := Relocate(m, r, x, e, c, corrected);
      if rel.Done? {
        var e1 := rel.doc;
        assert Shrink(e1, m, r, x, c) == e1.(cells := e.cells[c := Trim(e.cells[c])]);
        MovedStep(d, r, e, e1, c);
      }
    }
  }

  /** The first slot of a cell of row `r` that goes on below the last row: nothing is done. */
  lemma FirstStays(d: Doc, m: Grid, r: nat, x: nat, e: Doc, corrected: bool, c: CellId, top: nat)
    requires x < |RowAt(m, r)| && Stage(d, m, r, x, e) && Get(m, r, x) == Some(c) && Some(c) !in RowAt(m, r)[..x]
    requires SlotCell(d, m, r, x, c, top) && top == r && RowSpanOf(d.cells, c) > 1 && r + 1 >= |d.rows|
    ensures var o := RemoveRowSlot(m, r, x, e, corrected);
            o.Done? ==> StepTo(d, r, e, o.doc, c)
  {
    assert c in e.rows[r];
    assert e.cells[c] == d.cells[c];
  }

  /** The first slot of a cell one row high: it is removed from the tree. */
  lemma FirstEnds(d: Doc, m: Grid, r: nat, x: nat, e: Doc, corrected: bool, c: CellId, top: nat)
    requires x < |RowAt(m, r)| && Stage(d, m, r, x, e) && Get(m, r, x) == Some(c) && Some(c) !in RowAt(m, r)[..x]
    requires SlotCell(d, m, r, x, c, top) && top == r && RowSpanOf(d.cells, c) == 1
    ensures var o := RemoveRowSlot(m, r, x, e, corrected);
            o.Done? ==> StepTo(d, r, e, o.doc, c)
  {
    assert e.cells[c] == d.cells[c];
    OtherRowsFree(d, m, r, x, e, c);
    SlotEnds(m, r, x, e, corrected, c);
    DetachStep(d, r, e, c);
  }

  /** Before its first slot, a cell of row `r` one row high is in no other row. */
  lemma OtherRowsFree(d: Doc, m: Grid, r: nat, x: nat, e: Doc, c: CellId)
    requires x <= |RowAt(m, r)| && StageRows(d, m, r, x, e) && Some(c) !in RowAt(m, r)[..x]
    requires c in d.cells && RowSpanOf(d.cells, c) == 1 && forall i :: 0 <= i < |d.rows| ==> (c in d.rows[i] <==> i == r)
    ensures forall k :: 0 <= k < |e.rows| && k != r ==> c !in e.rows[k]
  {
    assert !Moves(d, r, c);
    if r + 1 < |d.rows| {
      assert c !in d.rows[r + 1];
      var row := e.rows[r + 1];
      assert c !in row;
    }
  }

  /** The first slot of a cell that neither comes from above nor goes on below detaches it. */
  lemma SlotEnds(m: Grid, r: nat, x: nat, e: Doc, corrected: bool, c: CellId)
    requires Get(m, r, x) == Some(c) && !(r >= 1 && Get(m, r - 1, x) == Some(c)) && Get(m, r + 1, x) != Some(c)
    ensures var o := RemoveRowSlot(m, r, x, e, corrected);
            o.Done? ==> o.doc == e.(rows := Detach(e.rows, c))
  {
  }

  /** Detaching a cell of row `r` one row high, found in no other row, is one step. */
  lemma DetachStep(d: Doc, r: nat, e: Doc, c: CellId)
    requires |e.rows| == |d.rows| && e.cells.Keys == d.cells.Keys && c in d.cells && e.cells[c] == d.cells[c]
    requires Leaves(d, r, c) && !Trimmed(d, r, c)
    requires forall k :: 0 <= k < |e.rows| && k != r ==> c !in e.rows[k]
    requires r + 1 < |d.rows| ==> c !in d.rows[r + 1]
    ensures StepTo(d, r, e, e.(rows := Detach(e.rows, c)), c)
  {
  }

  /** One callback of removeRow on a tiled table takes the table from a stage to the next. */
  lemma SlotStage(d: Doc, r: nat, x: nat, e: Doc, corrected: bool)
    requires Closed(d) && Tiled(d.rows, d.cells)
    requires x < |RowAt(FormalMatrix(d.rows, d.cells), r)| && Stage(d, FormalMatrix(d.rows, d.cells), r, x, e)
    ensures var m := FormalMatrix(d.rows, d.cells);
            var o := RemoveRowSlot(m, r, x, e, corrected);
            o.Done? ==> Stage(d, m, r, x + 1, o.doc)
  {
    var m := FormalMatrix(d.rows, d.cells);
    if Get(m, r, x).Some? {
      var c := Get(m, r, x).value;
      var top := SlotFacts(d, r, x);
      var o := RemoveRowSlot(m, r, x, e, corrected);
      if Some(c) in RowAt(m, r)[..x] {
        SlotAgain(d, m, r, x, e, corrected, c, top);
        StageAgain(d, m, r, x, e);
      } else {
        if top < r {
          FirstAbove(d, m, r, x, e, corrected, c, top);
        } else if RowSpanOf(d.cells, c) == 1 {
          FirstEnds(d, m, r, x, e, corrected, c, top);
        } else if r + 1 < |d.rows| {
          FirstMoves(d, m, r, x, e, corrected, c, top);
        } else {
          FirstStays(d, m, r, x, e, corrected, c, top);
        }
        if o.Done? {
          StageStep(d, m, r, x, e, o.doc, c);
        }
      }
    }
  }

  /** Before the first callback nothing has happened. */
  lemma StageStart(d: Doc, m: Grid, r: nat)
    ensures Stage(d, m, r, 0, d)
  {
  }

  /** The callbacks for a whole formal row, run to completion, reach its last stage. */
  lemma {:induction false} SlotsStage(d: Doc, r: nat, x: nat, e: Doc, corrected: bool)
    requires Closed(d) && Tiled(d.rows, d.cells)
    requires x <= |RowAt(FormalMatrix(d.rows, d.cells), r)| && Stage(d, FormalMatrix(d.rows, d.cells), r, x, e)
    ensures var m := FormalMatrix(d.rows, d.cells);
            var o := RemoveRowSlots(m, r, x, e, corrected);
            o.Done? ==> Stage(d, m, r, |RowAt(m, r)|, o.doc)
    decreases |RowAt(FormalMatrix(d.rows, d.cells), r)| - x
  {
    var m := FormalMatrix(d.rows, d.cells);
    if x < |RowAt(m, r)| {
      SlotStage(d, r, x, e, corrected);
      var o1 := RemoveRowSlot(m, r, x, e, corrected);
      if o1.Done? {
        SlotsStage(d, r, x + 1, o1.doc, corrected);
      }
    }
  }

  /**
   * In a tiled table every cell of row `r`, and every cell reaching row `r` from above, holds
   * a slot of formal row `r`: removeRow's callbacks meet it.
   */
  lemma CrossingMet(d: Doc, r: nat, c: CellId)
    requires Closed(d) && Tiled(d.rows, d.cells)
    requires (r < |d.rows| && c in d.rows[r]) || FromAbove(d, r, c)
    ensures Some(c) in RowAt(FormalMatrix(d.rows, d.cells), r)
  {
    var m := FormalMatrix(d.rows, d.cells);
    var top: nat := if r < |d.rows| && c in d.rows[r] then r else Parent(d.rows, c).value;
    assert c in d.rows[top];
    TiledRows(d.rows, d.cells, c);
    var ps := Placements(d.rows);
    var p := Home(d.rows, c);
    assert ps[p].row == top;
    var x := Cols(ps, d.cells)[p];
    assert Covers(ps, d.cells, p, r, x);
    TiledSlot(d.rows, d.cells, p, r, x);
    assert RowAt(m, r)[x] == Some(c);
  }

  /** The cells of the table once every callback for row `r` has run. */
  lemma LastStageCells(d: Doc, r: nat, e: Doc)
    requires Closed(d) && Tiled(d.rows, d.cells)
    requires Stage(d, FormalMatrix(d.rows, d.cells), r, |RowAt(FormalMatrix(d.rows, d.cells), r)|, e)
    ensures forall c | c in d.cells :: e.cells[c] == if Trimmed(d, r, c) then Trim(d.cells[c]) else d.cells[c]
  {
    var m := FormalMatrix(d.rows, d.cells);
    assert RowAt(m, r)[..|RowAt(m, r)|] == RowAt(m, r);
    forall c | c in d.cells && Trimmed(d, r, c)
      ensures Some(c) in RowAt(m, r)
    {
      CrossingMet(d, r, c);
    }
  }

  /** The rows of the table once every callback for row `r` has run, row `r` not yet dropped. */
  lemma LastStageRows(d: Doc, r: nat, e: Doc)
    requires Closed(d) && Tiled(d.rows, d.cells) && r < |d.rows|
    requires Stage(d, FormalMatrix(d.rows, d.cells), r, |RowAt(FormalMatrix(d.rows, d.cells), r)|, e)
    ensures forall y :: y in d.rows[r] && !Moves(d, r, y) ==> forall k | 0 <= k < |e.rows| && k != r :: y !in e.rows[k]
    ensures r + 1 < |d.rows| ==> var row := e.rows[r + 1]; forall y :: y in row <==> y in d.rows[r + 1] || Moves(d, r, y)
  {
    var m := FormalMatrix(d.rows, d.cells);
    assert RowAt(m, r)[..|RowAt(m, r)|] == RowAt(m, r);
    forall y | y in d.rows[r] && !Moves(d, r, y)
      ensures forall k | 0 <= k < |e.rows| && k != r :: y !in e.rows[k]
    {
      TiledRows(d.rows, d.cells, y);
      forall k | 0 <= k < |e.rows| && k != r
        ensures y !in e.rows[k]
      {
        if k != r + 1 {
          assert e.rows[k] == d.rows[k];
        }
      }
    }
    forall y: CellId | Moves(d, r, y)
      ensures Some(y) in RowAt(m, r)
    {
      CrossingMet(d, r, y);
    }
  }

  /** Dropping row `r` keeps the rows around it in order. */
  lemma DropRowRows(e: Doc, r: nat, y: CellId)
    requires r < |e.rows| && forall k | 0 <= k < |e.rows| && k != r :: y !in e.rows[k]
    ensures DropRow(e, r).rows[..r] == e.rows[..r] && DropRow(e, r).rows[r..] == e.rows[r + 1..]
    ensures !InTree(DropRow(e, r).rows, y)
  {
    var o := DropRow(e, r).rows;
    assert o[..r] == e.rows[..r];
    assert o[r..] == e.rows[r + 1..];
    forall k | 0 <= k < |o|
      ensures y !in o[k]
    {
      if k < r {
        assert o[k] == e.rows[k];
      } else {
        assert o[k] == e.rows[k + 1];
      }
    }
  }

  /**
   * removeRow on a tiled table, when it completes: row `r` is gone and the other rows keep
   * their order; a cell of row `r` that does not go on below leaves the tree; one that does
   * goes into the row that follows; and every cell crossing row `r` loses one row of span,
   * once, while every other cell keeps its attributes.
   */
  lemma RemoveRowExact(d: Doc, r: nat, corrected: bool)
    requires Closed(d) && Tiled(d.rows, d.cells)
    ensures var o := RemoveRowWith(d, r, corrected);
            o.Done? ==>
              o.doc.next == d.next && o.doc.cells.Keys == d.cells.Keys &&
              (forall c | c in d.cells :: o.doc.cells[c] == if Trimmed(d, r, c) then Trim(d.cells[c]) else d.cells[c]) &&
              (r >= |d.rows| ==> o.doc.rows == d.rows) &&
              (r < |d.rows| ==>
                 |o.doc.rows| == |d.rows| - 1 && o.doc.rows[..r] == d.rows[..r] &&
                 forall y :: y in d.rows[r] && !Moves(d, r, y) ==> !InTree(o.doc.rows, y)) &&
              (r + 1 < |d.rows| ==>
                 o.doc.rows[r + 1..] == d.rows[r + 2..] &&
                 var row := o.doc.rows[r]; forall y :: y in row <==> y in d.rows[r + 1] || Moves(d, r, y))
  {
    var m := FormalMatrix(d.rows, d.cells);
    StageStart(d, m, r);
    SlotsStage(d, r, 0, d, corrected);
    var s := RemoveRowSlots(m, r, 0, d, corrected);
    if s.Done? {
      var e := s.doc;
      LastStageCells(d, r, e);
      var o := DropRow(e, r);
      assert RemoveRowWith(d, r, corrected) == Done(o);
      if r < |d.rows| {
        LastStageRows(d, r, e);
        DropStage(d, r, e);
      }
    }
  }

  /** Dropping row `r` from the last stage gives the rows removeRow promises. */
  lemma DropStage(d: Doc, r: nat, e: Doc)
    requires r < |d.rows| && |e.rows| == |d.rows|
    requires forall i | 0 <= i < |d.rows| && i != r && i != r + 1 :: e.rows[i] == d.rows[i]
    requires forall y :: y in d.rows[r] && !Moves(d, r, y) ==> forall k | 0 <= k < |e.rows| && k != r :: y !in e.rows[k]
    requires r + 1 < |d.rows| ==> var row := e.rows[r + 1]; forall y :: y in row <==> y in d.rows[r + 1] || Moves(d, r, y)
    ensures var o := DropRow(e, r).rows;
            |o| == |d.rows| - 1 && o[..r] == d.rows[..r] &&
            (forall y :: y in d.rows[r] && !Moves(d, r, y) ==> !InTree(o, y)) &&
            (r + 1 < |d.rows| ==>
               o[r + 1..] == d.rows[r + 2..] &&
               var row := o[r]; forall y :: y in row <==> y in d.rows[r + 1] || Moves(d, r, y))
  {
    var o := DropRow(e, r).rows;
    forall y | y in d.rows[r] && !Moves(d, r, y)
      ensures !InTree(o, y)
    {
      DropRowRows(e, r, y);
    }
    assert o[..r] == e.rows[..r];
    assert e.rows[..r] == d.rows[..r];
    if r + 1 < |d.rows| {
      assert o[r] == e.rows[r + 1];
      assert o[r + 1..] == e.rows[r + 2..];
      assert e.rows[r + 2..] == d.rows[r + 2..];
    }
  }

  // ---------------------------------------------------------------------------------------
  // The relocation's reference cell.

  /**
   * With the reference taken among the cells of the next row, a callback throws only at an
   * empty slot or below an undefined row.
   */
  lemma FixedSlotThrows(box: Grid, r: nat, j: nat, d: Doc)
    ensures RemoveRowSlot(box, r, j, d, true).Thrown? <==> Get(box, r, j).None? || (r >= 1 && Undefined(box, r - 1))
  {
  }

  /**
   * Corrected removeRow fails exactly when the removed formal row has an empty slot, or has a
   * slot and lies below an undefined row (the TypeErrors of a broken table); every relocation
   * succeeds.
   */
  lemma {:induction false} FixedSlotsThrow(box: Grid, r: nat, j: nat, d: Doc)
    requires j <= |RowAt(box, r)|
    ensures RemoveRowSlots(box, r, j, d, true).Thrown? <==>
            None in RowAt(box, r)[j..] || (r >= 1 && Undefined(box, r - 1) && j < |RowAt(box, r)|)
    decreases |RowAt(box, r)| - j
  {
    var row := RowAt(box, r);
    if j < |row| {
      assert row[j..] == [row[j]] + row[j + 1..];
      assert Get(box, r, j) == row[j];
      FixedSlotThrows(box, r, j, d);
      match RemoveRowSlot(box, r, j, d, true)
      case Thrown(e) =>
      case Done(e) => FixedSlotsThrow(box, r, j + 1, e);
    }
  }

  lemma RemoveRowFixedThrows(d: Doc, r: nat)
    ensures var box := FormalMatrix(d.rows, d.cells);
            RemoveRowFixed(d, r).Thrown? <==> None in RowAt(box, r) || (r >= 1 && Undefined(box, r - 1) && |RowAt(box, r)| > 0)
  {
    var box := FormalMatrix(d.rows, d.cells);
    FixedSlotsThrow(box, r, 0, d);
    assert RowAt(box, r)[0..] == RowAt(box, r);
  }

  /**
   * A row with no matrix row (an index past the matrix, or a row no cell stamps) gives `each`
   * nothing to visit: no cell changes and only the `<tr>` itself, when there is one, goes.
   */
  lemma RemoveRowNoMatrixRow(d: Doc, r: nat)
    requires |RowAt(FormalMatrix(d.rows, d.cells), r)| == 0
    ensures RemoveRow(d, r) == Done(d.(rows := if r < |d.rows| then d.rows[..r] + d.rows[r + 1..] else d.rows))
  {
  }

  /** Two cells side by side, each spanning both rows; the second row has no cell of its own. */
  const TwoTall: Doc := Doc([[0, 1], []],
                            map[0 := Cell(None, Some(2), None, false, ""), 1 := Cell(None, Some(2), None, false, "")],
                            2)

  /** The formal matrix of TwoTall is the full 2 x 2 grid [[0, 1], [0, 1]]. */
  lemma TwoTallMatrix()
    ensures FormalMatrix(TwoTall.rows, TwoTall.cells) == [[Some(0), Some(1)], [Some(0), Some(1)]]
  {
    var cells := TwoTall.cells;
    var p0 := Placement(0, 0);
    var p1 := Placement(1, 0);
    assert Placements(TwoTall.rows[..1]) == [p0, p1] by {
      assert TwoTall.rows[..1][..0] == [];
    }
    assert Placements(TwoTall.rows) == [p0, p1] by {
      assert TwoTall.rows[..1] == [[0, 1]];
      assert TwoTall.rows[..2][..1] == TwoTall.rows[..1];
      assert TwoTall.rows[..2] == TwoTall.rows;
    }
    var m0: Grid := [[]];
    assert Build([p0], cells) == SetCell(m0, cells, p0) by {
      assert [p0][..0] == [];
    }
    assert [p0, p1][..1] == [p0];
    var a: Grid := [[Some(0)]];
    assert PutRow([], 0, Some(0)) == PutRow([None], 0, Some(0)) == [Some(0)];
    assert Put(m0, 0, 0, Some(0)) == a;
    assert StampCols(m0, 0, 0, 0, 0, 1) == StampCols(a, 0, 0, 0, 1, 1) == a;
    assert EnsureRow(a, 1) == [[Some(0)], []];
    var m1: Grid := [[Some(0)], [Some(0)]];
    assert Put([[Some(0)], []], 1, 0, Some(0)) == m1;
    assert StampCols([[Some(0)], []], 0, 1, 0, 0, 1) == StampCols(m1, 0, 1, 0, 1, 1) == m1;
    assert SetCell(m0, cells, p0) == m1;
    assert FirstFree([Some(0)], 0) == 1;
    assert PutRow([Some(0)], 1, Some(1)) == [Some(0), Some(1)];
    var b: Grid := [[Some(0), Some(1)], [Some(0)]];
    assert StampCols(m1, 1, 0, 1, 0, 1) == b;
    var m2: Grid := [[Some(0), Some(1)], [Some(0), Some(1)]];
    assert StampCols(b, 1, 1, 1, 0, 1) == m2;
    assert SetCell(m1, cells, p1) == m2;
  }

  /**
   * removeRow(TwoTall, 0) throws: cell 0 is to move into row 1 before cell 1, which still
   * lives in row 0, so `insertBefore` raises NotFoundError before anything is changed.
   */
  lemma RemoveRowTwoTall()
    ensures RemoveRow(TwoTall, 0) == Thrown(TwoTall)
  {
    TwoTallMatrix();
    var box := FormalMatrix(TwoTall.rows, TwoTall.cells);
    assert RunEnd(box, 1, 1, 0) == 1;
  }

  /** The corrected removeRow of TwoTall completes. */
  lemma RemoveRowFixedTwoTall()
    ensures RemoveRowFixed(TwoTall, 0).Done?
  {
    TwoTallMatrix();
    RemoveRowFixedThrows(TwoTall, 0);
  }
}

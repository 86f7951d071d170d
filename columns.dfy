/**
 * Table.appendColumn and Table.removeColumn. Both walk the formal rows of the matrix and edit
 * the tree directly. appendColumn creates a cell for every formal row and puts it next to the
 * cell of column `j` when the new column boundary is an edge of that cell, and otherwise widens
 * the cell by one column. removeColumn removes the cell of column `j` unless it goes on into a
 * neighbouring column, in which case it loses one column of span, once per cell.
 */
module ColumnOps {
  import opened Wrappers
  import opened Cells
  import opened Matrix
  import opened Dom

  /** The identities in column `j` of the formal rows from `i` on. */
  function ColumnIds(box: Grid, j: int, i: nat): set<CellId>
    decreases |box| - i
  {
    if i >= |box| then {} else SlotIds([Get(box, i, j)]) + ColumnIds(box, j, i + 1)
  }

  // ---------------------------------------------------------------------------------------
  // appendColumn

  /**
   * `parseInt(getAttribute('colspan'), 10) + 1` written back: a missing attribute gives NaN,
   * which does not parse, represented as `Some(0)`.
   */
  function Widened(a: Option<int>): (r: Option<int>)
    ensures SpanValue(r) >= SpanValue(a)
  {
    match a
    case None => Some(0)
    case Some(v) => Some(v + 1)
  }

  /** The new column boundary is an edge of the cell `x` of slot (i, j). */
  predicate AtEdge(box: Grid, i: nat, j: int, after: bool, x: CellId)
  {
    if after then j + 1 >= |RowAt(box, i)| || Get(box, i, j + 1) != Some(x)
    else j - 1 < 0 || Get(box, i, j - 1) != Some(x)
  }

  /**
   * The body of appendColumn's loop for formal row `i`: a cell is created; it goes after (or
   * before) the cell `x` of slot (i, j) in `x`'s row when the boundary is an edge of `x`, and
   * otherwise `x` is widened. An empty slot raises a TypeError.
   */
  function AppendColumnSlot(box: Grid, i: nat, j: int, after: bool, d: Doc): (o: Outcome)
    ensures |o.doc.rows| == |d.rows| && o.doc.next == d.next + 1
  {
    var c := d.next;
    var d1 := Doc(d.rows, d.cells[c := NewCell("")], d.next + 1);
    match Get(box, i, j)
    case None => Thrown(d1)
    case Some(x) =>
      if AtEdge(box, i, j, after, x) then
        match Parent(d1.rows, x)
        case None => Thrown(d1)
        case Some(p) =>
          Done(d1.(rows := d1.rows[p := if after then InsertAfter(d1.rows[p], x, c) else InsertBefore(d1.rows[p], c, x)]))
      else if x in d1.cells then Done(d1.(cells := d1.cells[x := d1.cells[x].(colspan := Widened(d1.cells[x].colspan))]))
      else Done(d1)
  }

  /** appendColumn's loop from formal row `i` on, stopping at an exception. */
  function AppendColumnRows(box: Grid, j: int, after: bool, i: nat, d: Doc): (o: Outcome)
    requires i <= |box|
    ensures |o.doc.rows| == |d.rows| && o.doc.next >= d.next
    ensures o.Done? ==> o.doc.next == d.next + (|box| - i)
    decreases |box| - i
  {
    if i >= |box| then Done(d)
    else match AppendColumnSlot(box, i, j, after, d)
      case Thrown(e) => Thrown(e)
      case Done(e) => AppendColumnRows(box, j, after, i + 1, e)
  }

  /** The column appendColumn works at: `j`, or the last formal column when `j` is not given. */
  function TargetColumn(box: Grid, j: Option<int>): int
  {
    if j.None? then Width(box) - 1 else j.value
  }

  /** appendColumn(table, j, after). */
  function AppendColumn(d: Doc, j: Option<int>, after: bool): Outcome
  {
    var box := FormalMatrix(d.rows, d.cells);
    AppendColumnRows(box, TargetColumn(box, j), after, 0, d)
  }

  /** Only the colspan changes, and it does not shrink. */
  predicate ColSpanWiden(a: Cell, b: Cell)
  {
    b == a.(colspan := b.colspan) && ColSpan(b) >= ColSpan(a)
  }

  /** The tree of `e` holds no cell but those of `d` and those created since. */
  ghost predicate TreeGrows(d: Doc, e: Doc)
  {
    d.next <= e.next && forall y: CellId :: InTree(e.rows, y) ==> InTree(d.rows, y) || d.next <= y < e.next
  }

  /**
   * The records of `e`: those of `d`, of which only the cells of `touched` are widened, and a
   * plain empty cell for every identity handed out since.
   */
  ghost predicate RecordsWidened(d: Doc, e: Doc, touched: set<CellId>)
  {
    d.next <= e.next &&
    (forall c: CellId :: c in e.cells <==> c in d.cells || d.next <= c < e.next) &&
    (forall c: CellId :: d.next <= c < e.next ==> e.cells[c] == NewCell("")) &&
    (forall c :: c in d.cells && c < d.next ==> ColSpanWiden(d.cells[c], e.cells[c]) && (c !in touched ==> e.cells[c] == d.cells[c]))
  }

  lemma AppendColumnSlotTree(box: Grid, i: nat, j: int, after: bool, d: Doc)
    ensures TreeGrows(d, AppendColumnSlot(box, i, j, after, d).doc)
  {
    var o := AppendColumnSlot(box, i, j, after, d);
    forall y: CellId | InTree(o.doc.rows, y)
      ensures InTree(d.rows, y) || y == d.next
    {
      var k :| 0 <= k < |o.doc.rows| && y in o.doc.rows[k];
      if o.doc.rows[k] == d.rows[k] {
        assert y in d.rows[k];
      }
    }
  }

  lemma AppendColumnSlotRecords(box: Grid, i: nat, j: int, after: bool, d: Doc)
    requires Get(box, i, j).Some? ==> Get(box, i, j).value < d.next
    ensures RecordsWidened(d, AppendColumnSlot(box, i, j, after, d).doc, SlotIds([Get(box, i, j)]))
  {
    var d1 := Doc(d.rows, d.cells[d.next := NewCell("")], d.next + 1);
    assert RecordsWidened(d, d1, {});
    match Get(box, i, j)
    case None =>
    case Some(x) =>
      assert SlotIds([Get(box, i, j)]) == {x};
      if !AtEdge(box, i, j, after, x) && x in d1.cells {
        WidenOne(d, d1, x);
      }
  }

  /** Widening the colspan of an old cell `x` keeps the records widened, touching `x`. */
  lemma WidenOne(d: Doc, d1: Doc, x: CellId)
    requires RecordsWidened(d, d1, {}) && x < d.next && x in d1.cells
    ensures RecordsWidened(d, d1.(cells := d1.cells[x := d1.cells[x].(colspan := Widened(d1.cells[x].colspan))]), {x})
  {
  }

  lemma TreeChain(a: Doc, b: Doc, c: Doc)
    requires TreeGrows(a, b) && TreeGrows(b, c)
    ensures TreeGrows(a, c)
  {
  }

  lemma RecordsChain(a: Doc, b: Doc, c: Doc, s: set<CellId>, t: set<CellId>)
    requires RecordsWidened(a, b, s) && RecordsWidened(b, c, t)
    requires forall x :: x in t ==> x < a.next
    ensures RecordsWidened(a, c, s + t)
  {
  }

  lemma {:induction false} AppendColumnRowsEffect(box: Grid, j: int, after: bool, i: nat, d: Doc)
    requires i <= |box| && forall c :: c in ColumnIds(box, j, i) ==> c < d.next
    ensures var e := AppendColumnRows(box, j, after, i, d).doc;
            TreeGrows(d, e) && RecordsWidened(d, e, ColumnIds(box, j, i))
    decreases |box| - i
  {
    if i < |box| {
      assert Get(box, i, j).Some? ==> Get(box, i, j).value in ColumnIds(box, j, i);
      AppendColumnSlotTree(box, i, j, after, d);
      AppendColumnSlotRecords(box, i, j, after, d);
      match AppendColumnSlot(box, i, j, after, d)
      case Thrown(e) =>
      case Done(e) =>
        var f := AppendColumnRows(box, j, after, i + 1, e).doc;
        AppendColumnRowsEffect(box, j, after, i + 1, e);
        TreeChain(d, e, f);
        RecordsChain(d, e, f, SlotIds([Get(box, i, j)]), ColumnIds(box, j, i + 1));
    }
  }

  /** The cells of a column of a closed table's formal matrix have been handed out. */
  lemma {:induction false} ColumnIdsClosed(d: Doc, j: int, i: nat)
    requires Closed(d)
    ensures forall c :: c in ColumnIds(FormalMatrix(d.rows, d.cells), j, i) ==> c < d.next
    decreases |FormalMatrix(d.rows, d.cells)| - i
  {
    var box := FormalMatrix(d.rows, d.cells);
    if i < |box| {
      ColumnIdsClosed(d, j, i + 1);
      if Get(box, i, j).Some? {
        FormalSlotPlaced(d.rows, d.cells, i, j);
        assert SlotIds([Get(box, i, j)]) == {Get(box, i, j).value};
      }
    }
  }

  /**
   * appendColumn keeps the table closed. It hands out one identity per formal row reached
   * (one per formal row when it completes), each a plain empty cell. The only cells it adds to
   * the tree are those, and of the existing cells only those of column `j` change, in their
   * colspan alone, which does not shrink.
   */
  lemma AppendColumnEffect(d: Doc, j: Option<int>, after: bool)
    requires Closed(d)
    ensures var o := AppendColumn(d, j, after);
            var box := FormalMatrix(d.rows, d.cells);
            Closed(o.doc) && TreeGrows(d, o.doc) && RecordsWidened(d, o.doc, ColumnIds(box, TargetColumn(box, j), 0)) &&
            (o.Done? ==> o.doc.next == d.next + |box|)
  {
    var box := FormalMatrix(d.rows, d.cells);
    ColumnIdsClosed(d, TargetColumn(box, j), 0);
    AppendColumnRowsEffect(box, TargetColumn(box, j), after, 0, d);
    var e := AppendColumn(d, j, after).doc;
    forall i, c | 0 <= i < |e.rows| && c in e.rows[i]
      ensures c in e.cells
    {
      assert InTree(e.rows, c);
    }
  }

  /** Cells already in the tree stay in it. */
  ghost predicate TreeKeeps(d: Doc, e: Doc)
  {
    forall y :: InTree(d.rows, y) ==> InTree(e.rows, y)
  }

  lemma AppendColumnSlotOutcome(box: Grid, i: nat, j: int, after: bool, d: Doc)
    requires Get(box, i, j).Some? ==> InTree(d.rows, Get(box, i, j).value)
    ensures var o := AppendColumnSlot(box, i, j, after, d);
            (o.Thrown? <==> Get(box, i, j).None?) && TreeKeeps(d, o.doc)
  {
    var o := AppendColumnSlot(box, i, j, after, d);
    forall y | InTree(d.rows, y)
      ensures InTree(o.doc.rows, y)
    {
      var k :| 0 <= k < |d.rows| && y in d.rows[k];
      assert y in o.doc.rows[k];
    }
  }

  lemma {:induction false} AppendColumnRowsOutcome(box: Grid, j: int, after: bool, i: nat, d: Doc)
    requires i <= |box|
    requires forall k :: i <= k < |box| && Get(box, k, j).Some? ==> InTree(d.rows, Get(box, k, j).value)
    ensures AppendColumnRows(box, j, after, i, d).Thrown? <==> exists k :: i <= k < |box| && Get(box, k, j).None?
    decreases |box| - i
  {
    if i < |box| {
      AppendColumnSlotOutcome(box, i, j, after, d);
      match AppendColumnSlot(box, i, j, after, d)
      case Thrown(e) =>
      case Done(e) =>
        AppendColumnRowsOutcome(box, j, after, i + 1, e);
        if exists k :: i <= k < |box| && Get(box, k, j).None? {
          var k :| i <= k < |box| && Get(box, k, j).None?;
          assert k != i;
        }
    }
  }

  /** appendColumn raises an exception exactly when column `j` of the formal matrix has a hole. */
  lemma AppendColumnThrows(d: Doc, j: Option<int>, after: bool)
    requires Closed(d)
    ensures var box := FormalMatrix(d.rows, d.cells);
            AppendColumn(d, j, after).Thrown? <==> exists k :: 0 <= k < |box| && Get(box, k, TargetColumn(box, j)).None?
  {
    var box := FormalMatrix(d.rows, d.cells);
    forall k | 0 <= k < |box| && Get(box, k, TargetColumn(box, j)).Some?
      ensures InTree(d.rows, Get(box, k, TargetColumn(box, j)).value)
    {
      FormalSlotPlaced(d.rows, d.cells, k, TargetColumn(box, j));
    }
    AppendColumnRowsOutcome(box, TargetColumn(box, j), after, 0, d);
  }

  /**
   * One pass of appendColumn's loop, exactly: it hands out one identity, a plain empty cell.
   * At an edge of the cell `x` of slot (i, j) the new cell goes into `x`'s row right after
   * (or right before) `x`, and the pass throws when `x` has no row; inside `x`, `x` gains a
   * column of span and the tree does not change. An empty slot throws.
   */
  lemma AppendColumnSlotExact(box: Grid, i: nat, j: int, after: bool, d: Doc)
    requires Get(box, i, j).Some? ==> Get(box, i, j).value < d.next
    ensures var o := AppendColumnSlot(box, i, j, after, d);
            var c := d.next;
            o.doc.next == d.next + 1 && c in o.doc.cells && o.doc.cells[c] == NewCell("") &&
            (Get(box, i, j).None? ==> o.Thrown?) &&
            (Get(box, i, j).Some? ==>
               var x := Get(box, i, j).value;
               (AtEdge(box, i, j, after, x) ==>
                  o.doc.cells == d.cells[c := NewCell("")] &&
                  (o.Thrown? <==> Parent(d.rows, x).None?) &&
                  (o.Done? ==>
                     var p := Parent(d.rows, x).value;
                     var row := d.rows[p];
                     var k := ChildIndex(row, x);
                     o.doc.rows == d.rows[p := if after then row[..k + 1] + [c] + row[k + 1..] else row[..k] + [c] + row[k..]])) &&
               (!AtEdge(box, i, j, after, x) ==>
                  o.Done? && o.doc.rows == d.rows &&
                  (forall y | y in d.cells && y != x && y != c :: y in o.doc.cells && o.doc.cells[y] == d.cells[y]) &&
                  (x in d.cells ==>
                     x in o.doc.cells && o.doc.cells[x] == d.cells[x].(colspan := o.doc.cells[x].colspan) &&
                     (d.cells[x].colspan.Some? && d.cells[x].colspan.value >= 1 ==> ColSpan(o.doc.cells[x]) == ColSpan(d.cells[x]) + 1))))
  {
  }

  /** `n` times `parseInt(colspan, 10) + 1`: a number grows by `n`, a missing attribute gives NaN. */
  function WidenedTimes(a: Option<int>, n: nat): (r: Option<int>)
    ensures a.Some? ==> r == Some(a.value + n)
    ensures a.None? ==> r == if n == 0 then None else Some(n - 1)
    decreases n
  {
    if n == 0 then a else WidenedTimes(Widened(a), n - 1)
  }

  /** The formal rows from `i` on in which appendColumn widens `x` rather than adding a cell. */
  function WidenRows(box: Grid, j: int, after: bool, i: nat, x: CellId): nat
    decreases |box| - i
  {
    if i >= |box| then 0
    else (if Get(box, i, j) == Some(x) && !AtEdge(box, i, j, after, x) then 1 else 0) + WidenRows(box, j, after, i + 1, x)
  }

  /** Every cell of the tree has an identity below `next`. */
  ghost predicate Fresh(d: Doc)
  {
    forall r, y :: 0 <= r < |d.rows| && y in d.rows[r] ==> y < d.next
  }

  /** The old cells of column `j` from formal row `i` on have identities below `next`. */
  ghost predicate ColumnOld(box: Grid, j: int, i: nat, next: nat)
  {
    forall k :: i <= k < |box| && Get(box, k, j).Some? ==> Get(box, k, j).value < next
  }

  /** An old cell is in the same rows of both trees. */
  ghost predicate RowsKept(d: Doc, e: Doc)
  {
    |e.rows| == |d.rows| &&
    forall y: CellId, r | y < d.next && 0 <= r < |d.rows| :: y in e.rows[r] <==> y in d.rows[r]
  }

  /**
   * The cell created for formal row `k`, when the one for row `start` is `first`, is in the
   * tree of `rows2` exactly when the new boundary is an edge of the cell `x` of slot (k, j),
   * and then it is in `x`'s row.
   */
  ghost predicate NewCellPlaced(box: Grid, j: int, after: bool, k: nat, rows: seq<seq<CellId>>, rows2: seq<seq<CellId>>, start: nat, first: nat)
    requires start <= k
  {
    var c := first + (k - start);
    Get(box, k, j).Some? &&
    var x := Get(box, k, j).value;
    (InTree(rows2, c) <==> AtEdge(box, k, j, after, x)) &&
    (AtEdge(box, k, j, after, x) ==> Parent(rows, x).Some? && Parent(rows, x).value < |rows2| && c in rows2[Parent(rows, x).value])
  }

  /** A cell that stays in its rows stays in the tree, or out of it. */
  lemma InTreeKept(d: Doc, e: Doc, c: CellId)
    requires RowsKept(d, e) && c < d.next
    ensures InTree(e.rows, c) <==> InTree(d.rows, c)
  {
    if InTree(d.rows, c) {
      var r :| 0 <= r < |d.rows| && c in d.rows[r];
      assert c in e.rows[r];
    }
    if InTree(e.rows, c) {
      var r :| 0 <= r < |e.rows| && c in e.rows[r];
      assert c in d.rows[r];
    }
  }

  /** One pass of appendColumn keeps old cells in their rows, and its new cell is in the tree exactly at an edge. */
  lemma AppendColumnSlotKeeps(box: Grid, i: nat, j: int, after: bool, d: Doc)
    requires Fresh(d) && (Get(box, i, j).Some? ==> Get(box, i, j).value < d.next)
    ensures var o := AppendColumnSlot(box, i, j, after, d);
            o.Done? ==>
              Fresh(o.doc) && RowsKept(d, o.doc) &&
              var x := Get(box, i, j).value;
              (InTree(o.doc.rows, d.next) <==> AtEdge(box, i, j, after, x)) &&
              (AtEdge(box, i, j, after, x) ==> Parent(d.rows, x).Some? && d.next in o.doc.rows[Parent(d.rows, x).value])
  {
    AppendColumnSlotExact(box, i, j, after, d);
    var o := AppendColumnSlot(box, i, j, after, d);
    if o.Done? {
      var x := Get(box, i, j).value;
      if AtEdge(box, i, j, after, x) {
        var p := Parent(d.rows, x).value;
        forall r | 0 <= r < |d.rows| && r != p
          ensures o.doc.rows[r] == d.rows[r]
        {
        }
        assert InTree(o.doc.rows, d.next) by {
          assert d.next in o.doc.rows[p];
        }
      }
    }
  }

  /** One pass of appendColumn widens the old cell of its slot when inside it, and leaves the other old cells. */
  lemma AppendColumnSlotCells(box: Grid, i: nat, j: int, after: bool, d: Doc)
    requires Get(box, i, j).Some? ==> Get(box, i, j).value < d.next
    ensures var o := AppendColumnSlot(box, i, j, after, d);
            o.Done? ==>
              forall y | y in d.cells && y < d.next ::
                y in o.doc.cells &&
                o.doc.cells[y] == if Get(box, i, j) == Some(y) && !AtEdge(box, i, j, after, y)
                                  then d.cells[y].(colspan := Widened(d.cells[y].colspan)) else d.cells[y]
  {
  }

  /** A cell widened by one pass (when `hit`) and then `n` more times is widened by their sum. */
  lemma WidenedChain(c: Cell, c1: Cell, c2: Cell, hit: bool, n: nat)
    requires c1 == if hit then c.(colspan := Widened(c.colspan)) else c
    requires c2 == c1.(colspan := WidenedTimes(c1.colspan, n))
    ensures c2 == c.(colspan := WidenedTimes(c.colspan, (if hit then 1 else 0) + n))
  {
    if hit {
      assert WidenedTimes(Widened(c.colspan), n) == WidenedTimes(c.colspan, n + 1);
    }
  }

  /** appendColumn's loop widens each old cell once for every formal row in which the new boundary runs through it. */
  lemma {:induction false} AppendColumnRowsWidens(box: Grid, j: int, after: bool, i: nat, d: Doc)
    requires i <= |box| && ColumnOld(box, j, i, d.next)
    ensures var o := AppendColumnRows(box, j, after, i, d);
            o.Done? ==>
              forall x | x in d.cells && x < d.next ::
                x in o.doc.cells && o.doc.cells[x] == d.cells[x].(colspan := WidenedTimes(d.cells[x].colspan, WidenRows(box, j, after, i, x)))
    decreases |box| - i
  {
    var o := AppendColumnRows(box, j, after, i, d);
    if i < |box| && o.Done? {
      AppendColumnSlotCells(box, i, j, after, d);
      var e := AppendColumnSlot(box, i, j, after, d).doc;
      assert o == AppendColumnRows(box, j, after, i + 1, e);
      AppendColumnRowsWidens(box, j, after, i + 1, e);
      forall y | y in d.cells && y < d.next
        ensures y in o.doc.cells && o.doc.cells[y] == d.cells[y].(colspan := WidenedTimes(d.cells[y].colspan, WidenRows(box, j, after, i, y)))
      {
        assert y in e.cells && y < e.next;
        var hit := Get(box, i, j) == Some(y) && !AtEdge(box, i, j, after, y);
        WidenedChain(d.cells[y], e.cells[y], o.doc.cells[y], hit, WidenRows(box, j, after, i + 1, y));
      }
    }
  }

  /** appendColumn's loop keeps every old cell in its rows. */
  lemma {:induction false} AppendColumnRowsKept(box: Grid, j: int, after: bool, i: nat, d: Doc)
    requires i <= |box| && ColumnOld(box, j, i, d.next) && Fresh(d)
    ensures var o := AppendColumnRows(box, j, after, i, d);
            o.Done? ==> Fresh(o.doc) && RowsKept(d, o.doc)
    decreases |box| - i
  {
    var o := AppendColumnRows(box, j, after, i, d);
    if i < |box| && o.Done? {
      AppendColumnSlotKeeps(box, i, j, after, d);
      var e := AppendColumnSlot(box, i, j, after, d).doc;
      assert o == AppendColumnRows(box, j, after, i + 1, e);
      AppendColumnRowsKept(box, j, after, i + 1, e);
    }
  }

  /** The cell appendColumn's loop makes for each formal row is in the tree exactly at an edge, in the row of that row's cell. */
  lemma {:induction false} AppendColumnRowsPlaced(box: Grid, j: int, after: bool, i: nat, d: Doc)
    requires i <= |box| && ColumnOld(box, j, i, d.next) && Fresh(d)
    ensures var o := AppendColumnRows(box, j, after, i, d);
            o.Done? ==> forall k | i <= k < |box| :: NewCellPlaced(box, j, after, k, d.rows, o.doc.rows, i, d.next)
    decreases |box| - i
  {
    var o := AppendColumnRows(box, j, after, i, d);
    if i < |box| && o.Done? {
      AppendColumnSlotKeeps(box, i, j, after, d);
      var e := AppendColumnSlot(box, i, j, after, d).doc;
      assert o == AppendColumnRows(box, j, after, i + 1, e);
      AppendColumnRowsPlaced(box, j, after, i + 1, e);
      AppendColumnRowsKept(box, j, after, i + 1, e);
      var x := Get(box, i, j).value;
      forall k | i <= k < |box|
        ensures NewCellPlaced(box, j, after, k, d.rows, o.doc.rows, i, d.next)
      {
        if k == i {
          InTreeKept(e, o.doc, d.next);
          if AtEdge(box, i, j, after, x) {
            var p := Parent(d.rows, x).value;
            assert d.next in e.rows[p];
          }
        } else {
          assert NewCellPlaced(box, j, after, k, e.rows, o.doc.rows, i + 1, e.next);
          ParentSame(d.rows, e.rows, Get(box, k, j).value);
        }
      }
    }
  }

  /**
   * appendColumn on a closed table, when it completes: each old cell is widened once for
   * every formal row in which the new boundary runs through it, old cells stay in their rows,
   * and the cell made for formal row `k`, the `k`-th identity handed out, is in the tree
   * exactly when the boundary is an edge of the cell of slot (k, j), in that cell's row.
   */
  lemma AppendColumnExact(d: Doc, j: Option<int>, after: bool)
    requires Closed(d)
    ensures var o := AppendColumn(d, j, after);
            var box := FormalMatrix(d.rows, d.cells);
            var t := TargetColumn(box, j);
            o.Done? ==>
              (forall x | x in d.cells ::
                 x in o.doc.cells && o.doc.cells[x] == d.cells[x].(colspan := WidenedTimes(d.cells[x].colspan, WidenRows(box, t, after, 0, x)))) &&
              RowsKept(d, o.doc) &&
              (forall k | 0 <= k < |box| :: NewCellPlaced(box, t, after, k, d.rows, o.doc.rows, 0, d.next))
  {
    var box := FormalMatrix(d.rows, d.cells);
    var t := TargetColumn(box, j);
    ColumnIdsClosed(d, t, 0);
    forall k | 0 <= k < |box| && Get(box, k, t).Some?
      ensures Get(box, k, t).value < d.next
    {
      ColumnIdsHas(box, t, 0, k);
    }
    AppendColumnRowsWidens(box, t, after, 0, d);
    AppendColumnRowsKept(box, t, after, 0, d);
    AppendColumnRowsPlaced(box, t, after, 0, d);
  }

  /** A slot of column `j` from formal row `i` on contributes its cell to ColumnIds. */
  lemma {:induction false} ColumnIdsHas(box: Grid, j: int, i: nat, k: nat)
    requires i <= k < |box| && Get(box, k, j).Some?
    ensures Get(box, k, j).value in ColumnIds(box, j, i)
    decreases k - i
  {
    if k > i {
      ColumnIdsHas(box, j, i + 1, k);
    }
  }

  // ---------------------------------------------------------------------------------------
  // removeColumn

  /** The cell of slot (i, j) goes on into column j - 1 or j + 1 of its formal row. */
  predicate Spreads(box: Grid, i: nat, j: int)
  {
    (j - 1 >= 0 && Get(box, i, j - 1) == Get(box, i, j)) || (j + 1 < |RowAt(box, i)| && Get(box, i, j + 1) == Get(box, i, j))
  }

  /** One column less of span, with the attribute removed when one column is left. */
  function NarrowCell(c: Cell): (t: Cell)
    ensures t == c.(colspan := t.colspan) && ColSpan(t) == if ColSpan(c) > 2 then ColSpan(c) - 1 else 1
  {
    c.(colspan := SpanAttr(ColSpan(c) - 1))
  }

  /** The cell `c` of the table narrowed by one column. */
  function Narrowed(d: Doc, c: CellId): (e: Doc)
    requires c in d.cells
    ensures e.rows == d.rows && e.next == d.next && e.cells.Keys == d.cells.Keys
  {
    d.(cells := d.cells[c := NarrowCell(d.cells[c])])
  }

  /**
   * The body of removeColumn's loop for formal row `i`: the cell of slot (i, j) is removed
   * from the tree unless it spreads into a neighbouring column; a spreading cell loses a
   * column of span in the first formal row where it is met. Reading an empty slot, a slot of
   * an undefined row, or (for a spreading cell) the slot above in an undefined row raises a
   * TypeError (two empty neighbours compare equal, so an empty slot may spread too).
   */
  function RemoveColumnSlot(box: Grid, i: nat, j: int, d: Doc): (o: Outcome)
    ensures o.doc.next == d.next && o.doc.cells.Keys == d.cells.Keys && |o.doc.rows| == |d.rows|
  {
    var x := Get(box, i, j);
    if Undefined(box, i) then Thrown(d)
    else if !Spreads(box, i, j) then
      match x
      case None => Thrown(d)
      case Some(c) => Done(d.(rows := Detach(d.rows, c)))
    else if i >= 1 && Undefined(box, i - 1) then Thrown(d)
    else if i - 1 < 0 || x != Get(box, i - 1, j) then
      match x
      case None => Thrown(d)
      case Some(c) => if c in d.cells then Done(Narrowed(d, c)) else Done(d)
    else Done(d)
  }

  /** removeColumn's loop from formal row `i` on, stopping at an exception. */
  function RemoveColumnRows(box: Grid, j: int, i: nat, d: Doc): (o: Outcome)
    requires i <= |box|
    ensures o.doc.next == d.next && o.doc.cells.Keys == d.cells.Keys && |o.doc.rows| == |d.rows|
    decreases |box| - i
  {
    if i >= |box| then Done(d)
    else match RemoveColumnSlot(box, i, j, d)
      case Thrown(e) => Thrown(e)
      case Done(e) => RemoveColumnRows(box, j, i + 1, e)
  }

  /** removeColumn(table, j). */
  function RemoveColumn(d: Doc, j: int): Outcome
  {
    RemoveColumnRows(FormalMatrix(d.rows, d.cells), j, 0, d)
  }

  /** The tree of `e` is that of `d` less some of the cells of `touched`. */
  ghost predicate TreeShrinks(d: Doc, e: Doc, touched: set<CellId>)
  {
    (forall y :: InTree(e.rows, y) ==> InTree(d.rows, y)) &&
    (forall y :: InTree(d.rows, y) && y !in touched ==> InTree(e.rows, y))
  }

  /** The records of `e` are those of `d`; only cells of `touched` may lose colspan. */
  ghost predicate RecordsNarrowed(d: Doc, e: Doc, touched: set<CellId>)
  {
    e.next == d.next && e.cells.Keys == d.cells.Keys &&
    forall c :: c in d.cells ==>
      e.cells[c] == d.cells[c].(colspan := e.cells[c].colspan) && ColSpan(e.cells[c]) <= ColSpan(d.cells[c]) &&
      (c !in touched ==> e.cells[c] == d.cells[c])
  }

  lemma RemoveColumnSlotEffect(box: Grid, i: nat, j: int, d: Doc)
    ensures var e := RemoveColumnSlot(box, i, j, d).doc;
            TreeShrinks(d, e, SlotIds([Get(box, i, j)])) && RecordsNarrowed(d, e, SlotIds([Get(box, i, j)]))
  {
    var e := RemoveColumnSlot(box, i, j, d).doc;
    match Get(box, i, j)
    case None =>
    case Some(c) =>
      assert SlotIds([Get(box, i, j)]) == {c};
      forall y | InTree(e.rows, y)
        ensures InTree(d.rows, y)
      {
        var k :| 0 <= k < |e.rows| && y in e.rows[k];
        assert y in d.rows[k];
      }
      forall y | InTree(d.rows, y) && y != c
        ensures InTree(e.rows, y)
      {
        var k :| 0 <= k < |d.rows| && y in d.rows[k];
        assert y in e.rows[k];
      }
  }

  lemma ShrinkChain(a: Doc, b: Doc, c: Doc, s: set<CellId>, t: set<CellId>)
    requires TreeShrinks(a, b, s) && TreeShrinks(b, c, t)
    ensures TreeShrinks(a, c, s + t)
  {
  }

  lemma NarrowChain(a: Doc, b: Doc, c: Doc, s: set<CellId>, t: set<CellId>)
    requires RecordsNarrowed(a, b, s) && RecordsNarrowed(b, c, t)
    ensures RecordsNarrowed(a, c, s + t)
  {
  }

  lemma {:induction false} RemoveColumnRowsEffect(box: Grid, j: int, i: nat, d: Doc)
    requires i <= |box|
    ensures var e := RemoveColumnRows(box, j, i, d).doc;
            TreeShrinks(d, e, ColumnIds(box, j, i)) && RecordsNarrowed(d, e, ColumnIds(box, j, i))
    decreases |box| - i
  {
    if i < |box| {
      RemoveColumnSlotEffect(box, i, j, d);
      match RemoveColumnSlot(box, i, j, d)
      case Thrown(e) =>
      case Done(e) =>
        var f := RemoveColumnRows(box, j, i + 1, e).doc;
        RemoveColumnRowsEffect(box, j, i + 1, e);
        ShrinkChain(d, e, f, SlotIds([Get(box, i, j)]), ColumnIds(box, j, i + 1));
        NarrowChain(d, e, f, SlotIds([Get(box, i, j)]), ColumnIds(box, j, i + 1));
    }
  }

  /**
   * removeColumn keeps the table closed and creates no cell. It removes from the tree only
   * cells of column `j`, and of the remaining records only those of column `j` change, in
   * their colspan alone, which does not grow.
   */
  lemma RemoveColumnEffect(d: Doc, j: int)
    requires Closed(d)
    ensures var o := RemoveColumn(d, j);
            var touched := ColumnIds(FormalMatrix(d.rows, d.cells), j, 0);
            Closed(o.doc) && TreeShrinks(d, o.doc, touched) && RecordsNarrowed(d, o.doc, touched)
  {
    var box := FormalMatrix(d.rows, d.cells);
    RemoveColumnRowsEffect(box, j, 0, d);
    var e := RemoveColumn(d, j).doc;
    forall i, c | 0 <= i < |e.rows| && c in e.rows[i]
      ensures c in e.cells
    {
      assert InTree(e.rows, c);
    }
  }

  /** One slot of removeColumn, after a predecessor slot that holds a cell, raises exactly at an empty slot. */
  lemma RemoveColumnSlotThrows(box: Grid, i: nat, j: int, d: Doc)
    requires i < |box| && (i == 0 || Get(box, i - 1, j).Some?)
    ensures RemoveColumnSlot(box, i, j, d).Thrown? <==> Get(box, i, j).None?
  {
  }

  /**
   * From a formal row whose predecessor (if any) holds a cell at column `j`, removeColumn's
   * loop throws exactly when a later slot of column `j` is empty: the first empty slot is
   * always fatal, whether its cell is removed or narrowed.
   */
  lemma {:induction false} RemoveColumnRowsThrows(box: Grid, j: int, i: nat, d: Doc)
    requires i <= |box| && (i == 0 || Get(box, i - 1, j).Some?)
    ensures RemoveColumnRows(box, j, i, d).Thrown? <==> exists k :: i <= k < |box| && Get(box, k, j).None?
    decreases |box| - i
  {
    if i < |box| {
      RemoveColumnSlotThrows(box, i, j, d);
      match RemoveColumnSlot(box, i, j, d)
      case Thrown(e) =>
      case Done(e) =>
        RemoveColumnRowsThrows(box, j, i + 1, e);
        if exists k :: i <= k < |box| && Get(box, k, j).None? {
          var k :| i <= k < |box| && Get(box, k, j).None?;
          assert k != i;
        }
    }
  }

  /** removeColumn raises an exception exactly when column `j` of the formal matrix has a hole. */
  lemma RemoveColumnThrows(d: Doc, j: int)
    ensures var box := FormalMatrix(d.rows, d.cells);
            RemoveColumn(d, j).Thrown? <==> exists k :: 0 <= k < |box| && Get(box, k, j).None?
  {
    RemoveColumnRowsThrows(FormalMatrix(d.rows, d.cells), j, 0, d);
  }

  // ---------------------------------------------------------------------------------------
  // removeColumn on a tiled table, cell by cell.

  /** The identities in column `j` of the formal rows before `i`. */
  function ColumnPrefix(box: Grid, j: int, i: nat): (s: set<CellId>)
    ensures forall c :: c in s <==> exists k :: 0 <= k < i && Get(box, k, j) == Some(c)
  {
    if i == 0 then {}
    else
      var s := ColumnPrefix(box, j, i - 1) + SlotIds([Get(box, i - 1, j)]);
      assert forall c :: c in s ==> exists k :: 0 <= k < i && Get(box, k, j) == Some(c);
      s
  }

  /** The rows before `i` and the rows from `i` on make up the whole column. */
  lemma {:induction false} ColumnSplit(box: Grid, j: int, i: nat)
    requires i <= |box|
    ensures ColumnPrefix(box, j, i) + ColumnIds(box, j, i) == ColumnIds(box, j, 0)
    decreases i
  {
    if i > 0 {
      ColumnSplit(box, j, i - 1);
    }
  }

  /**
   * The table after removeColumn's callbacks for the formal rows before `i`: every cell met
   * that spans one column is out of the tree, every cell met that spans more has lost one
   * column of span, and nothing else has changed.
   */
  ghost predicate ColumnStage(d: Doc, m: Grid, j: int, i: nat, e: Doc)
  {
    var met := ColumnPrefix(m, j, i);
    e.next == d.next && e.cells.Keys == d.cells.Keys && |e.rows| == |d.rows| &&
    (forall k | 0 <= k < |d.rows| :: var row, row2 := d.rows[k], e.rows[k];
       forall y :: y in row2 <==> y in row && !(y in met && ColSpanOf(d.cells, y) == 1)) &&
    (forall c | c in d.cells :: e.cells[c] == if c in met && ColSpanOf(d.cells, c) > 1 then NarrowCell(d.cells[c]) else d.cells[c])
  }

  /**
   * `e2` is `e` with the cell `c` dealt with: out of the tree when it spans one column,
   * narrowed by one column otherwise; nothing else changes.
   */
  ghost predicate ColumnStepTo(d: Doc, e: Doc, e2: Doc, c: CellId)
  {
    e2.next == e.next && e2.cells.Keys == e.cells.Keys && e.cells.Keys == d.cells.Keys &&
    |e2.rows| == |e.rows| && |e.rows| == |d.rows| &&
    (forall k | 0 <= k < |d.rows| :: var row, row2 := e.rows[k], e2.rows[k]; forall y :: y != c ==> (y in row2 <==> y in row)) &&
    (forall k | 0 <= k < |d.rows| :: c in e2.rows[k] <==> c in d.rows[k] && ColSpanOf(d.cells, c) != 1) &&
    (forall y | y in e.cells && y != c :: e2.cells[y] == e.cells[y]) &&
    (c in d.cells ==> e2.cells[c] == if ColSpanOf(d.cells, c) > 1 then NarrowCell(d.cells[c]) else d.cells[c])
  }

  /** Dealing with the cell of the next formal row, met for the first time, reaches the next stage. */
  lemma ColumnStageStep(d: Doc, m: Grid, j: int, i: nat, e: Doc, e2: Doc, c: CellId)
    requires ColumnStage(d, m, j, i, e) && Get(m, i, j) == Some(c) && c !in ColumnPrefix(m, j, i)
    requires ColumnStepTo(d, e, e2, c)
    ensures ColumnStage(d, m, j, i + 1, e2)
  {
    assert SlotIds([Get(m, i, j)]) == {c};
    assert ColumnPrefix(m, j, i + 1) == ColumnPrefix(m, j, i) + {c};
  }

  /** A formal row whose cell was met in an earlier row leaves the stage as it is. */
  lemma ColumnStageAgain(d: Doc, m: Grid, j: int, i: nat, e: Doc, c: CellId)
    requires ColumnStage(d, m, j, i, e) && Get(m, i, j) == Some(c) && c in ColumnPrefix(m, j, i)
    ensures ColumnStage(d, m, j, i + 1, e)
  {
    assert SlotIds([Get(m, i, j)]) == {c};
    assert ColumnPrefix(m, j, i + 1) == ColumnPrefix(m, j, i);
  }

  /**
   * What a tiled table's formal matrix says about the cell `c` of slot (i, j): the row `top`
   * its rectangle starts in is its only row, it spreads into a neighbouring column exactly
   * when it spans more than one, and the slot above holds it exactly when an earlier formal
   * row of the column does.
   */
  ghost predicate ColumnCell(d: Doc, m: Grid, i: nat, j: int, c: CellId, top: nat)
  {
    c in d.cells && top < |d.rows| && (forall k :: 0 <= k < |d.rows| ==> (c in d.rows[k] <==> k == top)) &&
    (Spreads(m, i, j) <==> ColSpanOf(d.cells, c) > 1) &&
    ((i >= 1 && Get(m, i - 1, j) == Some(c)) <==> c in ColumnPrefix(m, j, i)) &&
    !Undefined(m, i)
  }

  lemma ColumnFacts(d: Doc, i: nat, j: int) returns (top: nat)
    requires Closed(d) && Tiled(d.rows, d.cells) && Get(FormalMatrix(d.rows, d.cells), i, j).Some?
    ensures var m := FormalMatrix(d.rows, d.cells);
            ColumnCell(d, m, i, j, Get(m, i, j).value, top)
  {
    var m := FormalMatrix(d.rows, d.cells);
    var c := Get(m, i, j).value;
    TiledCell(d.rows, d.cells, i, j);
    var ps := Placements(d.rows);
    var p := Home(d.rows, c);
    top := ps[p].row;
    PlacementsInRows(d.rows, p);
    var left := Cols(ps, d.cells)[p];
    assert Covers(ps, d.cells, p, i, j);
    assert Get(m, i, j - 1) == Some(c) <==> Covers(ps, d.cells, p, i, j - 1);
    assert Get(m, i, j + 1) == Some(c) <==> Covers(ps, d.cells, p, i, j + 1);
    assert Get(m, i - 1, j) == Some(c) <==> Covers(ps, d.cells, p, i - 1, j);
    if ColSpanOf(d.cells, c) > 1 {
      if j + 1 < left + ColSpanOf(d.cells, c) {
        assert Covers(ps, d.cells, p, i, j + 1);
      } else {
        assert Covers(ps, d.cells, p, i, j - 1);
      }
    }
    if c in ColumnPrefix(m, j, i) {
      var k :| 0 <= k < i && Get(m, k, j) == Some(c);
      assert Covers(ps, d.cells, p, k, j);
      assert Covers(ps, d.cells, p, i - 1, j);
    }
  }

  /** A cell met in an earlier formal row: the callback changes nothing. */
  lemma ColumnAgain(d: Doc, m: Grid, i: nat, j: int, e: Doc, c: CellId, top: nat)
    requires ColumnStage(d, m, j, i, e) && Get(m, i, j) == Some(c) && ColumnCell(d, m, i, j, c, top)
    requires c in ColumnPrefix(m, j, i)
    ensures var o := RemoveColumnSlot(m, i, j, e);
            o.Done? ==> o.doc == e
  {
    if !Spreads(m, i, j) {
      forall k | 0 <= k < |e.rows|
        ensures c !in e.rows[k]
      {
        var row, row2 := d.rows[k], e.rows[k];
        assert c in row2 ==> c in row && !(c in ColumnPrefix(m, j, i) && ColSpanOf(d.cells, c) == 1);
      }
      DetachAbsent(e.rows, c);
    }
  }

  /** The first formal row of a cell that spans one column: it leaves the tree. */
  lemma ColumnFirstRemoved(d: Doc, m: Grid, i: nat, j: int, e: Doc, c: CellId, top: nat)
    requires ColumnStage(d, m, j, i, e) && Get(m, i, j) == Some(c) && ColumnCell(d, m, i, j, c, top)
    requires c !in ColumnPrefix(m, j, i) && ColSpanOf(d.cells, c) == 1
    ensures var o := RemoveColumnSlot(m, i, j, e);
            o.Done? ==> ColumnStepTo(d, e, o.doc, c)
  {
    assert e.cells[c] == d.cells[c];
    var e2 := e.(rows := Detach(e.rows, c));
    assert RemoveColumnSlot(m, i, j, e) == Done(e2);
  }

  /** The first formal row of a cell that spans several columns: it loses one. */
  lemma ColumnFirstNarrowed(d: Doc, m: Grid, i: nat, j: int, e: Doc, c: CellId, top: nat)
    requires ColumnStage(d, m, j, i, e) && Get(m, i, j) == Some(c) && ColumnCell(d, m, i, j, c, top)
    requires c !in ColumnPrefix(m, j, i) && ColSpanOf(d.cells, c) > 1
    ensures var o := RemoveColumnSlot(m, i, j, e);
            o.Done? ==> ColumnStepTo(d, e, o.doc, c)
  {
    assert e.cells[c] == d.cells[c];
    forall k | 0 <= k < |d.rows|
      ensures c in e.rows[k] <==> c in d.rows[k]
    {
      var row, row2 := d.rows[k], e.rows[k];
      assert c in row2 <==> c in row && !(c in ColumnPrefix(m, j, i) && ColSpanOf(d.cells, c) == 1);
    }
    SlotNarrows(m, i, j, e, c);
  }

  /** The first formal row of a cell that spreads over other columns narrows it and leaves the rows. */
  lemma SlotNarrows(m: Grid, i: nat, j: int, e: Doc, c: CellId)
    requires Get(m, i, j) == Some(c) && Spreads(m, i, j) && !(i >= 1 && Get(m, i - 1, j) == Some(c)) && c in e.cells
    ensures var o := RemoveColumnSlot(m, i, j, e);
            o.Done? ==> o.doc == Narrowed(e, c)
  {
  }

  /** One callback of removeColumn on a tiled table takes the table from a stage to the next. */
  lemma ColumnSlotStage(d: Doc, j: int, i: nat, e: Doc)
    requires Closed(d) && Tiled(d.rows, d.cells) && ColumnStage(d, FormalMatrix(d.rows, d.cells), j, i, e)
    ensures var m := FormalMatrix(d.rows, d.cells);
            var o := RemoveColumnSlot(m, i, j, e);
            o.Done? ==> ColumnStage(d, m, j, i + 1, o.doc)
  {
    var m := FormalMatrix(d.rows, d.cells);
    if Get(m, i, j).Some? {
      var c := Get(m, i, j).value;
      var top := ColumnFacts(d, i, j);
      var o := RemoveColumnSlot(m, i, j, e);
      if c in ColumnPrefix(m, j, i) {
        ColumnAgain(d, m, i, j, e, c, top);
        ColumnStageAgain(d, m, j, i, e, c);
      } else {
        if ColSpanOf(d.cells, c) == 1 {
          ColumnFirstRemoved(d, m, i, j, e, c, top);
        } else {
          ColumnFirstNarrowed(d, m, i, j, e, c, top);
        }
        if o.Done? {
          ColumnStageStep(d, m, j, i, e, o.doc, c);
        }
      }
    }
  }

  lemma {:induction false} ColumnSlotsStage(d: Doc, j: int, i: nat, e: Doc)
    requires Closed(d) && Tiled(d.rows, d.cells)
    requires i <= |FormalMatrix(d.rows, d.cells)| && ColumnStage(d, FormalMatrix(d.rows, d.cells), j, i, e)
    ensures var m := FormalMatrix(d.rows, d.cells);
            var o := RemoveColumnRows(m, j, i, e);
            o.Done? ==> ColumnStage(d, m, j, |m|, o.doc)
    decreases |FormalMatrix(d.rows, d.cells)| - i
  {
    var m := FormalMatrix(d.rows, d.cells);
    if i < |m| {
      ColumnSlotStage(d, j, i, e);
      var o1 := RemoveColumnSlot(m, i, j, e);
      if o1.Done? {
        ColumnSlotsStage(d, j, i + 1, o1.doc);
      }
    }
  }

  /**
   * removeColumn on a tiled table, when it completes: of the cells holding a slot of column
   * `j`, those one column wide leave the tree and the others lose one column of span, once
   * each, whatever their height; every other cell stays in its row with its attributes.
   */
  lemma RemoveColumnExact(d: Doc, j: int)
    requires Closed(d) && Tiled(d.rows, d.cells)
    ensures var o := RemoveColumn(d, j);
            var col := ColumnIds(FormalMatrix(d.rows, d.cells), j, 0);
            o.Done? ==>
              o.doc.next == d.next && o.doc.cells.Keys == d.cells.Keys && |o.doc.rows| == |d.rows| &&
              (forall k | 0 <= k < |d.rows| :: var row, row2 := d.rows[k], o.doc.rows[k];
                 forall y :: y in row2 <==> y in row && !(y in col && ColSpanOf(d.cells, y) == 1)) &&
              (forall c | c in d.cells :: o.doc.cells[c] == if c in col && ColSpanOf(d.cells, c) > 1 then NarrowCell(d.cells[c]) else d.cells[c])
  {
    var m := FormalMatrix(d.rows, d.cells);
    assert ColumnStage(d, m, j, 0, d);
    ColumnSlotsStage(d, j, 0, d);
    ColumnSplit(m, j, |m|);
    assert ColumnIds(m, j, |m|) == {};
  }
}

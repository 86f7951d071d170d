/**
 * The formal matrix of a table (Table.ts formalMatrix): a grid in which slot (i, j) holds the
 * cell that visually occupies formal row i and formal column j. Rows of the table are read top
 * to bottom and their cells left to right; each cell goes to the first free column of its row
 * and is copied into every slot of its rowSpan x colSpan rectangle. A slot no cell reaches is
 * empty (`None`), as in a broken table.
 */
module Matrix {
  import opened Wrappers
  import opened Cells

  type Slot = Option<CellId>
  type Grid = seq<seq<Slot>>

  /** A cell in document order together with the index of the row that holds it. */
  datatype Placement = Placement(id: CellId, row: nat)

  /** `box[i][j]`, with `undefined` (an index outside the grid or a hole) as `None`. */
  function Get(m: Grid, i: int, j: int): Slot
  {
    if 0 <= i < |m| && 0 <= j < |m[i]| then m[i][j] else None
  }

  /** `box[i]`, with a missing row read as an empty one. */
  function RowAt(m: Grid, i: int): seq<Slot>
  {
    if 0 <= i < |m| then m[i] else []
  }

  function ColSpanOf(cells: map<CellId, Cell>, id: CellId): (n: int)
    ensures n >= 1
  {
    if id in cells then ColSpan(cells[id]) else 1
  }

  function RowSpanOf(cells: map<CellId, Cell>, id: CellId): (n: int)
    ensures n >= 1
  {
    if id in cells then RowSpan(cells[id]) else 1
  }

  /** `while (matrix[i][currentColumn]) currentColumn += 1`: the first free index from `from` on. */
  function FirstFree(row: seq<Slot>, from: nat): (c: nat)
    requires from <= |row|
    ensures from <= c <= |row|
    ensures c == |row| || row[c].None?
    ensures forall k :: from <= k < c ==> row[k].Some?
    decreases |row| - from
  {
    if from < |row| && row[from].Some? then FirstFree(row, from + 1) else from
  }

  /** The formal column a cell placed into row `i` of `m` receives. */
  function FormalColumn(m: Grid, i: nat): nat
  {
    FirstFree(RowAt(m, i), 0)
  }

  /** `if (matrix[i] === undefined) matrix[i] = []`. */
  function EnsureRow(m: Grid, i: nat): (m': Grid)
    ensures |m'| == if i < |m| then |m| else i + 1
    decreases i + 1 - |m|
  {
    if i < |m| then m else EnsureRow(m + [[]], i)
  }

  /** Creating missing rows changes no slot, and row `i` is then the row read before. */
  lemma {:induction false} EnsureRowSlot(m: Grid, i: nat, k: int, x: int)
    ensures EnsureRow(m, i)[i] == RowAt(m, i)
    ensures Get(EnsureRow(m, i), k, x) == Get(m, k, x)
    decreases i + 1 - |m|
  {
    if i >= |m| {
      EnsureRowSlot(m + [[]], i, k, x);
    }
  }

  /** `row[j] = v` on a JavaScript array: indices between the old end and `j` become holes. */
  function PutRow(row: seq<Slot>, j: nat, v: Slot): (r: seq<Slot>)
    ensures |r| == if j < |row| then |row| else j + 1
    decreases j + 1 - |row|
  {
    if j < |row| then row[j := v] else PutRow(row + [None], j, v)
  }

  /** Slot `x` of the row after `row[j] = v`. */
  lemma {:induction false} PutRowSlot(row: seq<Slot>, j: nat, v: Slot, x: nat)
    ensures x < |PutRow(row, j, v)| ==> PutRow(row, j, v)[x] == if x == j then v else if x < |row| then row[x] else None
    decreases j + 1 - |row|
  {
    if j >= |row| {
      PutRowSlot(row + [None], j, v, x);
    }
  }

  /** `matrix[i][j] = v`. */
  function Put(m: Grid, i: nat, j: nat, v: Slot): (m': Grid)
    requires i < |m|
    ensures |m'| == |m|
  {
    m[i := PutRow(m[i], j, v)]
  }

  /** After `matrix[i][j] = v` slot (i, j) reads `v` and every other slot is unchanged. */
  lemma PutSlot(m: Grid, i: nat, j: nat, v: Slot, k: int, x: int)
    requires i < |m|
    ensures Get(Put(m, i, j, v), k, x) == if k == i && x == j then v else Get(m, k, x)
  {
    if x >= 0 {
      PutRowSlot(m[i], j, v, x);
    }
  }

  /** The inner loop of setCell: columns `col + c` to `col + cs - 1` of row `i` get `id`. */
  function StampCols(m: Grid, id: CellId, i: nat, col: nat, c: nat, cs: nat): (m': Grid)
    requires i < |m|
    ensures |m'| == |m|
    decreases cs - c
  {
    if c >= cs then m else StampCols(Put(m, i, col + c, Some(id)), id, i, col, c + 1, cs)
  }

  lemma {:induction false} StampColsSlot(m: Grid, id: CellId, i: nat, col: nat, c: nat, cs: nat, k: int, x: int)
    requires i < |m|
    ensures Get(StampCols(m, id, i, col, c, cs), k, x) == if k == i && col + c <= x < col + cs then Some(id) else Get(m, k, x)
    decreases cs - c
  {
    if c < cs {
      StampColsSlot(Put(m, i, col + c, Some(id)), id, i, col, c + 1, cs, k, x);
      PutSlot(m, i, col + c, Some(id), k, x);
    }
  }

  /** The outer loop of setCell: rows `i + r` to `i + rs - 1` get columns `col` to `col + cs - 1`. */
  function StampRows(m: Grid, id: CellId, i: nat, col: nat, r: nat, cs: nat, rs: nat): (m': Grid)
    ensures |m'| == if r < rs && |m| < i + rs then i + rs else |m|
    decreases rs - r
  {
    if r >= rs then m
    else StampRows(StampCols(EnsureRow(m, i + r), id, i + r, col, 0, cs), id, i, col, r + 1, cs, rs)
  }

  lemma {:induction false} StampRowsSlot(m: Grid, id: CellId, i: nat, col: nat, r: nat, cs: nat, rs: nat, k: int, x: int)
    ensures Get(StampRows(m, id, i, col, r, cs, rs), k, x) ==
            if i + r <= k < i + rs && col <= x < col + cs then Some(id) else Get(m, k, x)
    decreases rs - r
  {
    if r < rs {
      var m1 := EnsureRow(m, i + r);
      var m2 := StampCols(m1, id, i + r, col, 0, cs);
      StampRowsSlot(m2, id, i, col, r + 1, cs, rs, k, x);
      StampColsSlot(m1, id, i + r, col, 0, cs, k, x);
      EnsureRowSlot(m, i + r, k, x);
    }
  }

  /** Slot (k, x) lies in the block of `rs` rows from `top` and `cs` columns from `left`. */
  predicate InBlock(top: int, left: int, rs: int, cs: int, k: int, x: int)
  {
    top <= k < top + rs && left <= x < left + cs
  }

  /** setCell(cell, i): the cell's rectangle is stamped from the first free column of row `i`. */
  function SetCell(m: Grid, cells: map<CellId, Cell>, p: Placement): (m': Grid)
    ensures |m'| == if |m| < p.row + RowSpanOf(cells, p.id) then p.row + RowSpanOf(cells, p.id) else |m|
  {
    var m1 := EnsureRow(m, p.row);
    StampRows(m1, p.id, p.row, FirstFree(m1[p.row], 0), 0, ColSpanOf(cells, p.id), RowSpanOf(cells, p.id))
  }

  /**
   * After setCell every slot of the cell's rectangle, from the first free column of its row,
   * holds the cell, and every other slot keeps its value.
   */
  lemma SetCellSlot(m: Grid, cells: map<CellId, Cell>, p: Placement, k: int, x: int)
    ensures Get(SetCell(m, cells, p), k, x) ==
            if InBlock(p.row, FormalColumn(m, p.row), RowSpanOf(cells, p.id), ColSpanOf(cells, p.id), k, x)
            then Some(p.id) else Get(m, k, x)
  {
    var m1 := EnsureRow(m, p.row);
    EnsureRowSlot(m, p.row, k, x);
    StampRowsSlot(m1, p.id, p.row, FirstFree(m1[p.row], 0), 0, ColSpanOf(cells, p.id), RowSpanOf(cells, p.id), k, x);
  }

  /** The cells of one row, in order, as placements. */
  function RowPlacements(cells: seq<CellId>, i: nat): (ps: seq<Placement>)
    ensures |ps| == |cells|
    ensures forall k :: 0 <= k < |ps| ==> ps[k] == Placement(cells[k], i)
  {
    seq(|cells|, k requires 0 <= k < |cells| => Placement(cells[k], i))
  }

  /** All cells of the table in document order: rows top to bottom, cells left to right. */
  function Placements(rows: seq<seq<CellId>>): seq<Placement>
  {
    if |rows| == 0 then [] else Placements(rows[..|rows| - 1]) + RowPlacements(rows[|rows| - 1], |rows| - 1)
  }

  /** The matrix after placing `ps` one after another, starting from `[[]]`. */
  function Build(ps: seq<Placement>, cells: map<CellId, Cell>): Grid
  {
    if |ps| == 0 then [[]] else SetCell(Build(ps[..|ps| - 1], cells), cells, ps[|ps| - 1])
  }

  /** The formal column each placement of `ps` receives. */
  function Cols(ps: seq<Placement>, cells: map<CellId, Cell>): (cols: seq<nat>)
    ensures |cols| == |ps|
  {
    if |ps| == 0 then []
    else Cols(ps[..|ps| - 1], cells) + [FormalColumn(Build(ps[..|ps| - 1], cells), ps[|ps| - 1].row)]
  }

  /** Table.formalMatrix without a callback. */
  function FormalMatrix(rows: seq<seq<CellId>>, cells: map<CellId, Cell>): Grid
  {
    Build(Placements(rows), cells)
  }

  /** Every identity in the formal matrix is that of a cell in one of the rows. */
  lemma FormalSlotPlaced(rows: seq<seq<CellId>>, cells: map<CellId, Cell>, k: int, x: int)
    requires Get(FormalMatrix(rows, cells), k, x).Some?
    ensures exists i :: 0 <= i < |rows| && Get(FormalMatrix(rows, cells), k, x).value in rows[i]
  {
    var ps := Placements(rows);
    BuildSlot(ps, cells, k, x);
    var p := LastCover(ps, cells, k, x);
    PlacementsInRows(rows, p);
  }

  /** Placement `p` of `ps` stamps slot (k, x). */
  predicate Covers(ps: seq<Placement>, cells: map<CellId, Cell>, p: nat, k: int, x: int)
    requires p < |ps|
  {
    InBlock(ps[p].row, Cols(ps, cells)[p], RowSpanOf(cells, ps[p].id), ColSpanOf(cells, ps[p].id), k, x)
  }

  lemma PlaceSnoc(ps: seq<Placement>, p: Placement, cells: map<CellId, Cell>)
    ensures Build(ps + [p], cells) == SetCell(Build(ps, cells), cells, p)
    ensures Cols(ps + [p], cells) == Cols(ps, cells) + [FormalColumn(Build(ps, cells), p.row)]
  {
    assert (ps + [p])[..|ps|] == ps;
  }

  lemma PlacementsSnoc(rows: seq<seq<CellId>>, i: nat)
    requires i < |rows|
    ensures Placements(rows[..i + 1]) == Placements(rows[..i]) + RowPlacements(rows[i], i)
  {
    assert rows[..i + 1][..i] == rows[..i];
  }

  lemma RowPlacementsSnoc(cells: seq<CellId>, i: nat, k: nat)
    requires k < |cells|
    ensures RowPlacements(cells[..k + 1], i) == RowPlacements(cells[..k], i) + [Placement(cells[k], i)]
  {
  }

  /** The placements of rows `0..i-1` followed by those of the first `k` cells of row `i`. */
  function PrefixPlacements(rows: seq<seq<CellId>>, i: nat, k: nat): seq<Placement>
    requires i < |rows| && k <= |rows[i]|
  {
    Placements(rows[..i]) + RowPlacements(rows[i][..k], i)
  }

  lemma PrefixSnoc(rows: seq<seq<CellId>>, i: nat, k: nat)
    requires i < |rows| && k < |rows[i]|
    ensures PrefixPlacements(rows, i, k + 1) == PrefixPlacements(rows, i, k) + [Placement(rows[i][k], i)]
  {
    RowPlacementsSnoc(rows[i], i, k);
  }

  /** One more cell of row `i` is placed. */
  lemma BuildStep(rows: seq<seq<CellId>>, cells: map<CellId, Cell>, i: nat, k: nat)
    requires i < |rows| && k < |rows[i]|
    ensures PrefixPlacements(rows, i, k + 1) == PrefixPlacements(rows, i, k) + [Placement(rows[i][k], i)]
    ensures Build(PrefixPlacements(rows, i, k + 1), cells) ==
            SetCell(Build(PrefixPlacements(rows, i, k), cells), cells, Placement(rows[i][k], i))
  {
    PrefixSnoc(rows, i, k);
    var y := PrefixPlacements(rows, i, k + 1);
    assert y[..|y| - 1] == PrefixPlacements(rows, i, k);
  }

  /** Row `i` complete is the same as row `i + 1` (or the whole table) not yet begun. */
  lemma RowDone(rows: seq<seq<CellId>>, i: nat)
    requires i < |rows|
    ensures PrefixPlacements(rows, i, |rows[i]|) == Placements(rows[..i + 1])
    ensures i == 0 ==> PrefixPlacements(rows, i, 0) == []
    ensures PrefixPlacements(rows, i, 0) == Placements(rows[..i])
  {
    PlacementsSnoc(rows, i);
    assert rows[i][..|rows[i]|] == rows[i];
    assert rows[i][..0] == [];
  }

  /** The placements of the first rows come first, followed by those of row `i`. */
  lemma {:induction false} PlacementsPrefix(rows: seq<seq<CellId>>, i: nat)
    requires i < |rows|
    ensures Placements(rows[..i]) + RowPlacements(rows[i], i) <= Placements(rows)
    decreases |rows|
  {
    var n := |rows| - 1;
    if i == n {
      assert rows[..n] == rows[..i];
    } else {
      PlacementsPrefix(rows[..n], i);
      assert rows[..n][..i] == rows[..i];
      assert rows[..n][i] == rows[i];
    }
  }

  /** A prefix of the scan is a prefix of all placements. */
  lemma PrefixWithin(rows: seq<seq<CellId>>, i: nat, k: nat)
    requires i < |rows| && k <= |rows[i]|
    ensures PrefixPlacements(rows, i, k) <= Placements(rows)
  {
    PlacementsPrefix(rows, i);
    assert RowPlacements(rows[i][..k], i) <= RowPlacements(rows[i], i);
  }

  /** Every placement names a cell of the row it records. */
  lemma {:induction false} PlacementsInRows(rows: seq<seq<CellId>>, p: nat)
    requires p < |Placements(rows)|
    ensures Placements(rows)[p].row < |rows|
    ensures Placements(rows)[p].id in rows[Placements(rows)[p].row]
  {
    var n := |rows| - 1;
    var front := Placements(rows[..n]);
    if p >= |front| {
      assert Placements(rows)[p] == Placement(rows[n][p - |front|], n);
    } else {
      PlacementsInRows(rows[..n], p);
      assert Placements(rows)[p] == front[p];
    }
  }

  /** The last placement of `ps` that covers slot (k, x), or -1 when none does. */
  function LastCover(ps: seq<Placement>, cells: map<CellId, Cell>, k: int, x: int): (p: int)
    ensures -1 <= p < |ps|
    ensures p >= 0 ==> Covers(ps, cells, p, k, x)
    ensures forall q :: p < q < |ps| ==> !Covers(ps, cells, q, k, x)
  {
    LastCoverFrom(ps, cells, |ps|, k, x)
  }

  /** The last placement before `n` that covers slot (k, x), or -1. */
  function LastCoverFrom(ps: seq<Placement>, cells: map<CellId, Cell>, n: nat, k: int, x: int): (p: int)
    requires n <= |ps|
    ensures -1 <= p < n
    ensures p >= 0 ==> Covers(ps, cells, p, k, x)
    ensures forall q :: p < q < n ==> !Covers(ps, cells, q, k, x)
  {
    if n == 0 then -1 else if Covers(ps, cells, n - 1, k, x) then n - 1 else LastCoverFrom(ps, cells, n - 1, k, x)
  }

  /**
   * What the matrix holds: slot (k, x) holds the cell of the last placement whose rectangle
   * covers it, and is empty when none does (a later cell overwrites an earlier one where their
   * rectangles overlap, as the assignments in setCell do).
   */
  lemma {:induction false} BuildSlot(ps: seq<Placement>, cells: map<CellId, Cell>, k: int, x: int)
    ensures Get(Build(ps, cells), k, x) == var p := LastCover(ps, cells, k, x); if p < 0 then None else Some(ps[p].id)
  {
    if |ps| > 0 {
      var n := |ps| - 1;
      var front := ps[..n];
      BuildSlot(front, cells, k, x);
      BuildLast(ps, cells, k, x);
      if !Covers(ps, cells, n, k, x) {
        LastCoverFront(ps, cells, k, x);
      }
    }
  }

  /** Removing a last placement that does not cover the slot leaves its last cover unchanged. */
  lemma LastCoverFront(ps: seq<Placement>, cells: map<CellId, Cell>, k: int, x: int)
    requires |ps| > 0 && !Covers(ps, cells, |ps| - 1, k, x)
    ensures LastCover(ps, cells, k, x) == LastCover(ps[..|ps| - 1], cells, k, x)
  {
    var n := |ps| - 1;
    var front := ps[..n];
    forall q | 0 <= q < n
      ensures Covers(ps, cells, q, k, x) == Covers(front, cells, q, k, x)
    {
      CoversFront(ps, cells, q, k, x);
    }
  }

  /** A placement before the last covers the same slots whether or not the last one is placed. */
  lemma CoversFront(ps: seq<Placement>, cells: map<CellId, Cell>, p: nat, k: int, x: int)
    requires p + 1 < |ps|
    ensures Covers(ps, cells, p, k, x) == Covers(ps[..|ps| - 1], cells, p, k, x)
  {
    var front := ps[..|ps| - 1];
    assert Cols(ps, cells)[p] == Cols(front, cells)[p];
  }

  /** The last placement stamps its block over the matrix of those before it. */
  lemma BuildLast(ps: seq<Placement>, cells: map<CellId, Cell>, k: int, x: int)
    requires |ps| > 0
    ensures var n := |ps| - 1;
            Get(Build(ps, cells), k, x) == if Covers(ps, cells, n, k, x) then Some(ps[n].id) else Get(Build(ps[..n], cells), k, x)
  {
    var n := |ps| - 1;
    var front := ps[..n];
    SetCellSlot(Build(front, cells), cells, ps[n], k, x);
  }

  /** The column recorded for placement `p` is the first free column of its row when it was placed. */
  lemma {:induction false} PlaceCols(ps: seq<Placement>, cells: map<CellId, Cell>, p: nat)
    requires p < |ps|
    ensures Cols(ps, cells)[p] == FormalColumn(Build(ps[..p], cells), ps[p].row)
  {
    ColsPrefix(ps, cells, p + 1, p);
    var q := ps[..p + 1];
    assert q[..p] == ps[..p];
  }

  /** Cutting the placements after `p` off does not change the column of `p`. */
  lemma {:induction false} ColsPrefix(ps: seq<Placement>, cells: map<CellId, Cell>, q: nat, p: nat)
    requires p < q <= |ps|
    ensures Cols(ps[..q], cells)[p] == Cols(ps, cells)[p]
    decreases |ps| - q
  {
    if q < |ps| {
      ColsPrefix(ps, cells, q + 1, p);
      ColsFront(ps[..q + 1], cells, p);
      assert ps[..q + 1][..q] == ps[..q];
    } else {
      assert ps[..q] == ps;
    }
  }

  /** Placing a further cell does not move the ones placed before it. */
  lemma ColsFront(ps: seq<Placement>, cells: map<CellId, Cell>, p: nat)
    requires p + 1 < |ps|
    ensures Cols(ps, cells)[p] == Cols(ps[..|ps| - 1], cells)[p]
  {
  }

  /** The matrix reaches down to the last row of every placed cell. */
  lemma {:induction false} BuildHeight(ps: seq<Placement>, cells: map<CellId, Cell>, p: nat)
    requires p < |ps|
    ensures ps[p].row + RowSpanOf(cells, ps[p].id) <= |Build(ps, cells)|
  {
    var n := |ps| - 1;
    var front := ps[..n];
    assert ps == front + [ps[n]];
    PlaceSnoc(front, ps[n], cells);
    if p < n {
      BuildHeight(front, cells, p);
    }
  }

  /**
   * `getColumnsCount`: `matrix.reduce((max, cells) => Math.max(max, cells.length), 0)`, the
   * length of the longest matrix row (0 for no rows).
   */
  function Width(m: Grid): (w: nat)
    ensures forall i :: 0 <= i < |m| ==> |m[i]| <= w
    ensures if |m| == 0 then w == 0 else exists i :: 0 <= i < |m| && |m[i]| == w
  {
    if |m| == 0 then 0
    else
      var w := Width(m[..|m| - 1]);
      assert forall i :: 0 <= i < |m| - 1 ==> m[..|m| - 1][i] == m[i];
      if w < |m[|m| - 1]| then |m[|m| - 1]| else w
  }

  /** One more row of a prefix: the width grows to that row's length when it is longer. */
  lemma WidthSnoc(m: Grid, i: nat)
    requires i < |m|
    ensures Width(m[..i + 1]) == if Width(m[..i]) < |m[i]| then |m[i]| else Width(m[..i])
  {
    assert m[..i + 1][..i] == m[..i];
  }

  /**
   * `box[i] === undefined`: the source's matrix starts as `[[]]` and setCell creates a row only
   * to write a cell into it, so a row past the first is missing exactly when no cell reaches it,
   * and `matrix[i] = []` past the end leaves the rows in between undefined. The model keeps
   * such a row as an empty one; a row past the first that a cell reaches is never empty.
   */
  predicate Undefined(m: Grid, i: int)
  {
    0 < i < |m| && |m[i]| == 0
  }

  /** Some row of the matrix is undefined: reading its length throws a TypeError. */
  predicate Broken(m: Grid)
  {
    exists i | 0 <= i < |m| :: Undefined(m, i)
  }

  /** Creating missing rows keeps the rows there were and adds empty ones. */
  lemma {:induction false} EnsureRowRow(m: Grid, i: nat, k: nat)
    requires k < |EnsureRow(m, i)|
    ensures EnsureRow(m, i)[k] == if k < |m| then m[k] else []
    decreases i + 1 - |m|
  {
    if i >= |m| {
      EnsureRowRow(m + [[]], i, k);
    }
  }

  /** The stamps of setCell's inner loop touch row `i` only. */
  lemma {:induction false} StampColsRow(m: Grid, id: CellId, i: nat, col: nat, c: nat, cs: nat, k: nat)
    requires i < |m| && k < |m| && k != i
    ensures StampCols(m, id, i, col, c, cs)[k] == m[k]
    decreases cs - c
  {
    if c < cs {
      StampColsRow(Put(m, i, col + c, Some(id)), id, i, col, c + 1, cs, k);
    }
  }

  /** The stamps of setCell's outer loop touch the rows of the block only, and add no row before it. */
  lemma {:induction false} StampRowsRow(m: Grid, id: CellId, i: nat, col: nat, r: nat, cs: nat, rs: nat, k: nat)
    requires i + r <= |m| && k < |StampRows(m, id, i, col, r, cs, rs)|
    requires !(i + r <= k < i + rs)
    ensures k < |m| && StampRows(m, id, i, col, r, cs, rs)[k] == m[k]
    decreases rs - r
  {
    if r < rs {
      var m1 := EnsureRow(m, i + r);
      var m2 := StampCols(m1, id, i + r, col, 0, cs);
      StampRowsRow(m2, id, i, col, r + 1, cs, rs, k);
      StampColsRow(m1, id, i + r, col, 0, cs, k);
      EnsureRowRow(m, i + r, k);
    }
  }

  /** The rows of the placements never go up. */
  ghost predicate InRowOrder(ps: seq<Placement>)
  {
    forall a, b :: 0 <= a < b < |ps| ==> ps[a].row <= ps[b].row
  }

  /**
   * An undefined row of the matrix lies above the row of the last placement, and no placement
   * is in it.
   */
  lemma {:induction false} BuildUndefined(ps: seq<Placement>, cells: map<CellId, Cell>, k: int)
    requires InRowOrder(ps) && Undefined(Build(ps, cells), k)
    ensures |ps| > 0 && k < ps[|ps| - 1].row
    ensures forall q :: 0 <= q < |ps| ==> ps[q].row != k
  {
    var n := |ps| - 1;
    var front := ps[..n];
    var p := ps[n];
    var m0 := Build(front, cells);
    var m1 := EnsureRow(m0, p.row);
    var col := FirstFree(m1[p.row], 0);
    var cs, rs := ColSpanOf(cells, p.id), RowSpanOf(cells, p.id);
    assert Build(ps, cells) == SetCell(m0, cells, p);
    EnsureRowSlot(m0, p.row, 0, 0);
    if p.row <= k < p.row + rs {
      SetCellSlot(m0, cells, p, k, col);
      assert false;
    }
    StampRowsRow(m1, p.id, p.row, col, 0, cs, rs, k);
    EnsureRowRow(m0, p.row, k);
    if k < |m0| {
      BuildUndefined(front, cells, k);
    } else {
      forall q | 0 <= q < n
        ensures ps[q].row != k
      {
        BuildHeight(front, cells, q);
      }
    }
  }

  /** The cells of the table come row by row. */
  lemma {:induction false} PlacementsInRowOrder(rows: seq<seq<CellId>>)
    ensures InRowOrder(Placements(rows))
  {
    if |rows| > 0 {
      var n := |rows| - 1;
      var front := Placements(rows[..n]);
      PlacementsInRowOrder(rows[..n]);
      forall a | 0 <= a < |front|
        ensures front[a].row < n
      {
        PlacementsInRows(rows[..n], a);
      }
    }
  }

  /**
   * A row of the formal matrix is undefined only where the table has a row without cells
   * that no cell above it reaches into.
   */
  lemma FormalUndefined(rows: seq<seq<CellId>>, cells: map<CellId, Cell>, k: int)
    requires Undefined(FormalMatrix(rows, cells), k)
    ensures k < |rows| && rows[k] == []
  {
    var ps := Placements(rows);
    PlacementsInRowOrder(rows);
    BuildUndefined(ps, cells, k);
    PlacementsInRows(rows, |ps| - 1);
    RowPlaced(rows, k);
  }

  /** A row with a cell has a placement. */
  lemma RowPlaced(rows: seq<seq<CellId>>, k: nat)
    requires k < |rows|
    ensures rows[k] == [] || exists q :: 0 <= q < |Placements(rows)| && Placements(rows)[q].row == k
  {
    if rows[k] != [] {
      PlacementsPrefix(rows, k);
      var q := |Placements(rows[..k])|;
      assert Placements(rows)[q] == Placement(rows[k][0], k);
    }
  }

  /** A table whose every row past the first holds a cell has no undefined matrix row. */
  lemma FilledRowsDefined(rows: seq<seq<CellId>>, cells: map<CellId, Cell>)
    requires forall i :: 0 < i < |rows| ==> rows[i] != []
    ensures !Broken(FormalMatrix(rows, cells))
  {
    if Broken(FormalMatrix(rows, cells)) {
      var k :| Undefined(FormalMatrix(rows, cells), k);
      FormalUndefined(rows, cells, k);
    }
  }

  /**
   * The table is tiled: no cell element occurs twice, and no two cells' rectangles share a
   * slot of the formal matrix, as in every table whose spans fit together.
   */
  ghost predicate Tiled(rows: seq<seq<CellId>>, cells: map<CellId, Cell>)
  {
    var ps := Placements(rows);
    (forall a, b | 0 <= a < b < |ps| :: ps[a].id != ps[b].id) &&
    (forall a, b, k: int, x: int | 0 <= a < b < |ps| && Covers(ps, cells, a, k, x) :: !Covers(ps, cells, b, k, x))
  }

  /** The `k`-th cell of row `i` is the placement after those of the rows above and of the cells before it. */
  lemma PlacedAt(rows: seq<seq<CellId>>, i: nat, k: nat)
    requires i < |rows| && k < |rows[i]|
    ensures |Placements(rows[..i])| + k < |Placements(rows)|
    ensures Placements(rows)[|Placements(rows[..i])| + k] == Placement(rows[i][k], i)
  {
    PlacementsPrefix(rows, i);
  }

  /** The last placement before `n` of cell `c`, or -1. */
  function LastPlacement(ps: seq<Placement>, c: CellId, n: nat): (p: int)
    requires n <= |ps|
    ensures -1 <= p < n
    ensures p >= 0 ==> ps[p].id == c
    ensures p < 0 ==> forall q :: 0 <= q < n ==> ps[q].id != c
  {
    if n == 0 then -1 else if ps[n - 1].id == c then n - 1 else LastPlacement(ps, c, n - 1)
  }

  /** The placement of cell `c` (-1 when it is not in the tree). */
  function Home(rows: seq<seq<CellId>>, c: CellId): (p: int)
    ensures -1 <= p < |Placements(rows)|
    ensures p >= 0 ==> Placements(rows)[p].id == c
  {
    LastPlacement(Placements(rows), c, |Placements(rows)|)
  }

  /** In a tiled table two placements of the same cell are one. */
  lemma TiledSame(rows: seq<seq<CellId>>, cells: map<CellId, Cell>, a: nat, b: nat)
    requires Tiled(rows, cells) && a < |Placements(rows)| && b < |Placements(rows)|
    requires Placements(rows)[a].id == Placements(rows)[b].id
    ensures a == b
  {
  }

  /** A cell of the tree has a placement. */
  lemma HomeFound(rows: seq<seq<CellId>>, c: CellId)
    requires exists i :: 0 <= i < |rows| && c in rows[i]
    ensures Home(rows, c) >= 0
  {
    var i :| 0 <= i < |rows| && c in rows[i];
    var k :| 0 <= k < |rows[i]| && rows[i][k] == c;
    PlacedAt(rows, i, k);
  }

  /** In a tiled table the row of a cell's placement is the only row that holds it. */
  lemma TiledRows(rows: seq<seq<CellId>>, cells: map<CellId, Cell>, c: CellId)
    requires Tiled(rows, cells) && exists i :: 0 <= i < |rows| && c in rows[i]
    ensures Home(rows, c) >= 0
    ensures forall i :: 0 <= i < |rows| ==> (c in rows[i] <==> i == Placements(rows)[Home(rows, c)].row)
  {
    HomeFound(rows, c);
    var p := Home(rows, c);
    PlacementsInRows(rows, p);
    forall i | 0 <= i < |rows| && c in rows[i]
      ensures i == Placements(rows)[p].row
    {
      var k :| 0 <= k < |rows[i]| && rows[i][k] == c;
      PlacedAt(rows, i, k);
      TiledSame(rows, cells, |Placements(rows[..i])| + k, p);
    }
  }

  /**
   * In a tiled table a slot of the formal matrix holds a cell exactly when the cell's
   * rectangle covers it.
   */
  lemma TiledSlot(rows: seq<seq<CellId>>, cells: map<CellId, Cell>, p: nat, k: int, x: int)
    requires Tiled(rows, cells) && p < |Placements(rows)|
    ensures Get(FormalMatrix(rows, cells), k, x) == Some(Placements(rows)[p].id) <==> Covers(Placements(rows), cells, p, k, x)
  {
    var ps := Placements(rows);
    BuildSlot(ps, cells, k, x);
  }

  /**
   * In a tiled table the cell of an occupied slot has a placement whose row is the only row
   * holding the cell, and the slots holding the cell are exactly those its rectangle covers.
   */
  lemma TiledCell(rows: seq<seq<CellId>>, cells: map<CellId, Cell>, k: int, x: int)
    requires Tiled(rows, cells) && Get(FormalMatrix(rows, cells), k, x).Some?
    ensures var c := Get(FormalMatrix(rows, cells), k, x).value;
            var p := Home(rows, c);
            p >= 0 && (forall i :: 0 <= i < |rows| ==> (c in rows[i] <==> i == Placements(rows)[p].row)) &&
            forall k', x' :: Get(FormalMatrix(rows, cells), k', x') == Some(c) <==> Covers(Placements(rows), cells, p, k', x')
  {
    var c := Get(FormalMatrix(rows, cells), k, x).value;
    FormalSlotPlaced(rows, cells, k, x);
    TiledRows(rows, cells, c);
    var p := Home(rows, c);
    forall k', x'
      ensures Get(FormalMatrix(rows, cells), k', x') == Some(c) <==> Covers(Placements(rows), cells, p, k', x')
    {
      TiledSlot(rows, cells, p, k', x');
    }
  }

  /** The identities held by the slots of `row`. */
  function SlotIds(row: seq<Slot>): (r: set<CellId>)
    ensures forall c :: c in r <==> Some(c) in row
  {
    if |row| == 0 then {}
    else (if row[0].Some? then {row[0].value} else {}) + SlotIds(row[1..])
  }
}

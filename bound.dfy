/**
 * Table.getSelectedBound: the rectangle of formal rows and columns a selection occupies. A
 * first pass takes the smallest rectangle around the matrix slots that hold a selected cell;
 * a second pass walks from every slot of the rectangle left, right, up and down over the slots
 * that hold the same cell and widens the rectangle to include them.
 */
module Bounds {
  import opened Wrappers
  import opened Cells
  import opened Matrix

  /**
   * `[[top, left], [bottom, right]]`; the initial `[[Infinity, Infinity], [0, 0]]`, which
   * the source returns when no slot is selected, is `NoSelection`.
   */
  datatype Bound = NoSelection | Rect(top: int, left: int, bottom: int, right: int)

  function Min(a: int, b: int): int { if a < b then a else b }
  function Max(a: int, b: int): int { if a < b then b else a }

  /** `selectedCells.indexOf(box[i][j]) !== -1` (an empty slot is never selected). */
  predicate Selected(m: Grid, sel: seq<CellId>, i: int, j: int)
  {
    Get(m, i, j).Some? && Get(m, i, j).value in sel
  }

  predicate InRect(b: Bound, i: int, j: int)
  {
    b.Rect? && b.top <= i <= b.bottom && b.left <= j <= b.right
  }

  /** The rectangle lies inside the matrix: its rows exist and its columns are below the widest row. */
  predicate Within(m: Grid, b: Bound)
  {
    b.Rect? && 0 <= b.top <= b.bottom < |m| && 0 <= b.left <= b.right < Width(m)
  }

  /** `r` contains `b`. */
  predicate Grows(b: Bound, r: Bound)
  {
    b.Rect? && r.Rect? && r.top <= b.top && r.left <= b.left && b.bottom <= r.bottom && b.right <= r.right
  }

  /** The four `Math.min`/`Math.max` updates of the first pass for a selected slot (i, j). */
  function Include(b: Bound, i: int, j: int): (r: Bound)
    ensures r.Rect? && InRect(r, i, j)
    ensures b.Rect? ==> Grows(b, r)
  {
    match b
    case NoSelection => Rect(i, j, i, j)
    case Rect(t, l, bo, ri) => Rect(Min(t, i), Min(l, j), Max(bo, i), Max(ri, j))
  }

  /** The first pass over row `i` from column `j` on. */
  function FirstPassRow(m: Grid, sel: seq<CellId>, i: nat, j: nat, b: Bound): (r: Bound)
    requires i < |m| && j <= |m[i]|
    requires b.Rect? ==> Within(m, b)
    ensures r.Rect? ==> Within(m, r)
    decreases |m[i]| - j
  {
    if j == |m[i]| then b
    else FirstPassRow(m, sel, i, j + 1, if Selected(m, sel, i, j) then Include(b, i, j) else b)
  }

  /** The first pass from row `i` on. */
  function FirstPass(m: Grid, sel: seq<CellId>, i: nat, b: Bound): (r: Bound)
    requires i <= |m|
    requires b.Rect? ==> Within(m, b)
    ensures r.Rect? ==> Within(m, r)
    decreases |m| - i
  {
    if i == |m| then b else FirstPass(m, sel, i + 1, FirstPassRow(m, sel, i, 0, b))
  }

  /** The smallest rectangle around the selected slots, as the first pass computes it. */
  function Enclosing(m: Grid, sel: seq<CellId>): (r: Bound)
    ensures r.Rect? ==> Within(m, r)
  {
    FirstPass(m, sel, 0, NoSelection)
  }

  /** `box[i][x] && box[i][j] === box[i][x]`. */
  predicate SameInRow(m: Grid, i: int, j: int, x: int)
  {
    Get(m, i, x).Some? && Get(m, i, j) == Get(m, i, x)
  }

  /** `box[y] && box[i][j] === box[y][j]`: row `y` exists, and two empty slots count as equal. */
  predicate SameInColumn(m: Grid, i: int, j: int, y: int)
  {
    0 <= y < |m| && Get(m, i, j) == Get(m, y, j)
  }

  /**
   * Each side a walk along row `i` moves goes to a column whose slot holds the cell of slot
   * (i, j).
   */
  predicate RowReach(m: Grid, i: int, j: int, b: Bound, r: Bound)
    requires b.Rect? && r.Rect?
  {
    (r.left == b.left || SameInRow(m, i, j, r.left)) && (r.right == b.right || SameInRow(m, i, j, r.right))
  }

  /**
   * Each side a walk along column `j` moves goes to a row whose slot holds the cell of slot
   * (i, j).
   */
  predicate ColumnReach(m: Grid, i: int, j: int, b: Bound, r: Bound)
    requires b.Rect? && r.Rect?
  {
    (r.top == b.top || SameInColumn(m, i, j, r.top)) && (r.bottom == b.bottom || SameInColumn(m, i, j, r.bottom))
  }

  /** The first `while` of the second pass: leftwards from column `j - k`. */
  function WalkLeft(m: Grid, i: int, j: int, k: nat, b: Bound): (r: Bound)
    requires b.Rect?
    ensures Grows(b, r) && r.top == b.top && r.bottom == b.bottom
    ensures Within(m, b) ==> Within(m, r)
    ensures RowReach(m, i, j, b, r)
    ensures SameInRow(m, i, j, j - k) ==> r.left <= j - k
    decreases j - k + 1
  {
    if SameInRow(m, i, j, j - k) then
      assert 0 <= j - k < |m[i]| <= Width(m);
      WalkLeft(m, i, j, k + 1, b.(left := Min(j - k, b.left), right := Max(j - k, b.right)))
    else b
  }

  /** The second `while`: rightwards from column `j + k`. */
  function WalkRight(m: Grid, i: int, j: int, k: nat, b: Bound): (r: Bound)
    requires b.Rect? && j >= 0
    ensures Grows(b, r) && r.top == b.top && r.bottom == b.bottom
    ensures Within(m, b) ==> Within(m, r)
    ensures RowReach(m, i, j, b, r)
    ensures SameInRow(m, i, j, j + k) ==> j + k <= r.right
    decreases |RowAt(m, i)| - (j + k)
  {
    if SameInRow(m, i, j, j + k) then
      assert j + k < |m[i]| <= Width(m);
      WalkRight(m, i, j, k + 1, b.(left := Min(j + k, b.left), right := Max(j + k, b.right)))
    else b
  }

  /** The third `while`: upwards from row `i - k`. */
  function WalkUp(m: Grid, i: int, j: int, k: nat, b: Bound): (r: Bound)
    requires b.Rect?
    ensures Grows(b, r) && r.left == b.left && r.right == b.right
    ensures Within(m, b) ==> Within(m, r)
    ensures ColumnReach(m, i, j, b, r)
    ensures SameInColumn(m, i, j, i - k) ==> r.top <= i - k
    decreases i - k + 1
  {
    if SameInColumn(m, i, j, i - k) then
      WalkUp(m, i, j, k + 1, b.(top := Min(i - k, b.top), bottom := Max(i - k, b.bottom)))
    else b
  }

  /** The fourth `while`: downwards from row `i + k`. */
  function WalkDown(m: Grid, i: int, j: int, k: nat, b: Bound): (r: Bound)
    requires b.Rect? && i >= 0
    ensures Grows(b, r) && r.left == b.left && r.right == b.right
    ensures Within(m, b) ==> Within(m, r)
    ensures ColumnReach(m, i, j, b, r)
    ensures SameInColumn(m, i, j, i + k) ==> i + k <= r.bottom
    decreases |m| - (i + k)
  {
    if SameInColumn(m, i, j, i + k) then
      WalkDown(m, i, j, k + 1, b.(top := Min(i + k, b.top), bottom := Max(i + k, b.bottom)))
    else b
  }

  /**
   * The value of `k` after the downward walk from row `i + k`: the source does not reset `k`
   * before the leftward walk of the next column, which therefore starts from this value.
   */
  function DownEnd(m: Grid, i: int, j: int, k: nat): (e: nat)
    requires i >= 0
    ensures e >= k
    decreases |m| - (i + k)
  {
    if SameInColumn(m, i, j, i + k) then DownEnd(m, i, j, k + 1) else k
  }

  /** The four walks from slot (i, j), the leftward one starting at distance `k`. */
  function ScanSlot(m: Grid, i: nat, j: nat, k: nat, b: Bound): (r: Bound)
    requires Within(m, b)
    ensures Within(m, r) && Grows(b, r)
    ensures RowReach(m, i, j, b, r) && ColumnReach(m, i, j, b, r)
    ensures SameInRow(m, i, j, j - k) ==> r.left <= j - k
    ensures SameInRow(m, i, j, j + 1) ==> j + 1 <= r.right
    ensures SameInColumn(m, i, j, i - 1) ==> r.top <= i - 1
    ensures SameInColumn(m, i, j, i + 1) ==> i + 1 <= r.bottom
  {
    WalkDown(m, i, j, 1, WalkUp(m, i, j, 1, WalkRight(m, i, j, 1, WalkLeft(m, i, j, k, b))))
  }

  /**
   * The inner `for` of the second pass: row `i` from column `j` while `j` is left of the
   * current right edge; `k` is the distance the next leftward walk starts at.
   */
  function ScanRow(m: Grid, i: nat, j: nat, k: nat, b: Bound): (r: Bound)
    requires Within(m, b)
    ensures Within(m, r) && Grows(b, r)
    decreases Width(m) - j
  {
    if j <= b.right then ScanRow(m, i, j + 1, DownEnd(m, i, j, 1), ScanSlot(m, i, j, k, b)) else b
  }

  /** The outer `for` of the second pass: every row from `i` while `i` is above the current bottom edge. */
  function ScanRows(m: Grid, i: nat, b: Bound): (r: Bound)
    requires Within(m, b)
    ensures Within(m, r) && Grows(b, r)
    decreases |m| - i
  {
    if i <= b.bottom then ScanRows(m, i + 1, ScanRow(m, i, b.left, 1, b)) else b
  }

  /**
   * The two passes of getSelectedBound on the formal matrix `m`: the first pass, then the
   * second pass from the first pass's top row and (in every row) its current left column.
   */
  function TwoPasses(m: Grid, sel: seq<CellId>): Bound
  {
    var e := Enclosing(m, sel);
    if e.NoSelection? then NoSelection else ScanRows(m, e.top, e)
  }

  /**
   * getSelectedBound(table, selectedCells): `None` when the first pass reads the length of an
   * undefined row and throws a TypeError.
   */
  function SelectionBound(m: Grid, sel: seq<CellId>): Option<Bound>
  {
    if Broken(m) then None else Some(TwoPasses(m, sel))
  }

  /**
   * Every side of `r` that differs from the side of `b` lies on a slot holding the same cell as
   * some slot inside `r` in the same row (for the left and right sides) or column (for the top
   * and bottom sides).
   */
  ghost predicate Spread(m: Grid, b: Bound, r: Bound)
  {
    Grows(b, r) &&
    (r.left == b.left || exists y, x :: InRect(r, y, x) && SameInRow(m, y, x, r.left)) &&
    (r.right == b.right || exists y, x :: InRect(r, y, x) && SameInRow(m, y, x, r.right)) &&
    (r.top == b.top || exists y, x :: InRect(r, y, x) && SameInColumn(m, y, x, r.top)) &&
    (r.bottom == b.bottom || exists y, x :: InRect(r, y, x) && SameInColumn(m, y, x, r.bottom))
  }

  /** Two widenings in a row are one. */
  lemma SpreadTwice(m: Grid, b: Bound, b1: Bound, r: Bound)
    requires Spread(m, b, b1) && Spread(m, b1, r)
    ensures Spread(m, b, r)
  {
  }

  /** The walks from a slot inside the rectangle widen it only onto slots of that slot's cell. */
  lemma ScanSlotSpreads(m: Grid, i: nat, j: nat, k: nat, b: Bound)
    requires Within(m, b) && InRect(b, i, j)
    ensures Spread(m, b, ScanSlot(m, i, j, k, b))
  {
    var r := ScanSlot(m, i, j, k, b);
    assert InRect(r, i, j);
  }

  /** One row of the second pass, from a column inside the rectangle, only widens onto cells it meets. */
  lemma {:induction false} ScanRowSpreads(m: Grid, i: nat, j: nat, k: nat, b: Bound)
    requires Within(m, b) && b.top <= i <= b.bottom && b.left <= j
    ensures Spread(m, b, ScanRow(m, i, j, k, b))
    decreases Width(m) - j
  {
    if j <= b.right {
      var b1 := ScanSlot(m, i, j, k, b);
      ScanSlotSpreads(m, i, j, k, b);
      ScanRowSpreads(m, i, j + 1, DownEnd(m, i, j, 1), b1);
      SpreadTwice(m, b, b1, ScanRow(m, i, j, k, b));
    }
  }

  /** The second pass from a row inside the rectangle only widens onto cells it meets. */
  lemma {:induction false} ScanRowsSpreads(m: Grid, i: nat, b: Bound)
    requires Within(m, b) && b.top <= i
    ensures Spread(m, b, ScanRows(m, i, b))
    decreases |m| - i
  {
    if i <= b.bottom {
      var b1 := ScanRow(m, i, b.left, 1, b);
      ScanRowSpreads(m, i, b.left, 1, b);
      ScanRowsSpreads(m, i + 1, b1);
      SpreadTwice(m, b, b1, ScanRows(m, i, b));
    }
  }

  /** Slot (k, x) comes before slot (i, j) in the row-major order of the first pass. */
  predicate Before(i: int, j: int, k: int, x: int)
  {
    k < i || (k == i && x < j)
  }

  /** Each edge of `b` passes through a selected slot. */
  ghost predicate EdgesSelected(m: Grid, sel: seq<CellId>, b: Bound)
    requires b.Rect?
  {
    (exists x :: Selected(m, sel, b.top, x)) && (exists x :: Selected(m, sel, b.bottom, x)) &&
    (exists y :: Selected(m, sel, y, b.left)) && (exists y :: Selected(m, sel, y, b.right))
  }

  /** `b` is the smallest rectangle around the selected slots before (i, j), or `NoSelection` if there are none. */
  ghost predicate Tight(m: Grid, sel: seq<CellId>, b: Bound, i: int, j: int)
  {
    (b.NoSelection? ==> forall k, x :: Before(i, j, k, x) ==> !Selected(m, sel, k, x)) &&
    (b.Rect? ==> (forall k, x :: Before(i, j, k, x) && Selected(m, sel, k, x) ==> InRect(b, k, x)) &&
                 EdgesSelected(m, sel, b))
  }

  lemma IncludeTight(m: Grid, sel: seq<CellId>, b: Bound, i: int, j: int)
    requires Tight(m, sel, b, i, j) && Selected(m, sel, i, j)
    ensures Tight(m, sel, Include(b, i, j), i, j + 1)
  {
    var r := Include(b, i, j);
    if b.Rect? {
      IncludeEdges(m, sel, b, i, j);
    } else {
      assert Selected(m, sel, r.top, j) && Selected(m, sel, i, r.left);
    }
  }

  lemma IncludeEdges(m: Grid, sel: seq<CellId>, b: Bound, i: int, j: int)
    requires b.Rect? && EdgesSelected(m, sel, b) && Selected(m, sel, i, j)
    ensures EdgesSelected(m, sel, Include(b, i, j))
  {
    var r := Include(b, i, j);
    var xt :| Selected(m, sel, b.top, xt);
    var xb :| Selected(m, sel, b.bottom, xb);
    var yl :| Selected(m, sel, yl, b.left);
    var yr :| Selected(m, sel, yr, b.right);
    assert Selected(m, sel, r.top, if i < b.top then j else xt);
    assert Selected(m, sel, r.bottom, if i > b.bottom then j else xb);
    assert Selected(m, sel, if j < b.left then i else yl, r.left);
    assert Selected(m, sel, if j > b.right then i else yr, r.right);
  }

  lemma {:induction false} FirstPassRowTight(m: Grid, sel: seq<CellId>, i: nat, j: nat, b: Bound)
    requires i < |m| && j <= |m[i]|
    requires b.Rect? ==> Within(m, b)
    requires Tight(m, sel, b, i, j)
    ensures Tight(m, sel, FirstPassRow(m, sel, i, j, b), i + 1, 0)
    decreases |m[i]| - j
  {
    if j == |m[i]| {
      RowEndTight(m, sel, b, i);
    } else if Selected(m, sel, i, j) {
      IncludeTight(m, sel, b, i, j);
      FirstPassRowTight(m, sel, i, j + 1, Include(b, i, j));
    } else {
      SkipTight(m, sel, b, i, j);
      FirstPassRowTight(m, sel, i, j + 1, b);
    }
  }

  /** An unselected slot leaves the bound as tight one slot further on. */
  lemma SkipTight(m: Grid, sel: seq<CellId>, b: Bound, i: int, j: int)
    requires Tight(m, sel, b, i, j) && !Selected(m, sel, i, j)
    ensures Tight(m, sel, b, i, j + 1)
  {
  }

  /** Past the end of row `i` no slot is selected, so the bound is as tight from the next row. */
  lemma RowEndTight(m: Grid, sel: seq<CellId>, b: Bound, i: nat)
    requires i < |m| && Tight(m, sel, b, i, |m[i]|)
    ensures Tight(m, sel, b, i + 1, 0)
  {
    assert forall x :: x >= |m[i]| ==> !Selected(m, sel, i, x);
  }

  lemma {:induction false} FirstPassTight(m: Grid, sel: seq<CellId>, i: nat, b: Bound)
    requires i <= |m|
    requires b.Rect? ==> Within(m, b)
    requires Tight(m, sel, b, i, 0)
    ensures Tight(m, sel, FirstPass(m, sel, i, b), |m|, 0)
    decreases |m| - i
  {
    if i < |m| {
      FirstPassRowTight(m, sel, i, 0, b);
      FirstPassTight(m, sel, i + 1, FirstPassRow(m, sel, i, 0, b));
    }
  }

  /**
   * The first pass computes the bounding rectangle of the selected slots: `NoSelection`
   * exactly when no slot is selected, and otherwise a rectangle that holds every selected
   * slot and each of whose edges passes through one.
   */
  lemma EnclosingExact(m: Grid, sel: seq<CellId>)
    ensures Enclosing(m, sel).NoSelection? <==> forall i, j :: !Selected(m, sel, i, j)
    ensures forall i, j :: Selected(m, sel, i, j) ==> InRect(Enclosing(m, sel), i, j)
    ensures Enclosing(m, sel).Rect? ==> EdgesSelected(m, sel, Enclosing(m, sel))
  {
    FirstPassTight(m, sel, 0, NoSelection);
    var e := Enclosing(m, sel);
    assert forall i, j :: Selected(m, sel, i, j) ==> Before(|m|, 0, i, j);
    if e.Rect? {
      var x :| Selected(m, sel, e.top, x);
    }
  }

  /**
   * getSelectedBound: it throws exactly when the matrix has an undefined row. Otherwise the
   * bound is `NoSelection` exactly when nothing is selected, and else a rectangle inside the
   * matrix that contains the first pass's rectangle, and so every selected slot, and that the
   * second pass widened only onto slots holding a cell it met inside.
   */
  lemma SelectionBoundCovers(m: Grid, sel: seq<CellId>)
    ensures SelectionBound(m, sel).None? <==> Broken(m)
    ensures SelectionBound(m, sel).Some? ==>
              var b := SelectionBound(m, sel).value;
              (b.NoSelection? <==> forall i, j :: !Selected(m, sel, i, j)) &&
              (b.Rect? ==> Within(m, b) && Spread(m, Enclosing(m, sel), b)) &&
              (forall i, j :: Selected(m, sel, i, j) ==> InRect(b, i, j))
  {
    EnclosingExact(m, sel);
    var e := Enclosing(m, sel);
    if e.Rect? {
      ScanRowsSpreads(m, e.top, e);
    }
  }
}

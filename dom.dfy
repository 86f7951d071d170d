/**
 * The table element as a tree: an ordered list of rows, each an ordered list of cell
 * identities, and the attributes of every cell element. The tree operations here stand for
 * the DOM calls the engine makes (`removeChild`, `insertBefore`, `appendChild`, `Dom.after`).
 */
module Dom {
  import opened Wrappers
  import opened Cells

  /**
   * A table: its rows (`table.rows`), the cell elements by identity, and the next identity
   * `Dom.create` hands out. Cells that are removed from the tree keep their record in `cells`.
   */
  datatype Doc = Doc(rows: seq<seq<CellId>>, cells: map<CellId, Cell>, next: CellId)

  /** Every cell in the tree has a record, and every record's identity was handed out. */
  ghost predicate Closed(d: Doc)
  {
    (forall i :: 0 <= i < |d.rows| ==> forall c :: c in d.rows[i] ==> c in d.cells) &&
    (forall c :: c in d.cells ==> c < d.next)
  }

  /** `cell.parentNode`: the index of the first row holding `c`. */
  function Parent(rows: seq<seq<CellId>>, c: CellId): (r: Option<nat>)
    ensures r.Some? ==> r.value < |rows| && c in rows[r.value]
    ensures r.Some? ==> forall i :: 0 <= i < r.value ==> c !in rows[i]
    ensures r.None? ==> forall i :: 0 <= i < |rows| ==> c !in rows[i]
  {
    if |rows| == 0 then None
    else if c in rows[0] then Some(0)
    else match Parent(rows[1..], c)
      case None => None
      case Some(i) => Some(i + 1)
  }

  /** `row` without `c`. */
  function Without(row: seq<CellId>, c: CellId): (r: seq<CellId>)
    ensures c !in r
    ensures forall y :: y != c ==> (y in r <==> y in row)
    ensures c !in row ==> r == row
  {
    if |row| == 0 then []
    else if row[0] == c then Without(row[1..], c)
    else [row[0]] + Without(row[1..], c)
  }

  /** `cell.parentNode.removeChild(cell)` (no change when the cell is not in the tree). */
  function Detach(rows: seq<seq<CellId>>, c: CellId): (r: seq<seq<CellId>>)
    ensures |r| == |rows|
    ensures forall i :: 0 <= i < |rows| ==> r[i] == Without(rows[i], c)
  {
    seq(|rows|, i requires 0 <= i < |rows| => Without(rows[i], c))
  }

  /** Taking out a cell that no row holds changes nothing. */
  lemma DetachAbsent(rows: seq<seq<CellId>>, c: CellId)
    requires forall i :: 0 <= i < |rows| ==> c !in rows[i]
    ensures Detach(rows, c) == rows
  {
    assert forall i :: 0 <= i < |rows| ==> Detach(rows, c)[i] == rows[i];
  }

  /** Two trees with the same rows, holding `c` in the same rows, give it the same parent. */
  lemma {:induction false} ParentSame(rows: seq<seq<CellId>>, rows2: seq<seq<CellId>>, c: CellId)
    requires |rows| == |rows2| && forall i :: 0 <= i < |rows| ==> (c in rows[i] <==> c in rows2[i])
    ensures Parent(rows, c) == Parent(rows2, c)
  {
    if |rows| > 0 && c !in rows[0] {
      ParentSame(rows[1..], rows2[1..], c);
    }
  }

  /** The index of the first `y` in `row`. */
  function ChildIndex(row: seq<CellId>, y: CellId): (k: nat)
    requires y in row
    ensures k < |row| && row[k] == y && y !in row[..k]
  {
    if row[0] == y then 0 else 1 + ChildIndex(row[1..], y)
  }

  /** `row.insertBefore(c, ref)` for a `c` not in `row`: `c` goes right before the first `ref`. */
  function InsertBefore(row: seq<CellId>, c: CellId, ref: CellId): (r: seq<CellId>)
    requires ref in row
    ensures r == row[..ChildIndex(row, ref)] + [c] + row[ChildIndex(row, ref)..]
    ensures |r| == |row| + 1
    ensures forall y :: y in r <==> y in row || y == c
  {
    if row[0] == ref then [c] + row
    else
      var t := row[1..];
      assert row[..ChildIndex(row, ref)] == [row[0]] + t[..ChildIndex(t, ref)];
      assert row[ChildIndex(row, ref)..] == t[ChildIndex(t, ref)..];
      [row[0]] + InsertBefore(t, c, ref)
  }

  /** `Dom.after(anchor, c)`: `c` goes right after the first `anchor` of `row`. */
  function InsertAfter(row: seq<CellId>, anchor: CellId, c: CellId): (r: seq<CellId>)
    requires anchor in row
    ensures r == row[..ChildIndex(row, anchor) + 1] + [c] + row[ChildIndex(row, anchor) + 1..]
    ensures |r| == |row| + 1
    ensures forall y :: y in r <==> y in row || y == c
  {
    if row[0] == anchor then [anchor, c] + row[1..]
    else
      var t := row[1..];
      assert row[..ChildIndex(row, anchor) + 1] == [row[0]] + t[..ChildIndex(t, anchor) + 1];
      assert row[ChildIndex(row, anchor) + 1..] == t[ChildIndex(t, anchor) + 1..];
      [row[0]] + InsertAfter(t, anchor, c)
  }

  /** All cells of the tree in document order. */
  function Flat(rows: seq<seq<CellId>>): (ids: seq<CellId>)
    ensures forall c :: c in ids <==> exists i :: 0 <= i < |rows| && c in rows[i]
  {
    if |rows| == 0 then []
    else
      var front := Flat(rows[..|rows| - 1]);
      assert forall i :: 0 <= i < |rows| - 1 ==> rows[..|rows| - 1][i] == rows[i];
      front + rows[|rows| - 1]
  }

  /** The cells of `ids` that carry the selection marker, in order. */
  function Marked(ids: seq<CellId>, cells: map<CellId, Cell>): (sel: seq<CellId>)
    ensures forall c :: c in sel <==> c in ids && c in cells && cells[c].selected
    ensures |sel| <= |ids|
  {
    if |ids| == 0 then []
    else
      var rest := Marked(ids[1..], cells);
      if ids[0] in cells && cells[ids[0]].selected then [ids[0]] + rest else rest
  }

  /**
   * `getAllSelectedCells`: the cells of the table that carry the selection marker, in
   * document order.
   */
  function AllSelected(d: Doc): (sel: seq<CellId>)
    ensures forall c :: c in sel <==>
                        (exists i :: 0 <= i < |d.rows| && c in d.rows[i]) && c in d.cells && d.cells[c].selected
  {
    Marked(Flat(d.rows), d.cells)
  }

  lemma {:induction false} MarkedSnoc(ids: seq<CellId>, c: CellId, cells: map<CellId, Cell>)
    ensures Marked(ids + [c], cells) == Marked(ids, cells) + (if c in cells && cells[c].selected then [c] else [])
  {
    if |ids| > 0 {
      assert (ids + [c])[1..] == ids[1..] + [c];
      MarkedSnoc(ids[1..], c, cells);
    }
  }

  lemma FlatSnoc(rows: seq<seq<CellId>>, i: nat)
    requires i < |rows|
    ensures Flat(rows[..i + 1]) == Flat(rows[..i]) + rows[i]
  {
    assert rows[..i + 1][..i] == rows[..i];
  }

  /** `c` is a child of some row. */
  ghost predicate InTree(rows: seq<seq<CellId>>, c: CellId)
  {
    exists i :: 0 <= i < |rows| && c in rows[i]
  }

  /** `rows[i].insertBefore(c, ref)`: `c` leaves its row and goes right before `ref` in row `i`. */
  function MoveBefore(rows: seq<seq<CellId>>, c: CellId, i: nat, ref: CellId): (r: seq<seq<CellId>>)
    requires i < |rows| && ref in rows[i] && ref != c
    ensures |r| == |rows|
    ensures forall k :: 0 <= k < |rows| && k != i ==> r[k] == Without(rows[k], c)
    ensures forall y :: y in r[i] <==> y in rows[i] || y == c
    ensures forall y :: InTree(r, y) <==> InTree(rows, y) || y == c
  {
    var rs := Detach(rows, c);
    var r := rs[i := InsertBefore(rs[i], c, ref)];
    assert forall y :: y != c && InTree(rows, y) ==> InTree(r, y) by {
      forall y | y != c && InTree(rows, y)
        ensures InTree(r, y)
      {
        var k :| 0 <= k < |rows| && y in rows[k];
        assert y in r[k];
      }
    }
    assert c in r[i];
    r
  }

  /** `rows[i].appendChild(c)`: `c` leaves its row and becomes the last cell of row `i`. */
  function MoveToEnd(rows: seq<seq<CellId>>, c: CellId, i: nat): (r: seq<seq<CellId>>)
    requires i < |rows|
    ensures |r| == |rows|
    ensures forall k :: 0 <= k < |rows| && k != i ==> r[k] == Without(rows[k], c)
    ensures forall y :: y in r[i] <==> y in rows[i] || y == c
    ensures forall y :: InTree(r, y) <==> InTree(rows, y) || y == c
  {
    var rs := Detach(rows, c);
    var r := rs[i := rs[i] + [c]];
    assert forall y :: y != c && InTree(rows, y) ==> InTree(r, y) by {
      forall y | y != c && InTree(rows, y)
        ensures InTree(r, y)
      {
        var k :| 0 <= k < |rows| && y in rows[k];
        assert y in r[k];
      }
    }
    assert c in r[i];
    r
  }

  /**
   * How an operation that edits the tree directly ends: normally, or at a DOM exception
   * (a `TypeError` on a missing cell, a `NotFoundError` from `insertBefore`), in which case
   * the writes made before it stay.
   */
  datatype Outcome = Done(doc: Doc) | Thrown(doc: Doc)
}

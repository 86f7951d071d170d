/**
 * Table.formalCoordinate: where a cell sits in the formal matrix. The source runs formalMatrix
 * with a callback that stops the scan at the first slot of the wanted cell; that first slot is
 * the top-left corner of the cell's rectangle.
 */
module Coordinates {
  import opened Wrappers
  import opened Cells
  import opened Matrix

  /** `[row, col, width, height]` as formalCoordinate returns it. */
  datatype Coord = Coord(row: int, col: int, width: int, height: int)

  /** The first placement of `id` in `ps`, or `|ps|` when there is none. */
  function IndexOf(ps: seq<Placement>, id: CellId): (p: nat)
    ensures p <= |ps|
    ensures p < |ps| ==> ps[p].id == id
    ensures forall q :: 0 <= q < p ==> ps[q].id != id
  {
    if |ps| == 0 then 0 else if ps[0].id == id then 0 else 1 + IndexOf(ps[1..], id)
  }

  /** Cell `id` has no placement in `ps`. */
  predicate Absent(ps: seq<Placement>, id: CellId)
  {
    forall q :: 0 <= q < |ps| ==> ps[q].id != id
  }

  /** Absence extends over one more placement of another cell. */
  lemma AbsentSnoc(ps: seq<Placement>, p: Placement, id: CellId)
    requires Absent(ps, id) && p.id != id
    ensures Absent(ps + [p], id)
  {
  }

  /** No cell element is placed twice (a DOM node has a single parent). */
  ghost predicate DistinctPlacements(ps: seq<Placement>)
  {
    forall p, q :: 0 <= p < q < |ps| ==> ps[p].id != ps[q].id
  }

  /**
   * The coordinate formalCoordinate reports: the row and formal column of the cell's first
   * slot and its colSpan and rowSpan; with `max`, the row and column of its last slot; and
   * `[0, 0, 1, 1]` for a cell the scan never meets.
   */
  function Coordinate(rows: seq<seq<CellId>>, cells: map<CellId, Cell>, id: CellId, max: bool): Coord
  {
    var ps := Placements(rows);
    var p := IndexOf(ps, id);
    if p == |ps| then Coord(0, 0, 1, 1)
    else
      var col := Cols(ps, cells)[p];
      var w := ColSpanOf(cells, id);
      var h := RowSpanOf(cells, id);
      if max then Coord(ps[p].row + h - 1, col + w - 1, w, h) else Coord(ps[p].row, col, w, h)
  }

  /**
   * A cell of the table is reported in the row that holds it, with its own spans, and its
   * last slot lies `height - 1` rows below and `width - 1` columns right of its first; a cell
   * that is not in the table gets `[0, 0, 1, 1]`.
   */
  lemma CoordinateShape(rows: seq<seq<CellId>>, cells: map<CellId, Cell>, id: CellId)
    ensures var c := Coordinate(rows, cells, id, false);
            var e := Coordinate(rows, cells, id, true);
            c.width == e.width && c.height == e.height &&
            if exists i :: 0 <= i < |rows| && id in rows[i] then
              0 <= c.row < |rows| && id in rows[c.row] && c.col >= 0 &&
              c.width == ColSpanOf(cells, id) && c.height == RowSpanOf(cells, id) &&
              e.row == c.row + c.height - 1 && e.col == c.col + c.width - 1
            else c == e == Coord(0, 0, 1, 1)
  {
    var ps := Placements(rows);
    var p := IndexOf(ps, id);
    if p < |ps| {
      PlacementsInRows(rows, p);
    } else if exists i :: 0 <= i < |rows| && id in rows[i] {
      var i :| 0 <= i < |rows| && id in rows[i];
      var k :| 0 <= k < |rows[i]| && rows[i][k] == id;
      PlacementOf(rows, i, k);
    }
  }

  /**
   * When the scan reaches cell `k` of row `i` without having met that cell before, the
   * coordinate is read off the matrix built so far: the cell's formal column is the first free
   * column of row `i` at that point.
   */
  lemma CoordinateFound(rows: seq<seq<CellId>>, cells: map<CellId, Cell>, i: nat, k: nat, max: bool)
    requires i < |rows| && k < |rows[i]|
    requires Absent(PrefixPlacements(rows, i, k), rows[i][k])
    ensures var id := rows[i][k];
            var col := FormalColumn(Build(PrefixPlacements(rows, i, k), cells), i);
            var w := ColSpanOf(cells, id);
            var h := RowSpanOf(cells, id);
            Coordinate(rows, cells, id, max) == if max then Coord(i + h - 1, col + w - 1, w, h) else Coord(i, col, w, h)
  {
    var ps := Placements(rows);
    var pre := PrefixPlacements(rows, i, k);
    var id := rows[i][k];
    PrefixSnoc(rows, i, k);
    PrefixWithin(rows, i, k + 1);
    var p := |pre|;
    assert ps[p] == Placement(id, i);
    assert ps[..p] == pre;
    forall q | 0 <= q < p
      ensures ps[q].id != id
    {
      assert ps[q] == pre[q];
    }
    assert IndexOf(ps, id) == p;
    PlaceCols(ps, cells, p);
  }

  /** Every cell of a row has a placement. */
  lemma {:induction false} PlacementOf(rows: seq<seq<CellId>>, i: nat, k: nat)
    requires i < |rows| && k < |rows[i]|
    ensures exists p :: 0 <= p < |Placements(rows)| && Placements(rows)[p] == Placement(rows[i][k], i)
  {
    var n := |rows| - 1;
    var front := Placements(rows[..n]);
    if i == n {
      assert Placements(rows)[|front| + k] == Placement(rows[i][k], i);
    } else {
      PlacementOf(rows[..n], i, k);
      var p :| 0 <= p < |front| && front[p] == Placement(rows[..n][i][k], i);
      assert Placements(rows)[p] == front[p];
    }
  }

  /**
   * Every slot of the formal matrix that holds the cell lies between the cell's first and last
   * coordinate, so the two coordinates are the corners of the region the cell occupies.
   */
  lemma CoordinateEncloses(rows: seq<seq<CellId>>, cells: map<CellId, Cell>, id: CellId, k: int, x: int)
    requires DistinctPlacements(Placements(rows))
    requires Get(FormalMatrix(rows, cells), k, x) == Some(id)
    ensures var c := Coordinate(rows, cells, id, false);
            var e := Coordinate(rows, cells, id, true);
            c.row <= k <= e.row && c.col <= x <= e.col
  {
    var ps := Placements(rows);
    BuildSlot(ps, cells, k, x);
    var p := LastCover(ps, cells, k, x);
    assert IndexOf(ps, id) == p;
  }
}

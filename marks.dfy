/**
 * The deferred writes of Table.ts (`__mark` / `__unmark`). While it scans the formal matrix an
 * operation does not touch the table; it queues, per cell, the writes it wants (remove the
 * cell, set its rowspan, set its colspan) and applies them all afterwards, so that the scan
 * keeps seeing the table as it was.
 */
module Marks {
  import opened Wrappers
  import opened Cells
  import opened Dom

  /** The writes queued for `c` so far. */
  function Lookup(pending: map<CellId, Pending>, c: CellId): Pending
  {
    if c in pending then pending[c] else NoWrites
  }

  /** `__mark(cell, key, value)`: the write replaces an earlier write to the same key of the same cell. */
  function MarkWrite(pending: map<CellId, Pending>, c: CellId, w: Write): (p: map<CellId, Pending>)
    ensures p.Keys == pending.Keys + {c}
    ensures forall y :: y in pending && y != c ==> p[y] == pending[y]
    ensures p[c] == Queue(Lookup(pending, c), w)
  {
    pending[c := Queue(Lookup(pending, c), w)]
  }

  /** `c` is queued for removal. */
  predicate Removed(pending: map<CellId, Pending>, c: CellId)
  {
    c in pending && pending[c].remove
  }

  /** A row once the cells queued for removal are detached from it. */
  function Keep(row: seq<CellId>, pending: map<CellId, Pending>): (r: seq<CellId>)
    ensures forall y :: y in r <==> y in row && !Removed(pending, y)
    ensures |r| <= |row|
  {
    if |row| == 0 then []
    else if Removed(pending, row[0]) then Keep(row[1..], pending)
    else [row[0]] + Keep(row[1..], pending)
  }

  /** A cell record after its queued attribute writes. */
  function Written(cells: map<CellId, Cell>, pending: map<CellId, Pending>): (r: map<CellId, Cell>)
    ensures r.Keys == cells.Keys
  {
    map c | c in cells :: if c in pending then ApplyAttrs(cells[c], pending[c]) else cells[c]
  }

  /**
   * `__unmark`: every queued write is carried out, whatever the order in which the cells were
   * marked, since the writes of different cells touch different elements.
   */
  function ApplyPending(d: Doc, pending: map<CellId, Pending>): (r: Doc)
    ensures |r.rows| == |d.rows| && r.next == d.next && r.cells.Keys == d.cells.Keys
    ensures forall i :: 0 <= i < |d.rows| ==> r.rows[i] == Keep(d.rows[i], pending)
  {
    Doc(seq(|d.rows|, i requires 0 <= i < |d.rows| => Keep(d.rows[i], pending)), Written(d.cells, pending), d.next)
  }

  /** The writes queued for the cells of `s`. */
  function Restrict(pending: map<CellId, Pending>, s: set<CellId>): (r: map<CellId, Pending>)
    ensures r.Keys == pending.Keys * s
    ensures forall c :: c in r ==> r[c] == pending[c]
  {
    map c | c in pending && c in s :: pending[c]
  }

  /** A cell that nothing was queued for is left alone. */
  lemma ApplyPendingUntouched(d: Doc, pending: map<CellId, Pending>, c: CellId)
    requires c !in pending
    ensures c in d.cells ==> ApplyPending(d, pending).cells[c] == d.cells[c]
    ensures forall i :: 0 <= i < |d.rows| ==> (c in ApplyPending(d, pending).rows[i] <==> c in d.rows[i])
  {
  }

  /** Nothing queued, nothing changed. */
  lemma {:induction false} KeepNothing(row: seq<CellId>, pending: map<CellId, Pending>)
    requires forall c :: c in row ==> !Removed(pending, c)
    ensures Keep(row, pending) == row
  {
    if |row| > 0 {
      KeepNothing(row[1..], pending);
    }
  }

  /** With nothing queued `__unmark` changes nothing. */
  lemma ApplyNothing(d: Doc)
    ensures ApplyPending(d, map[]) == d
  {
    forall i | 0 <= i < |d.rows|
      ensures Keep(d.rows[i], map[]) == d.rows[i]
    {
      KeepNothing(d.rows[i], map[]);
    }
  }

  /** Adding the writes of one more cell `c` to those already applied. */
  lemma {:induction false} KeepOneMore(row: seq<CellId>, pending: map<CellId, Pending>, c: CellId, p: Pending)
    requires c !in pending
    ensures Keep(row, pending[c := p]) == if p.remove then Without(Keep(row, pending), c) else Keep(row, pending)
  {
    if |row| > 0 {
      KeepOneMore(row[1..], pending, c, p);
    }
  }

  /** `pending` is safe to apply: a write of a part is a write of the whole. */
  lemma ApplyOneMore(d: Doc, pending: map<CellId, Pending>, c: CellId, p: Pending)
    requires c !in pending
    ensures var before := ApplyPending(d, pending);
            ApplyPending(d, pending[c := p]) ==
            Doc(if p.remove then Detach(before.rows, c) else before.rows,
                if c in before.cells then before.cells[c := ApplyAttrs(before.cells[c], p)] else before.cells,
                d.next)
  {
    var before := ApplyPending(d, pending);
    var after := ApplyPending(d, pending[c := p]);
    forall i | 0 <= i < |d.rows|
      ensures after.rows[i] == if p.remove then Without(before.rows[i], c) else before.rows[i]
    {
      KeepOneMore(d.rows[i], pending, c, p);
    }
  }
}

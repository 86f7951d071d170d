/**
 * Table.mergeSelected: the cells whose slots lie inside the bound of the selection are merged
 * into the first of them, met in the scan of formalMatrix. Its content becomes the non-blank
 * contents of all of them joined by `<br/>`, it spans the bound, and the others are removed.
 * The table is then normalized and rows left without cells are removed.
 */
module Merging {
  import opened Wrappers
  import opened Cells
  import opened Matrix
  import opened Dom
  import opened Marks
  import opened Bounds
  import opened Normalization

  // ---------------------------------------------------------------------------------------
  // Contents

  /** `innerHTML.replace(/<br(\/)?>/g, '')`: one pass from left to right. */
  function StripBreaks(h: Html): (r: Html)
    ensures |r| <= |h|
  {
    if |h| >= 5 && h[..5] == "<br/>" then StripBreaks(h[5..])
    else if |h| >= 4 && h[..4] == "<br>" then StripBreaks(h[4..])
    else if |h| == 0 then ""
    else [h[0]] + StripBreaks(h[1..])
  }

  /** A `<br` starts at position `k` of `h`. */
  predicate BreakAt(h: Html, k: int)
  {
    0 <= k && k + 3 <= |h| && h[k..k + 3] == "<br"
  }

  /** Text holding no `<br` passes through unchanged. */
  lemma {:induction false} StripBreaksNoBreak(h: Html)
    requires forall k :: 0 <= k < |h| ==> !BreakAt(h, k)
    ensures StripBreaks(h) == h
    decreases |h|
  {
    if |h| == 0 {
    } else {
      assert !BreakAt(h, 0);
      assert |h| >= 5 ==> h[..5][..3] == h[0..3];
      assert |h| >= 4 ==> h[..4][..3] == h[0..3];
      forall k | 0 <= k < |h[1..]|
        ensures !BreakAt(h[1..], k)
      {
        assert !BreakAt(h, k + 1);
        if k + 3 <= |h[1..]| { assert h[1..][k..k + 3] == h[k + 1..k + 4]; }
      }
      StripBreaksNoBreak(h[1..]);
      assert h == [h[0]] + h[1..];
    }
  }

  /** A leading `<br>` or `<br/>` is dropped and nothing else changes. */
  lemma StripBreaksLeading(h: Html)
    ensures StripBreaks("<br>" + h) == StripBreaks(h)
    ensures StripBreaks("<br/>" + h) == StripBreaks(h)
  {
    var a := "<br>" + h;
    assert a[..4] == "<br>";
    assert a[4..] == h;
    assert |a| >= 5 ==> a[..5][3] == a[3] == '>';
    var b := "<br/>" + h;
    assert b[..5] == "<br/>";
    assert b[5..] == h;
  }

  /** The characters `trim` removes: white space and line terminators of ECMAScript. */
  predicate Space(ch: char)
  {
    ch == '\t' || ch == '\n' || ch == '\U{B}' || ch == '\U{C}' || ch == '\r' || ch == ' ' ||
    ch == '\U{A0}' || ch == '\U{1680}' || ('\U{2000}' <= ch <= '\U{200A}') || ch == '\U{2028}' ||
    ch == '\U{2029}' || ch == '\U{202F}' || ch == '\U{205F}' || ch == '\U{3000}' || ch == '\U{FEFF}'
  }

  /** `trim(html.replace(/<br(\/)?>/g, '')) === ''`. */
  predicate Blank(h: Html)
  {
    forall k :: 0 <= k < |StripBreaks(h)| ==> Space(StripBreaks(h)[k])
  }

  /** `Array.prototype.join`. */
  function Join(parts: seq<Html>, sep: Html): Html
  {
    if |parts| == 0 then ""
    else if |parts| == 1 then parts[0]
    else parts[0] + sep + Join(parts[1..], sep)
  }

  /** `cell.innerHTML`. */
  function HtmlOf(cells: map<CellId, Cell>, c: CellId): Html
  {
    if c in cells then cells[c].html else ""
  }

  /** The contents of `ids` that are not blank, in order. */
  function Contents(cells: map<CellId, Cell>, ids: seq<CellId>): (r: seq<Html>)
    ensures |r| <= |ids|
  {
    if |ids| == 0 then []
    else
      var n := |ids| - 1;
      Contents(cells, ids[..n]) + (if Blank(HtmlOf(cells, ids[n])) then [] else [HtmlOf(cells, ids[n])])
  }

  // ---------------------------------------------------------------------------------------
  // The scan

  /** Slot (k, x) lies inside the bound `b`. */
  predicate Inside(b: Bound, k: int, x: int)
  {
    b.Rect? && b.top <= k <= b.bottom && b.left <= x <= b.right
  }

  /**
   * The cell of placement `p`, placed at formal column `col`, has a slot inside `b`: there is
   * a row of its rows and a column of its columns inside the bound.
   */
  predicate Meets(cells: map<CellId, Cell>, b: Bound, p: Placement, col: int)
  {
    b.Rect? && b.top <= b.bottom && b.left <= b.right &&
    p.row <= b.bottom && b.top <= p.row + RowSpanOf(cells, p.id) - 1 &&
    col <= b.right && b.left <= col + ColSpanOf(cells, p.id) - 1
  }

  /** What the callback of mergeSelected has gathered: the cells met, their contents, the marks. */
  datatype Gathered = Gathered(met: seq<CellId>, html: seq<Html>, marks: map<CellId, Pending>)

  /**
   * The callback of mergeSelected for the slots of placement `p`: a cell meeting the bound that
   * was not met before (`__i_am_already_was`) is recorded, its content is kept when it is not
   * blank, and every cell after the first is marked for removal.
   */
  function Visit(g: Gathered, cells: map<CellId, Cell>, b: Bound, p: Placement, col: int): Gathered
  {
    if !Meets(cells, b, p, col) || p.id in g.met then g
    else
      var h := HtmlOf(cells, p.id);
      Gathered(g.met + [p.id], if Blank(h) then g.html else g.html + [h],
               if |g.met| == 0 then g.marks else MarkWrite(g.marks, p.id, Remove))
  }

  /** The scan of formalMatrix over the placements `ps`, with mergeSelected's callback. */
  function Gather(ps: seq<Placement>, cells: map<CellId, Cell>, b: Bound): Gathered
  {
    if |ps| == 0 then Gathered([], [], map[])
    else
      var n := |ps| - 1;
      Visit(Gather(ps[..n], cells, b), cells, b, ps[n], FormalColumn(Build(ps[..n], cells), ps[n].row))
  }

  /** The spans the first cell is marked with: the width and height of the bound when above 1. */
  function SpanMarks(marks: map<CellId, Pending>, first: CellId, b: Bound): map<CellId, Pending>
  {
    match b
    case NoSelection => marks
    case Rect(top, left, bottom, right) =>
      var m1 := if right - left + 1 > 1 then MarkWrite(marks, first, ColSpanTo(right - left + 1)) else marks;
      if bottom - top + 1 > 1 then MarkWrite(m1, first, RowSpanTo(bottom - top + 1)) else m1
  }

  /** The cells of a table with one more row. */
  lemma InTreeAppend(rows: seq<seq<CellId>>, row: seq<CellId>)
    ensures forall c :: InTree(rows + [row], c) <==> InTree(rows, c) || c in row
  {
    var r := rows + [row];
    forall c | InTree(r, c)
      ensures InTree(rows, c) || c in row
    {
      var i :| 0 <= i < |r| && c in r[i];
      if i < |rows| {
        assert c in rows[i];
      }
    }
    forall c | InTree(rows, c)
      ensures InTree(r, c)
    {
      var i :| 0 <= i < |rows| && c in rows[i];
      assert c in r[i];
    }
    assert r[|rows|] == row;
  }

  /** The rows that still hold a cell (`if (!tr.cells.length) tr.parentNode.removeChild(tr)`). */
  function NonEmptyRows(rows: seq<seq<CellId>>): (r: seq<seq<CellId>>)
    ensures |r| <= |rows|
    ensures forall i :: 0 <= i < |r| ==> |r[i]| > 0
    ensures forall c :: InTree(r, c) <==> InTree(rows, c)
  {
    if |rows| == 0 then []
    else
      var n := |rows| - 1;
      var front := NonEmptyRows(rows[..n]);
      assert rows == rows[..n] + [rows[n]];
      InTreeAppend(rows[..n], rows[n]);
      InTreeAppend(front, rows[n]);
      if |rows[n]| == 0 then front else front + [rows[n]]
  }

  /** The table after the merge itself, before normalizeTable. */
  function MergeCells(d: Doc, g: Gathered, b: Bound): Doc
    requires |g.met| > 0
  {
    var first := g.met[0];
    var d1 := if first in d.cells then d.(cells := d.cells[first := d.cells[first].(html := Join(g.html, "<br/>"))]) else d;
    ApplyPending(d1, SpanMarks(g.marks, first, b))
  }

  /**
   * mergeSelected(table). getSelectedBound throws on a matrix with an undefined row. A bound
   * of a single slot does nothing; so does an empty selection, for which the source's bound
   * `[[Infinity, Infinity], [0, 0]]` lets no slot in.
   */
  function MergeSelected(d: Doc): Outcome
  {
    var box := FormalMatrix(d.rows, d.cells);
    match SelectionBound(box, AllSelected(d))
    case None => Thrown(d)
    case Some(b) =>
      if b.Rect? && b.top == b.bottom && b.left == b.right then Done(d)
      else
        var g := Gather(Placements(d.rows), d.cells, b);
        if |g.met| == 0 then Done(d) else MergeResult(d, g, b)
  }

  /**
   * The merge, normalizeTable, and the removal of the rows left empty; when normalizeTable
   * throws, the merge stays and no row is removed.
   */
  function MergeResult(d: Doc, g: Gathered, b: Bound): Outcome
    requires |g.met| > 0
  {
    match Normalize(MergeCells(d, g, b))
    case Thrown(e) => Thrown(e)
    case Done(e) => Done(e.(rows := NonEmptyRows(e.rows)))
  }

  /**
   * The `__marked_value` records mergeSelected leaves on the cells: those of a normalizeTable
   * that threw, and none otherwise.
   */
  function MergeLeftover(d: Doc): map<CellId, Pending>
  {
    var box := FormalMatrix(d.rows, d.cells);
    match SelectionBound(box, AllSelected(d))
    case None => map[]
    case Some(b) =>
      if b.Rect? && b.top == b.bottom && b.left == b.right then map[]
      else
        var g := Gather(Placements(d.rows), d.cells, b);
        if |g.met| == 0 then map[] else Leftover(MergeCells(d, g, b))
  }

  // ---------------------------------------------------------------------------------------
  // Properties

  /** The rectangle test is the callback's slot test: some slot of the cell lies in the bound. */
  lemma MeetsSlot(cells: map<CellId, Cell>, b: Bound, p: Placement, col: int)
    ensures Meets(cells, b, p, col) <==>
            exists k, x :: p.row <= k < p.row + RowSpanOf(cells, p.id) && col <= x < col + ColSpanOf(cells, p.id) && Inside(b, k, x)
  {
    if Meets(cells, b, p, col) {
      var k := if p.row < b.top then b.top else p.row;
      var x := if col < b.left then b.left else col;
      assert p.row <= k < p.row + RowSpanOf(cells, p.id) && col <= x < col + ColSpanOf(cells, p.id) && Inside(b, k, x);
    }
  }

  lemma GatherSnoc(ps: seq<Placement>, p: Placement, cells: map<CellId, Cell>, b: Bound)
    ensures Gather(ps + [p], cells, b) == Visit(Gather(ps, cells, b), cells, b, p, FormalColumn(Build(ps, cells), p.row))
  {
    assert (ps + [p])[..|ps|] == ps;
  }

  /** Some placement of `c` in `ps` meets the bound. */
  ghost predicate Hit(ps: seq<Placement>, cells: map<CellId, Cell>, b: Bound, c: CellId)
  {
    exists p :: 0 <= p < |ps| && ps[p].id == c && Meets(cells, b, ps[p], Cols(ps, cells)[p])
  }

  lemma HitSnoc(ps: seq<Placement>, cells: map<CellId, Cell>, b: Bound, c: CellId)
    requires |ps| > 0
    ensures var n := |ps| - 1;
            Hit(ps, cells, b, c) <==>
            Hit(ps[..n], cells, b, c) || (ps[n].id == c && Meets(cells, b, ps[n], FormalColumn(Build(ps[..n], cells), ps[n].row)))
  {
    var n := |ps| - 1;
    var front := ps[..n];
    assert ps == front + [ps[n]];
    PlaceSnoc(front, ps[n], cells);
    var cols := Cols(ps, cells);
    assert forall p :: 0 <= p < n ==> ps[p] == front[p] && cols[p] == Cols(front, cells)[p];
    if Hit(ps, cells, b, c) {
      var p :| 0 <= p < |ps| && ps[p].id == c && Meets(cells, b, ps[p], cols[p]);
      if p < n {
        assert Hit(front, cells, b, c);
      }
    }
    if Hit(front, cells, b, c) {
      var p :| 0 <= p < n && front[p].id == c && Meets(cells, b, front[p], Cols(front, cells)[p]);
      assert ps[p].id == c && Meets(cells, b, ps[p], cols[p]);
    }
  }

  /** The cells met are those with a placement meeting the bound. */
  lemma {:induction false} GatherMet(ps: seq<Placement>, cells: map<CellId, Cell>, b: Bound)
    ensures forall c :: c in Gather(ps, cells, b).met <==> Hit(ps, cells, b, c)
  {
    if |ps| > 0 {
      var n := |ps| - 1;
      GatherMet(ps[..n], cells, b);
      forall c
        ensures c in Gather(ps, cells, b).met <==> Hit(ps, cells, b, c)
      {
        HitSnoc(ps, cells, b, c);
      }
    }
  }

  /** No identity occurs twice. */
  predicate Distinct(ids: seq<CellId>)
  {
    forall i, j :: 0 <= i < j < |ids| ==> ids[i] != ids[j]
  }

  /** Each cell is met once. */
  lemma {:induction false} GatherDistinct(ps: seq<Placement>, cells: map<CellId, Cell>, b: Bound)
    ensures Distinct(Gather(ps, cells, b).met)
  {
    if |ps| > 0 {
      var n := |ps| - 1;
      GatherDistinct(ps[..n], cells, b);
      var g := Gather(ps[..n], cells, b);
      var g' := Gather(ps, cells, b);
      if g'.met != g.met {
        assert g'.met == g.met + [ps[n].id] && ps[n].id !in g.met;
        forall i, j | 0 <= i < j < |g'.met|
          ensures g'.met[i] != g'.met[j]
        {
          assert g'.met[i] == g.met[i];
          if j == |g.met| {
            assert g.met[i] in g.met;
          } else {
            assert g'.met[j] == g.met[j];
          }
        }
      }
    }
  }

  /** The contents kept are the non-blank contents of the cells met, in the order met. */
  lemma {:induction false} GatherHtml(ps: seq<Placement>, cells: map<CellId, Cell>, b: Bound)
    ensures Gather(ps, cells, b).html == Contents(cells, Gather(ps, cells, b).met)
  {
    if |ps| > 0 {
      var n := |ps| - 1;
      GatherHtml(ps[..n], cells, b);
      var g := Gather(ps[..n], cells, b);
      VisitHtml(g, cells, b, ps[n], FormalColumn(Build(ps[..n], cells), ps[n].row));
    }
  }

  /** One visit either records nothing or records the cell and, when it is not blank, its content. */
  lemma VisitHtml(g: Gathered, cells: map<CellId, Cell>, b: Bound, p: Placement, col: int)
    requires g.html == Contents(cells, g.met)
    ensures var v := Visit(g, cells, b, p, col);
            v.html == Contents(cells, v.met)
  {
    if Meets(cells, b, p, col) && p.id !in g.met {
      ContentsSnoc(cells, g.met, p.id);
    }
  }

  lemma ContentsSnoc(cells: map<CellId, Cell>, ids: seq<CellId>, c: CellId)
    ensures var h := HtmlOf(cells, c);
            Contents(cells, ids + [c]) == Contents(cells, ids) + (if Blank(h) then [] else [h])
  {
    assert (ids + [c])[..|ids|] == ids;
  }

  /** Every cell met after the first is marked for removal, and nothing else is marked. */
  lemma {:induction false} GatherMarks(ps: seq<Placement>, cells: map<CellId, Cell>, b: Bound)
    ensures var g := Gather(ps, cells, b);
            (|g.met| == 0 ==> g.marks == map[]) &&
            (|g.met| > 0 ==> forall c :: c in g.marks <==> c in g.met && c != g.met[0]) &&
            (forall c :: c in g.marks ==> g.marks[c] == Pending(true, None, None))
  {
    if |ps| > 0 {
      var n := |ps| - 1;
      GatherMarks(ps[..n], cells, b);
      var g := Gather(ps[..n], cells, b);
      var g' := Gather(ps, cells, b);
      if |g.met| > 0 {
        assert g'.met[0] == g.met[0];
      }
    }
  }

  /** The cells met have a placement, so they are in the tree. */
  lemma MetInTree(d: Doc, b: Bound)
    ensures forall c :: c in Gather(Placements(d.rows), d.cells, b).met ==> InTree(d.rows, c)
  {
    var ps := Placements(d.rows);
    GatherMet(ps, d.cells, b);
    forall c | c in Gather(ps, d.cells, b).met
      ensures InTree(d.rows, c)
    {
      var p :| 0 <= p < |ps| && ps[p].id == c && Meets(d.cells, b, ps[p], Cols(ps, d.cells)[p]);
      PlacementsInRows(d.rows, p);
    }
  }

  /** The span marks touch the first cell only, never remove it, and carry the bound's size. */
  lemma SpanMarksFacts(marks: map<CellId, Pending>, first: CellId, b: Bound)
    requires first !in marks && b.Rect?
    ensures var r := SpanMarks(marks, first, b);
            (forall c :: c != first ==> (c in r <==> c in marks) && (c in marks ==> r[c] == marks[c])) &&
            !Removed(r, first) &&
            (b.right - b.left + 1 > 1 ==> first in r && r[first].colspan == Some(b.right - b.left + 1)) &&
            (b.bottom - b.top + 1 > 1 ==> first in r && r[first].rowspan == Some(b.bottom - b.top + 1))
  {
  }

  /** The tree right after the merge: the cells met, but the first, are gone; nothing else changes. */
  lemma MergeCellsTree(d: Doc, g: Gathered, b: Bound, c: CellId)
    requires |g.met| > 0 && b.Rect? && g.met[0] !in g.marks
    requires forall y :: y in g.marks <==> y in g.met && y != g.met[0]
    requires forall y :: y in g.marks ==> g.marks[y].remove
    ensures InTree(MergeCells(d, g, b).rows, c) <==> InTree(d.rows, c) && (c !in g.met || c == g.met[0])
  {
    var first := g.met[0];
    var marks := SpanMarks(g.marks, first, b);
    SpanMarksFacts(g.marks, first, b);
    var e := MergeCells(d, g, b);
    assert Removed(marks, c) <==> c in g.met && c != first;
    if InTree(e.rows, c) {
      var i :| 0 <= i < |e.rows| && c in e.rows[i];
      assert c in d.rows[i];
    }
    if InTree(d.rows, c) && (c !in g.met || c == first) {
      var i :| 0 <= i < |d.rows| && c in d.rows[i];
      assert c in e.rows[i];
    }
  }

  /** The record of the first cell right after the merge. */
  lemma MergeFirstRecord(d: Doc, g: Gathered, b: Bound)
    requires |g.met| > 0 && b.Rect? && g.met[0] !in g.marks && g.met[0] in d.cells
    ensures var e := MergeCells(d, g, b).cells[g.met[0]];
            e.html == Join(g.html, "<br/>") && e.selected == d.cells[g.met[0]].selected &&
            (b.right - b.left > 0 ==> ColSpan(e) == b.right - b.left + 1) &&
            (b.bottom - b.top > 0 ==> RowSpan(e) == b.bottom - b.top + 1)
  {
    SpanMarksFacts(g.marks, g.met[0], b);
  }

  /** A cell not met keeps its record through the merge. */
  lemma MergeOtherRecord(d: Doc, g: Gathered, b: Bound, c: CellId)
    requires |g.met| > 0 && b.Rect? && g.met[0] !in g.marks && c in d.cells && c !in g.met
    requires forall y :: y in g.marks ==> y in g.met
    ensures MergeCells(d, g, b).cells[c] == d.cells[c]
  {
    var first := g.met[0];
    SpanMarksFacts(g.marks, first, b);
    var d1 := if first in d.cells then d.(cells := d.cells[first := d.cells[first].(html := Join(g.html, "<br/>"))]) else d;
    ApplyPendingUntouched(d1, SpanMarks(g.marks, first, b), c);
  }

  /** What the scan gathers, as GatherMet, GatherMarks and GatherHtml state it. */
  ghost predicate Gathers(g: Gathered, cells: map<CellId, Cell>)
  {
    |g.met| > 0 && g.met[0] !in g.marks &&
    (forall y :: y in g.marks <==> y in g.met && y != g.met[0]) &&
    (forall y :: y in g.marks ==> g.marks[y].remove) &&
    g.html == Contents(cells, g.met)
  }

  lemma MergeResultTree(d: Doc, g: Gathered, b: Bound)
    requires b.Rect? && Gathers(g, d.cells)
    ensures var e := MergeCells(d, g, b);
            var r := MergeResult(d, g, b);
            (r.Thrown? <==> Broken(FormalMatrix(e.rows, e.cells))) && (r.Thrown? ==> r.doc == e) &&
            r.doc.next == d.next && r.doc.cells.Keys == d.cells.Keys &&
            (r.Done? ==> forall i :: 0 <= i < |r.doc.rows| ==> |r.doc.rows[i]| > 0) &&
            (forall c :: InTree(r.doc.rows, c) <==> InTree(d.rows, c) && (c !in g.met || c == g.met[0]))
  {
    NormalizeKeepsRows(MergeCells(d, g, b));
    forall c
      ensures InTree(MergeResult(d, g, b).doc.rows, c) <==> InTree(d.rows, c) && (c !in g.met || c == g.met[0])
    {
      MergeCellsTree(d, g, b, c);
    }
  }

  lemma MergeResultFirst(d: Doc, g: Gathered, b: Bound)
    requires b.Rect? && Gathers(g, d.cells) && g.met[0] in d.cells
    ensures var e := MergeResult(d, g, b).doc.cells[g.met[0]];
            e.html == Join(Contents(d.cells, g.met), "<br/>") &&
            e.selected == d.cells[g.met[0]].selected &&
            (b.right - b.left > 0 ==> ColSpan(e) <= b.right - b.left + 1) &&
            (b.bottom - b.top > 0 ==> RowSpan(e) <= b.bottom - b.top + 1)
  {
    MergeFirstRecord(d, g, b);
    NormalizeKeepsRows(MergeCells(d, g, b));
    NormalizeCell(MergeCells(d, g, b), g.met[0]);
  }

  lemma MergeResultOther(d: Doc, g: Gathered, b: Bound, c: CellId)
    requires b.Rect? && Gathers(g, d.cells) && c in d.cells && c !in g.met
    ensures var e := MergeResult(d, g, b).doc.cells[c];
            e.html == d.cells[c].html && e.selected == d.cells[c].selected &&
            ColSpan(e) <= ColSpan(d.cells[c]) && RowSpan(e) <= RowSpan(d.cells[c])
  {
    MergeOtherRecord(d, g, b, c);
    NormalizeKeepsRows(MergeCells(d, g, b));
    NormalizeCell(MergeCells(d, g, b), c);
  }

  /**
   * mergeSelected throws, changing nothing, exactly when the matrix has an undefined row. On a
   * bound of more than one slot that meets a cell it throws later exactly when the merged table
   * has an undefined row, keeping the merge. Either way the first cell met stays in the tree,
   * holds the non-blank contents of all cells met joined by `<br/>`, and spans no more than the
   * bound; the other cells met leave the tree, and every other cell keeps its place, its
   * contents and its selection and spans no more than before; when it completes no row is
   * left empty.
   */
  lemma MergeSelectedEffect(d: Doc)
    requires Closed(d)
    ensures var box := FormalMatrix(d.rows, d.cells);
            var sb := SelectionBound(box, AllSelected(d));
            var r := MergeSelected(d);
            (r == Thrown(d) <==> Broken(box)) &&
            (sb.Some? ==>
              var b := sb.value;
              var g := Gather(Placements(d.rows), d.cells, b);
              !(b.Rect? && b.top == b.bottom && b.left == b.right) && |g.met| > 0 ==>
                var e := MergeCells(d, g, b);
                b.Rect? && (r.Thrown? <==> Broken(FormalMatrix(e.rows, e.cells))) &&
                r.doc.next == d.next && r.doc.cells.Keys == d.cells.Keys &&
                (r.Done? ==> forall i :: 0 <= i < |r.doc.rows| ==> |r.doc.rows[i]| > 0) &&
                (forall c :: InTree(r.doc.rows, c) <==> InTree(d.rows, c) && (c !in g.met || c == g.met[0])) &&
                g.met[0] in d.cells &&
                r.doc.cells[g.met[0]].html == Join(Contents(d.cells, g.met), "<br/>") &&
                r.doc.cells[g.met[0]].selected == d.cells[g.met[0]].selected &&
                (b.right - b.left > 0 ==> ColSpan(r.doc.cells[g.met[0]]) <= b.right - b.left + 1) &&
                (b.bottom - b.top > 0 ==> RowSpan(r.doc.cells[g.met[0]]) <= b.bottom - b.top + 1) &&
                (forall c :: c in d.cells && c !in g.met ==>
                   r.doc.cells[c].html == d.cells[c].html && r.doc.cells[c].selected == d.cells[c].selected &&
                   ColSpan(r.doc.cells[c]) <= ColSpan(d.cells[c]) && RowSpan(r.doc.cells[c]) <= RowSpan(d.cells[c])))
  {
    var box := FormalMatrix(d.rows, d.cells);
    var sb := SelectionBound(box, AllSelected(d));
    if sb.Some? {
      var b := sb.value;
      var ps := Placements(d.rows);
      var g := Gather(ps, d.cells, b);
      if !(b.Rect? && b.top == b.bottom && b.left == b.right) && |g.met| > 0 {
        GatherMet(ps, d.cells, b);
        GatherMarks(ps, d.cells, b);
        GatherHtml(ps, d.cells, b);
        MetInTree(d, b);
        assert Hit(ps, d.cells, b, g.met[0]);
        assert Gathers(g, d.cells);
        MergeResultTree(d, g, b);
        MergeResultFirst(d, g, b);
        forall c | c in d.cells && c !in g.met
          ensures var e := MergeResult(d, g, b).doc.cells[c];
                  e.html == d.cells[c].html && e.selected == d.cells[c].selected &&
                  ColSpan(e) <= ColSpan(d.cells[c]) && RowSpan(e) <= RowSpan(d.cells[c])
        {
          MergeResultOther(d, g, b, c);
        }
        MergeNotThrownAtOnce(d, g, b);
      }
    }
  }

  /** The merge itself keeps a closed table closed: it only drops cells from the tree. */
  lemma MergeCellsClosed(d: Doc, g: Gathered, b: Bound)
    requires Closed(d) && |g.met| > 0
    ensures Closed(MergeCells(d, g, b))
  {
  }

  /** mergeSelected keeps a closed table closed, whether it completes or throws. */
  lemma MergeSelectedClosed(d: Doc)
    requires Closed(d)
    ensures Closed(MergeSelected(d).doc)
  {
    var box := FormalMatrix(d.rows, d.cells);
    var sb := SelectionBound(box, AllSelected(d));
    if sb.Some? {
      var b := sb.value;
      var g := Gather(Placements(d.rows), d.cells, b);
      if !(b.Rect? && b.top == b.bottom && b.left == b.right) && |g.met| > 0 {
        MergeCellsClosed(d, g, b);
        MergeResultClosed(MergeCells(d, g, b));
      }
    }
  }

  /** normalizeTable and the removal of empty rows keep a closed table closed. */
  lemma MergeResultClosed(e: Doc)
    requires Closed(e)
    ensures var o := Normalize(e);
            Closed(if o.Thrown? then o.doc else o.doc.(rows := NonEmptyRows(o.doc.rows)))
  {
    NormalizeKeepsRows(e);
    var n := Normalize(e).doc;
    var r := n.(rows := NonEmptyRows(n.rows));
    forall i, c | 0 <= i < |r.rows| && c in r.rows[i]
      ensures c in r.cells
    {
      assert InTree(r.rows, c);
      assert InTree(n.rows, c);
      var k :| 0 <= k < |n.rows| && c in n.rows[k];
      assert c in e.rows[k];
    }
  }

  /**
   * A merge of a table without an undefined row that throws in normalizeTable does not end
   * as the table it started from.
   */
  lemma MergeNotThrownAtOnce(d: Doc, g: Gathered, b: Bound)
    requires b.Rect? && Gathers(g, d.cells) && !Broken(FormalMatrix(d.rows, d.cells))
    ensures MergeResult(d, g, b) != Thrown(d)
  {
    MergeResultTree(d, g, b);
  }

  /** An empty selection, or one whose bound is a single slot, leaves the table as it is. */
  lemma MergeSelectedNoop(d: Doc)
    ensures var sb := SelectionBound(FormalMatrix(d.rows, d.cells), AllSelected(d));
            sb.Some? && (sb.value.NoSelection? || (sb.value.top == sb.value.bottom && sb.value.left == sb.value.right)) ==>
              MergeSelected(d) == Done(d)
  {
    var sb := SelectionBound(FormalMatrix(d.rows, d.cells), AllSelected(d));
    var ps := Placements(d.rows);
    if sb.Some? && sb.value.NoSelection? {
      NothingMet(ps, d.cells, sb.value);
    }
  }

  /** Without a selection the scan meets no cell. */
  lemma {:induction false} NothingMet(ps: seq<Placement>, cells: map<CellId, Cell>, b: Bound)
    requires b.NoSelection?
    ensures Gather(ps, cells, b).met == []
  {
    if |ps| > 0 {
      NothingMet(ps[..|ps| - 1], cells, b);
    }
  }
}

/**
 * Table cells as the table engine sees them: a `td` element reduced to the attributes the
 * engine reads or writes (colspan, rowspan, class, the selection marker)
 * and its content, which the engine only tests for emptiness and concatenates.
 */
module Cells {
  import opened Wrappers

  /** Document identity of a cell element. */
  type CellId = nat

  /** The markup inside a cell; opaque to the engine. */
  type Html = string

  /**
   * A span attribute is `None` when absent and `Some(n)` when present with the integer value
   * `n` (a value that does not parse is represented by `Some(0)`, which every read below
   * treats exactly as the DOM treats an unparsable value).
   */
  datatype Cell = Cell(
    colspan: Option<int>,
    rowspan: Option<int>,
    cls: Option<string>,
    selected: bool,
    html: Html)

  /** The DOM's `colSpan`/`rowSpan` getter: the attribute's value when it is a positive integer, else 1. */
  function SpanValue(attr: Option<int>): (n: int)
    ensures n >= 1
    ensures n == 1 <==> attr.None? || attr.value <= 1
    ensures attr.Some? && attr.value >= 1 ==> n == attr.value
  {
    match attr
    case Some(v) => if v >= 1 then v else 1
    case None => 1
  }

  function ColSpan(c: Cell): int { SpanValue(c.colspan) }
  function RowSpan(c: Cell): int { SpanValue(c.rowspan) }

  /**
   * Writing a span: the attribute is set when the value exceeds 1 and removed otherwise
   * (Table.ts removeRow, removeColumn and __unmark all follow this rule).
   */
  function SpanAttr(v: int): (a: Option<int>)
    ensures SpanValue(a) == if v > 1 then v else 1
    ensures a.None? || a.value >= 2
  {
    if v > 1 then Some(v) else None
  }

  /** A cell made by `Dom.create('td')`: no attributes, not selected. */
  function NewCell(html: Html): (c: Cell)
    ensures ColSpan(c) == 1 && RowSpan(c) == 1 && !c.selected && c.html == html
  {
    Cell(None, None, None, false, html)
  }

  /** The `<br>` a split puts into the cell it creates. */
  const BreakHtml: Html := "<br>"

  /**
   * The writes queued for one cell by `__mark`, one slot per key: a later write to the
   * same key replaces the earlier one.
   */
  datatype Pending = Pending(remove: bool, rowspan: Option<int>, colspan: Option<int>)

  const NoWrites: Pending := Pending(false, None, None)

  /** The queued keys of `__mark` (the `width` key is not part of this model). */
  datatype Write = Remove | RowSpanTo(n: int) | ColSpanTo(n: int)

  /** `cell.__marked_value[key] = value`: record a write, replacing an earlier one to the same key. */
  function Queue(p: Pending, w: Write): Pending
  {
    match w
    case Remove => p.(remove := true)
    case RowSpanTo(n) => p.(rowspan := Some(n))
    case ColSpanTo(n) => p.(colspan := Some(n))
  }

  /** The two writes go to the same key of `__marked_value`. */
  predicate SameKey(a: Write, b: Write)
  {
    (a.Remove? && b.Remove?) || (a.RowSpanTo? && b.RowSpanTo?) || (a.ColSpanTo? && b.ColSpanTo?)
  }

  /** A later write to a key replaces the earlier one. */
  lemma QueueLastWins(p: Pending, a: Write, b: Write)
    requires SameKey(a, b)
    ensures Queue(Queue(p, a), b) == Queue(p, b)
  {
  }

  /** Writes to different keys do not interfere: their order does not matter. */
  lemma QueueCommutes(p: Pending, a: Write, b: Write)
    requires !SameKey(a, b)
    ensures Queue(Queue(p, a), b) == Queue(Queue(p, b), a)
  {
  }

  /** What `__unmark` does to the attributes of one cell (detaching it is done on the rows). */
  function ApplyAttrs(c: Cell, p: Pending): (r: Cell)
    ensures RowSpan(r) == if p.rowspan.Some? then (if p.rowspan.value > 1 then p.rowspan.value else 1) else RowSpan(c)
    ensures ColSpan(r) == if p.colspan.Some? then (if p.colspan.value > 1 then p.colspan.value else 1) else ColSpan(c)
    ensures r.cls == c.cls && r.selected == c.selected && r.html == c.html
  {
    c.(rowspan := if p.rowspan.Some? then SpanAttr(p.rowspan.value) else c.rowspan,
       colspan := if p.colspan.Some? then SpanAttr(p.colspan.value) else c.colspan)
  }
}

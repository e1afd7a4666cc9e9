/**
 * The redraw bookkeeping of `tagCell`: a `java.awt.Rectangle` in cell coordinates
 * (x is the column, y the row) that grows to the smallest box holding every cell
 * whose tag changed since the renderer last consumed it.
 */
module Region {
  import opened Wrappers
  import opened Grid

  /** A rectangle covering columns x..x+width and rows y..y+height (both ends included). */
  datatype Area = Area(x: int, y: int, width: int, height: int)

  predicate WellFormed(a: Area) {
    a.width >= 0 && a.height >= 0
  }

  predicate Covers(a: Area, px: int, py: int) {
    a.x <= px <= a.x + a.width && a.y <= py <= a.y + a.height
  }

  predicate Encloses(outer: Area, inner: Area) {
    && outer.x <= inner.x && inner.x + inner.width <= outer.x + outer.width
    && outer.y <= inner.y && inner.y + inner.height <= outer.y + outer.height
  }

  /** `Rectangle.add(px, py)`: the box grown to take in the point. */
  function Add(a: Area, px: int, py: int): (r: Area)
    requires WellFormed(a)
    ensures WellFormed(r) && Covers(r, px, py) && Encloses(r, a)
  {
    var x1 := Min(a.x, px);
    var y1 := Min(a.y, py);
    var x2 := Max(a.x + a.width, px);
    var y2 := Max(a.y + a.height, py);
    Area(x1, y1, x2 - x1, y2 - y1)
  }

  /**
   * The new `updateArea` after the tag of cell (py, px) changes: a fresh zero-size box
   * when nothing is pending (`updateArea == null`), otherwise the pending box grown.
   */
  function Touch(pending: Option<Area>, px: int, py: int): (r: Area)
    requires pending.Some? ==> WellFormed(pending.value)
    ensures WellFormed(r) && Covers(r, px, py)
    ensures pending.Some? ==> Encloses(r, pending.value)
  {
    match pending
    case None => Area(px, py, 0, 0)
    case Some(a) => Add(a, px, py)
  }

  /** No smaller box would do: any box holding the old one and the point holds the result. */
  lemma TouchIsSmallest(pending: Option<Area>, px: int, py: int, b: Area)
    requires pending.Some? ==> WellFormed(pending.value)
    requires Covers(b, px, py)
    requires pending.Some? ==> Encloses(b, pending.value)
    ensures Encloses(b, Touch(pending, px, py))
  {
  }
}

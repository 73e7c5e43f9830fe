// Damage boxes: the dirty rectangle that kernel/drivers/comp.c and
// kernel/drivers/fb.c each accumulate between two repaints.

module Damage {
  import opened Words

  /** Half-open, as in the C code: x0 <= x < x1 and y0 <= y < y1. */
  datatype Box = Clean | Dirty(x0: int, y0: int, x1: int, y1: int)

  predicate In(b: Box, x: int, y: int) {
    b.Dirty? && b.x0 <= x < b.x1 && b.y0 <= y < b.y1
  }

  predicate WellFormed(b: Box, w: int, h: int) {
    b.Dirty? ==> 0 <= b.x0 < b.x1 <= w && 0 <= b.y0 < b.y1 <= h
  }

  /** The part of a rectangle on a w x h screen. */
  function Clip(x0: int, y0: int, x1: int, y1: int, w: int, h: int): (b: Box)
    ensures WellFormed(b, w, h)
    ensures forall x, y :: In(b, x, y) <==> (In(Dirty(x0, y0, x1, y1), x, y) && 0 <= x < w && 0 <= y < h)
  {
    var cx0, cy0 := if x0 < 0 then 0 else x0, if y0 < 0 then 0 else y0;
    var cx1, cy1 := if x1 > w then w else x1, if y1 > h then h else y1;
    if cx0 >= cx1 || cy0 >= cy1 then Clean else Dirty(cx0, cy0, cx1, cy1)
  }

  /** The smallest box around two. */
  function Hull(a: Box, b: Box): (r: Box)
    ensures forall w, h :: WellFormed(a, w, h) && WellFormed(b, w, h) ==> WellFormed(r, w, h)
    ensures forall x, y :: In(a, x, y) || In(b, x, y) ==> In(r, x, y)
  {
    if a.Clean? then b
    else if b.Clean? then a
    else Dirty(if b.x0 < a.x0 then b.x0 else a.x0, if b.y0 < a.y0 then b.y0 else a.y0,
               if b.x1 > a.x1 then b.x1 else a.x1, if b.y1 > a.y1 then b.y1 else a.y1)
  }

  /** No smaller box would do: every box around both contains the hull. */
  lemma HullIsLeast(a: Box, b: Box, c: Box, w: int, h: int)
    requires WellFormed(a, w, h) && WellFormed(b, w, h)
    requires forall x, y :: In(a, x, y) || In(b, x, y) ==> In(c, x, y)
    ensures forall x, y :: In(Hull(a, b), x, y) ==> In(c, x, y)
  {
    if a.Dirty? {
      assert In(a, a.x0, a.y0) && In(a, a.x1 - 1, a.y1 - 1);
    }
    if b.Dirty? {
      assert In(b, b.x0, b.y0) && In(b, b.x1 - 1, b.y1 - 1);
    }
  }
}

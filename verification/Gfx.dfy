// The drawing primitives of kernel/drivers/gfx.c on 32-bit surfaces.
//
// A surface is a linear buffer of 4-byte pixels with a row stride.  What a
// buffer shows is its Image, a value; each primitive is proved to turn the old
// Image into a given function of it.

module Gfx {
  import opened Words

  /** A 32-bit XRGB pixel, in the order its four bytes are stored. */
  datatype Px = Px(b: byte, g: byte, r: byte, x: byte)

  type Point = (int, int)

  /** Rows from top to bottom, each from left to right. */
  type Image = seq<seq<Px>>

  const Black := Px(0, 0, 0, 0)

  // Bounds within which the C code's signed 32-bit arithmetic is exact.  A line's
  // doubled error term stays within three times its span.
  const COORD_MAX := 0x2000_0000
  const LINE_SPAN_MAX := 715_827_882

  predicate Coord(v: int) {
    -COORD_MAX <= v <= COORD_MAX
  }

  function Abs(a: int): nat {
    if a < 0 then -a else a
  }

  function Rgb(p: Px): Px {
    p.(x := 0)
  }

  predicate HasSize(img: Image, w: nat, h: nat) {
    |img| == h && forall j :: 0 <= j < h ==> |img[j]| == w
  }

  predicate Inside(img: Image, i: int, j: int) {
    0 <= j < |img| && 0 <= i < |img[j]|
  }

  // ----- What the primitives do to an image --------------------------------

  /** The image with every point of pts it contains set to c. */
  function Stamp(img: Image, pts: set<Point>, c: Px): (r: Image)
    ensures |r| == |img|
    ensures forall j :: 0 <= j < |img| ==> |r[j]| == |img[j]|
    ensures forall i, j :: Inside(img, i, j) ==> r[j][i] == if (i, j) in pts then c else img[j][i]
  {
    seq(|img|, j requires 0 <= j < |img| => StampRow(img[j], j, pts, c))
  }

  function StampRow(row: seq<Px>, j: int, pts: set<Point>, c: Px): (r: seq<Px>)
    ensures |r| == |row|
    ensures forall i :: 0 <= i < |row| ==> r[i] == if (i, j) in pts then c else row[i]
  {
    seq(|row|, i requires 0 <= i < |row| => if (i, j) in pts then c else row[i])
  }

  /** Two images of the same shape that agree at every point are equal. */
  lemma SameImage(a: Image, b: Image)
    requires |a| == |b|
    requires forall j :: 0 <= j < |a| ==> |a[j]| == |b[j]|
    requires forall i, j :: Inside(a, i, j) ==> a[j][i] == b[j][i]
    ensures a == b
  {
    forall j | 0 <= j < |a|
      ensures a[j] == b[j]
    {
      assert forall i :: 0 <= i < |a[j]| ==> Inside(a, i, j);
    }
  }

  lemma StampTwice(img: Image, s: set<Point>, t: set<Point>, c: Px)
    ensures Stamp(Stamp(img, s, c), t, c) == Stamp(img, s + t, c)
  {
    var once := Stamp(img, s, c);
    assert forall i, j :: Inside(img, i, j) ==> Inside(once, i, j);
    SameImage(Stamp(once, t, c), Stamp(img, s + t, c));
  }

  /** Only the points inside the image matter. */
  lemma StampCong(img: Image, s: set<Point>, t: set<Point>, c: Px)
    requires forall i, j :: Inside(img, i, j) ==> ((i, j) in s <==> (i, j) in t)
    ensures Stamp(img, s, c) == Stamp(img, t, c)
  {
    SameImage(Stamp(img, s, c), Stamp(img, t, c));
  }

  lemma StampNothing(img: Image, c: Px)
    ensures Stamp(img, {}, c) == img
  {
    SameImage(Stamp(img, {}, c), img);
  }

  function RectPts(x: int, y: int, w: int, h: int): set<Point> {
    set i, j | x <= i < x + w && y <= j < y + h :: (i, j)
  }

  // ----- Lines ---------------------------------------------------------------

  /** a/b to the nearest integer, halves downwards. */
  function RoundHalfDown(a: nat, b: nat): int
    requires b > 0
  {
    (2 * a + b - 1) / (2 * b)
  }

  function LineSteps(x0: int, y0: int, x1: int, y1: int): nat {
    Max(Abs(x1 - x0), Abs(y1 - y0))
  }

  /** from after n unit steps towards to. */
  function Toward(from: int, to: int, n: int): int {
    if from < to then from + n else from - n
  }

  /** The ideal line after k steps along its longer axis: the exact position,
      rounded to the nearest pixel on the shorter axis. */
  function LinePoint(x0: int, y0: int, x1: int, y1: int, k: nat): Point {
    var dx, dy := Abs(x1 - x0), Abs(y1 - y0);
    if dx == 0 && dy == 0 then (x0, y0)
    else if dx >= dy then (Toward(x0, x1, k), Toward(y0, y1, RoundHalfDown(k * dy, dx)))
    else (Toward(x0, x1, RoundHalfDown(k * dx, dy)), Toward(y0, y1, k))
  }

  /** q is the rounding of a/b exactly when it is within half of it, ties going down. */
  lemma RoundHalfDownIs(a: nat, b: int, q: int)
    requires b > 0
    ensures -b <= 2 * (q * b - a) < b <==> q == RoundHalfDown(a, b)
  {
    DivExactly(2 * a + b - 1, 2 * b, q);
    assert q * (2 * b) == 2 * (q * b);
  }

  /** i x-steps and j y-steps have been made and the point is the nearest one. */
  predicate OnLine(dx: int, dy: int, i: int, j: int) {
    if dx >= dy then -dx <= 2 * (j * dx - i * dy) < dx else -dy <= 2 * (i * dy - j * dx) < dy
  }

  /** One turn of the Bresenham loop: the error term decides exactly the steps
      that keep the point nearest to the ideal line. */
  lemma LineStep(dx: int, dy: int, i: int, j: int, err: int)
    requires 0 <= dx && 0 <= dy && (dx > 0 || dy > 0) && OnLine(dx, dy, i, j)
    requires err == dx - dy + j * dx - i * dy
    ensures dx >= dy ==> 2 * err > -dy
    ensures dx < dy ==> 2 * err < dx
    ensures var i', j' := if 2 * err > -dy then i + 1 else i, if 2 * err < dx then j + 1 else j;
      && OnLine(dx, dy, i', j')
      && (err - if 2 * err > -dy then dy else 0) + (if 2 * err < dx then dx else 0) == dx - dy + j' * dx - i' * dy
    ensures -3 * Max(dx, dy) <= 2 * err <= 3 * Max(dx, dy)
  {
    assert (i + 1) * dy == i * dy + dy && (j + 1) * dx == j * dx + dx;
    if dx == dy {
      MulGap(i, j, dx);
      MulGap(j, i, dx);
    }
  }

  /** The k-th ideal point is the one reached by k steps on the longer axis. */
  lemma OnLineIsLinePoint(x0: int, y0: int, x1: int, y1: int, i: nat, j: nat)
    requires var dx, dy := Abs(x1 - x0), Abs(y1 - y0); (dx > 0 || dy > 0)
    ensures var dx, dy := Abs(x1 - x0), Abs(y1 - y0);
      OnLine(dx, dy, i, j)
      <==> (Toward(x0, x1, i), Toward(y0, y1, j)) == LinePoint(x0, y0, x1, y1, if dx >= dy then i else j)
  {
    var dx, dy := Abs(x1 - x0), Abs(y1 - y0);
    if dx >= dy {
      RoundHalfDownIs(i * dy, dx, j);
    } else {
      RoundHalfDownIs(j * dx, dy, i);
    }
  }

  lemma LineEnds(x0: int, y0: int, x1: int, y1: int)
    ensures LinePoint(x0, y0, x1, y1, 0) == (x0, y0)
    ensures LinePoint(x0, y0, x1, y1, LineSteps(x0, y0, x1, y1)) == (x1, y1)
  {
    var dx, dy := Abs(x1 - x0), Abs(y1 - y0);
    var long, short := Max(dx, dy), Min(dx, dy);
    if long > 0 {
      RoundHalfDownIs(0, long, 0);
      assert 0 * short == 0 && long * short == short * long;
      RoundHalfDownIs(long * short, long, short);
    }
  }

  /** Each step goes to one of the eight neighbours. */
  lemma LineAdjacent(x0: int, y0: int, x1: int, y1: int, k: nat)
    requires k < LineSteps(x0, y0, x1, y1)
    ensures var p, q := LinePoint(x0, y0, x1, y1, k), LinePoint(x0, y0, x1, y1, k + 1);
      p != q && Abs(q.0 - p.0) <= 1 && Abs(q.1 - p.1) <= 1
  {
    var dx, dy := Abs(x1 - x0), Abs(y1 - y0);
    var long, short := Max(dx, dy), Min(dx, dy);
    assert (k + 1) * short == k * short + short;
    RoundStep(k * short, (k + 1) * short, long);
  }

  /** The shorter axis advances by zero or one. */
  lemma RoundStep(a: nat, b: nat, long: nat)
    requires long > 0 && a <= b <= a + long
    ensures 0 <= RoundHalfDown(b, long) - RoundHalfDown(a, long) <= 1
  {
    var p, q := RoundHalfDown(a, long), RoundHalfDown(b, long);
    RoundHalfDownIs(a, long, p);
    RoundHalfDownIs(b, long, q);
    MulGap(q, p, long);
    MulGap(p + 1, q, long);
    assert (p + 1) * long == p * long + long;
  }

  // ----- Surfaces --------------------------------------------------------------

  lemma IndexInRange(x: int, y: int, w: int, h: int, stride: int)
    requires 0 <= x < w <= stride && 0 <= y < h
    ensures 0 <= y * stride + x < h * stride
  {
    MulGap(y, h, stride);
    assert y * stride >= 0;
  }

  lemma IndexInjective(x: int, y: int, x': int, y': int, stride: int)
    requires 0 <= x < stride && 0 <= x' < stride
    requires y * stride + x == y' * stride + x'
    ensures x == x' && y == y'
  {
    MulGap(y, y', stride);
    MulGap(y', y, stride);
  }

  class Surface {
    const w: nat
    const h: nat
    const stride: nat  // pitch / 4
    const pixels: array<Px>

    /** The size is one of ints: surf_put compares coordinates with (int)w and (int)h. */
    ghost predicate Valid() {
      w <= stride && h * stride <= pixels.Length && Int32(w) && Int32(h)
    }

    constructor (w: nat, h: nat, stride: nat, pixels: array<Px>)
      requires w <= stride && h * stride <= pixels.Length && Int32(w) && Int32(h)
      ensures this.w == w && this.h == h && this.stride == stride && this.pixels == pixels
      ensures Valid()
    {
      this.w, this.h, this.stride, this.pixels := w, h, stride, pixels;
    }

    function Index(x: int, y: int): (r: nat)
      requires Valid() && 0 <= x < w && 0 <= y < h
      ensures r < pixels.Length
    {
      IndexInRange(x, y, w, h, stride);
      y * stride + x
    }

    ghost function Img(): (img: Image)
      requires Valid()
      reads pixels
      ensures HasSize(img, w, h)
    {
      seq(h, y requires 0 <= y < h && Valid() reads pixels => Row(y))
    }

    ghost function Row(y: nat): (row: seq<Px>)
      requires Valid() && y < h
      reads pixels
      ensures |row| == w
    {
      seq(w, x requires 0 <= x < w && Valid() reads pixels => pixels[Index(x, y)])
    }

    /** Writes one pixel of the buffer. */
    method Write(x: int, y: int, c: Px)
      requires Valid() && 0 <= x < w && 0 <= y < h
      modifies pixels
      ensures Img() == Stamp(old(Img()), {(x, y)}, c)
    {
      pixels[Index(x, y)] := c;
      forall i, j | 0 <= i < w && 0 <= j < h
        ensures Img()[j][i] == if (i, j) in {(x, y)} then c else old(Img())[j][i]
      {
        if Index(i, j) == Index(x, y) {
          IndexInjective(i, j, x, y, stride);
        }
      }
      SameImage(Img(), Stamp(old(Img()), {(x, y)}, c));
    }

    /** surf_put: a pixel outside the surface is dropped. */
    method Put(x: int, y: int, c: Px)
      requires Valid()
      modifies pixels
      ensures Img() == Stamp(old(Img()), {(x, y)}, c)
    {
      if x < 0 || y < 0 || x >= w || y >= h {
        StampCong(Img(), {(x, y)}, {}, c);
        StampNothing(Img(), c);
        return;
      }
      Write(x, y, c);
    }

    /** Puts one more pixel of a shape; pts is what has been drawn since img. */
    method PutMore(x: int, y: int, c: Px, ghost img: Image, ghost pts: set<Point>)
      requires Valid() && Img() == Stamp(img, pts, c)
      modifies pixels
      ensures Img() == Stamp(img, pts + {(x, y)}, c)
    {
      Put(x, y, c);
      StampTwice(img, pts, {(x, y)}, c);
    }
  }

  // ----- The primitives --------------------------------------------------------

  lemma RectRow(x: int, y: int, w: int, h: int)
    requires 0 <= h
    ensures RectPts(x, y, w, h + 1) == RectPts(x, y, w, h) + RectPts(x, y + h, w, 1)
  {
  }

  lemma RectColumn(x: int, y: int, w: int)
    requires 0 <= w
    ensures RectPts(x, y, w + 1, 1) == RectPts(x, y, w, 1) + {(x + w, y)}
  {
  }

  /** raster_clip_rect: the part of a rectangle inside [0,bw) x [0,bh).  The sums are
      64-bit, so nothing overflows for any int arguments, and the results are ints. */
  method ClipRect(x: int, y: int, w: int, h: int, bw: int, bh: int)
    returns (ok: bool, ox: int, oy: int, ow: int, oh: int)
    requires Int32(x) && Int32(y) && Int32(w) && Int32(h) && Int32(bw) && Int32(bh)
    ensures ok ==> 0 < ow && 0 < oh && Int32(ox) && Int32(oy) && Int32(ox + ow) && Int32(oy + oh)
    ensures RectPts(x, y, w, h) * RectPts(0, 0, bw, bh) == if ok then RectPts(ox, oy, ow, oh) else {}
  {
    ok, ox, oy, ow, oh := false, 0, 0, 0, 0;
    if w <= 0 || h <= 0 || bw <= 0 || bh <= 0 { return; }
    var x0 := if x > 0 then x else 0;
    var y0 := if y > 0 then y else 0;
    var x1, y1 := x + w, y + h;
    assert Int64(x1) && Int64(y1);
    if x1 > bw { x1 := bw; }
    if y1 > bh { y1 := bh; }
    if x1 <= x0 || y1 <= y0 { return; }
    ok, ox, oy, ow, oh := true, x0, y0, x1 - x0, y1 - y0;
  }

  /** One row of gfx_fill_rect. */
  method FillRow(s: Surface, x: int, y: int, w: nat, color: Px, ghost img: Image, ghost pts: set<Point>)
    requires s.Valid() && s.Img() == Stamp(img, pts, color)
    modifies s.pixels
    ensures s.Img() == Stamp(img, pts + RectPts(x, y, w, 1), color)
  {
    assert pts + RectPts(x, y, 0, 1) == pts;
    for xx := x to x + w
      invariant s.Img() == Stamp(img, pts + RectPts(x, y, xx - x, 1), color)
    {
      ghost var done := pts + RectPts(x, y, xx - x, 1);
      s.PutMore(xx, y, color, img, done);
      RectColumn(x, y, xx - x);
      assert done + {(xx, y)} == pts + RectPts(x, y, xx + 1 - x, 1);
    }
  }

  /** gfx_fill_rect. */
  method FillRect(s: Surface, x: int, y: int, w: int, h: int, color: Px)
    requires s.Valid() && Int32(x) && Int32(y) && Int32(w) && Int32(h)
    modifies s.pixels
    ensures s.Img() == Stamp(old(s.Img()), RectPts(x, y, w, h), color)
  {
    ghost var img := s.Img();
    StampNothing(img, color);
    var ok, cx, cy, cw, ch := ClipRect(x, y, w, h, s.w, s.h);
    FillClipped(img, s.w, s.h, RectPts(x, y, w, h), color);
    if !ok { return; }
    assert RectPts(cx, cy, cw, 0) == {};
    for yy := cy to cy + ch
      invariant s.Img() == Stamp(img, RectPts(cx, cy, cw, yy - cy), color)
    {
      FillRow(s, cx, yy, cw, color, img, RectPts(cx, cy, cw, yy - cy));
      RectRow(cx, cy, cw, yy - cy);
    }
  }

  lemma FillClipped(img: Image, w: nat, h: nat, pts: set<Point>, c: Px)
    requires HasSize(img, w, h)
    ensures Stamp(img, pts, c) == Stamp(img, pts * RectPts(0, 0, w, h), c)
  {
    StampCong(img, pts, pts * RectPts(0, 0, w, h), c);
  }

  method Fill(s: Surface, color: Px)
    requires s.Valid()
    modifies s.pixels
    ensures s.Img() == Stamp(old(s.Img()), RectPts(0, 0, s.w, s.h), color)
  {
    FillRect(s, 0, 0, s.w, s.h, color);
  }

  /** The first m points of a line. */
  function LinePrefix(x0: int, y0: int, x1: int, y1: int, m: nat): set<Point> {
    set k: nat | 0 <= k < m :: LinePoint(x0, y0, x1, y1, k)
  }

  function LinePts(x0: int, y0: int, x1: int, y1: int): set<Point> {
    LinePrefix(x0, y0, x1, y1, LineSteps(x0, y0, x1, y1) + 1)
  }

  lemma LineGrow(x0: int, y0: int, x1: int, y1: int, m: nat)
    ensures LinePrefix(x0, y0, x1, y1, m + 1) == LinePrefix(x0, y0, x1, y1, m) + {LinePoint(x0, y0, x1, y1, m)}
  {
    assert LinePoint(x0, y0, x1, y1, m) in LinePrefix(x0, y0, x1, y1, m + 1);
  }

  /** The state of the Bresenham loop after i x-steps and j y-steps. */
  ghost predicate Bresenham(x0: int, y0: int, x1: int, y1: int, x: int, y: int, err: int, i: nat, j: nat) {
    var dx, dy := Abs(x1 - x0), Abs(y1 - y0);
    && x == Toward(x0, x1, i) && y == Toward(y0, y1, j)
    && (if dx >= dy then i <= dx else j <= dy)
    && err == dx - dy + j * dx - i * dy
    && (if dx == dy == 0 then i == j == 0 else OnLine(dx, dy, i, j))
  }

  /** The point is the k-th ideal one, and it is the last exactly when k is. */
  lemma BresenhamPoint(x0: int, y0: int, x1: int, y1: int, x: int, y: int, err: int, i: nat, j: nat)
    requires Bresenham(x0, y0, x1, y1, x, y, err, i, j)
    ensures var k := LongSteps(x0, y0, x1, y1, i, j);
      && k <= LineSteps(x0, y0, x1, y1)
      && (x, y) == LinePoint(x0, y0, x1, y1, k)
      && ((x, y) == (x1, y1) <==> k == LineSteps(x0, y0, x1, y1))
  {
    LineEnds(x0, y0, x1, y1);
    if x0 != x1 || y0 != y1 {
      OnLineIsLinePoint(x0, y0, x1, y1, i, j);
    }
  }

  function LongSteps(x0: int, y0: int, x1: int, y1: int, i: nat, j: nat): nat {
    if Abs(x1 - x0) >= Abs(y1 - y0) then i else j
  }

  /** The loop body after the pixel is put: one step on the longer axis, and
      one on the shorter when the error term says so. */
  method LineTurn(x0: int, y0: int, x1: int, y1: int, x: int, y: int, err: int, ghost i: nat, ghost j: nat)
    returns (x': int, y': int, err': int, ghost i': nat, ghost j': nat)
    requires Bresenham(x0, y0, x1, y1, x, y, err, i, j) && (x, y) != (x1, y1)
    requires Abs(x1 - x0) <= LINE_SPAN_MAX && Abs(y1 - y0) <= LINE_SPAN_MAX
    ensures Bresenham(x0, y0, x1, y1, x', y', err', i', j')
    ensures LongSteps(x0, y0, x1, y1, i', j') == LongSteps(x0, y0, x1, y1, i, j) + 1
  {
    hide LinePoint, OnLine;
    BresenhamPoint(x0, y0, x1, y1, x, y, err, i, j);
    var dx := if x1 >= x0 then x1 - x0 else x0 - x1;
    var dy := if y1 >= y0 then y1 - y0 else y0 - y1;
    var sx := if x0 < x1 then 1 else -1;
    var sy := if y0 < y1 then 1 else -1;
    x', y', err', i', j' := x, y, err, i, j;
    LineStep(dx, dy, i, j, err);
    var e2 := 2 * err;
    assert Int32(e2);
    if e2 > -dy { err' := err' - dy; x' := x' + sx; i' := i' + 1; }
    if e2 < dx { err' := err' + dx; y' := y' + sy; j' := j' + 1; }
    assert Int32(err');
  }

  /** gfx_line: Bresenham over all octants draws exactly the ideal line. */
  method Line(s: Surface, x0: int, y0: int, x1: int, y1: int, color: Px)
    requires s.Valid()
    requires Abs(x1 - x0) <= LINE_SPAN_MAX && Abs(y1 - y0) <= LINE_SPAN_MAX
    modifies s.pixels
    ensures s.Img() == Stamp(old(s.Img()), LinePts(x0, y0, x1, y1), color)
  {
    ghost var img := s.Img();
    assert LinePrefix(x0, y0, x1, y1, 0) == {};
    StampNothing(img, color);
    hide Stamp, LinePoint, LinePrefix;
    var err := (if x1 >= x0 then x1 - x0 else x0 - x1) - (if y1 >= y0 then y1 - y0 else y0 - y1);
    var x, y := x0, y0;
    ghost var i: nat, j: nat, k: nat := 0, 0, 0;
    while true
      invariant k == LongSteps(x0, y0, x1, y1, i, j) <= LineSteps(x0, y0, x1, y1)
      invariant Bresenham(x0, y0, x1, y1, x, y, err, i, j)
      invariant s.Img() == Stamp(img, LinePrefix(x0, y0, x1, y1, k), color)
      decreases LineSteps(x0, y0, x1, y1) - k
    {
      BresenhamPoint(x0, y0, x1, y1, x, y, err, i, j);
      LineGrow(x0, y0, x1, y1, k);
      s.PutMore(x, y, color, img, LinePrefix(x0, y0, x1, y1, k));
      if x == x1 && y == y1 { break; }
      x, y, err, i, j := LineTurn(x0, y0, x1, y1, x, y, err, i, j);
      k := k + 1;
    }
  }

  // ----- Outlines and text -------------------------------------------------------

  function BorderPts(x: int, y: int, w: int, h: int): set<Point> {
    RectPts(x, y, w, h) - RectPts(x + 1, y + 1, w - 2, h - 2)
  }

  lemma HorizontalLine(x: int, y: int, w: int)
    requires w > 0
    ensures LinePts(x, y, x + w - 1, y) == RectPts(x, y, w, 1)
  {
    var x1 := x + w - 1;
    forall k: nat | k < w
      ensures LinePoint(x, y, x1, y, k) == (x + k, y)
    {
      if w > 1 { RoundHalfDownIs(0, w - 1, 0); }
    }
    forall p | p in RectPts(x, y, w, 1)
      ensures p in LinePts(x, y, x + w - 1, y)
    {
      assert p == LinePoint(x, y, x + w - 1, y, p.0 - x);
    }
  }

  lemma VerticalLine(x: int, y: int, h: int)
    requires h > 0
    ensures LinePts(x, y, x, y + h - 1) == RectPts(x, y, 1, h)
  {
    var y1 := y + h - 1;
    forall k: nat | k < h
      ensures LinePoint(x, y, x, y1, k) == (x, y + k)
    {
      if h > 1 { RoundHalfDownIs(0, h - 1, 0); }
    }
    forall p | p in RectPts(x, y, 1, h)
      ensures p in LinePts(x, y, x, y + h - 1)
    {
      assert p == LinePoint(x, y, x, y + h - 1, p.1 - y);
    }
  }

  /** gfx_rect draws the four edges as lines; together they are the border. */
  method Rect(s: Surface, x: int, y: int, w: int, h: int, color: Px)
    requires s.Valid()
    requires w <= LINE_SPAN_MAX && h <= LINE_SPAN_MAX
    modifies s.pixels
    ensures s.Img() == Stamp(old(s.Img()), if w <= 0 || h <= 0 then {} else BorderPts(x, y, w, h), color)
  {
    hide Stamp, LinePts;
    ghost var img := s.Img();
    if w <= 0 || h <= 0 {
      StampNothing(img, color);
      return;
    }
    ghost var top, bottom := RectPts(x, y, w, 1), RectPts(x, y + h - 1, w, 1);
    ghost var left, right := RectPts(x, y, 1, h), RectPts(x + w - 1, y, 1, h);
    Line(s, x, y, x + w - 1, y, color);
    HorizontalLine(x, y, w);
    Line(s, x, y + h - 1, x + w - 1, y + h - 1, color);
    HorizontalLine(x, y + h - 1, w);
    StampTwice(img, top, bottom, color);
    Line(s, x, y, x, y + h - 1, color);
    VerticalLine(x, y, h);
    StampTwice(img, top + bottom, left, color);
    Line(s, x + w - 1, y, x + w - 1, y + h - 1, color);
    VerticalLine(x + w - 1, y, h);
    StampTwice(img, top + bottom + left, right, color);
    assert top + bottom + left + right == BorderPts(x, y, w, h);
  }

  /** The 8x8 glyph table; a character without an entry draws nothing. */
  type Font = map<byte, seq<seq<bool>>>

  predicate FontOk(font: Font) {
    forall c :: c in font ==> |font[c]| == 8 && forall r :: 0 <= r < 8 ==> |font[c][r]| == 8
  }

  function GlyphRows(font: Font, c: byte, x: int, y: int, rows: nat): set<Point>
    requires FontOk(font) && rows <= 8
  {
    set r, col | 0 <= r < rows && 0 <= col < 8 && c in font && font[c][r][col] :: (x + col, y + r)
  }

  function GlyphPts(font: Font, c: byte, x: int, y: int): set<Point>
    requires FontOk(font)
  {
    GlyphRows(font, c, x, y, 8)
  }

  function TextPts(font: Font, x: int, y: int, str: seq<byte>): (pts: set<Point>)
    requires FontOk(font)
    ensures pts <= RectPts(x, y, 8 * |str|, 8)
  {
    if str == [] then {} else
    TextPts(font, x, y, str[..|str| - 1]) + GlyphPts(font, str[|str| - 1], x + 8 * (|str| - 1), y)
  }

  /** Row r of the glyph is pixel row y + r, its bit k from the left pixel column x + k. */
  lemma GlyphAt(font: Font, c: byte, x: int, y: int, px: int, py: int)
    requires FontOk(font)
    ensures (px, py) in GlyphPts(font, c, x, y) <==>
      c in font && y <= py < y + 8 && x <= px < x + 8 && font[c][py - y][px - x]
  {
    if c in font && y <= py < y + 8 && x <= px < x + 8 && font[c][py - y][px - x] {
      var r, k := py - y, px - x;
      assert font[c][r][k] && (x + k, y + r) == (px, py);
    }
  }

  /** Character i of a text has its columns x + 8 * i to x + 8 * i + 7. */
  lemma {:induction false} TextAt(font: Font, x: int, y: int, str: seq<byte>, px: int, py: int)
    requires FontOk(font)
    ensures (px, py) in TextPts(font, x, y, str) <==>
      exists i :: 0 <= i < |str| && 8 * i <= px - x < 8 * i + 8 && 0 <= py - y < 8
                  && str[i] in font && font[str[i]][py - y][px - x - 8 * i]
  {
    if str != [] {
      var n := |str| - 1;
      TextAt(font, x, y, str[..n], px, py);
      GlyphAt(font, str[n], x + 8 * n, y, px, py);
      if i :| 0 <= i < n && 8 * i <= px - x < 8 * i + 8 && 0 <= py - y < 8
              && str[i] in font && font[str[i]][py - y][px - x - 8 * i] {
        assert str[..n][i] == str[i];
      }
    }
  }

  method GlyphDraw(s: Surface, font: Font, x: int, y: int, c: byte, fg: Px)
    requires s.Valid() && FontOk(font)
    modifies s.pixels
    ensures s.Img() == Stamp(old(s.Img()), GlyphPts(font, c, x, y), fg)
  {
    hide Stamp;
    ghost var img := s.Img();
    ghost var done: set<Point> := {};
    StampNothing(img, fg);
    for r := 0 to 8
      invariant s.Img() == Stamp(img, done, fg)
      invariant done == GlyphRows(font, c, x, y, r)
    {
      GlyphRow(s, font, x, y, c, r, fg, img, done);
      done := done + RowBits(font, c, x, y, r, 8);
      assert done == GlyphRows(font, c, x, y, r + 1);
    }
  }

  /** The first n bits of one row of a glyph. */
  function RowBits(font: Font, c: byte, x: int, y: int, r: nat, n: nat): set<Point>
    requires FontOk(font) && r < 8 && n <= 8
  {
    set k | 0 <= k < n && c in font && font[c][r][k] :: (x + k, y + r)
  }

  method GlyphRow(s: Surface, font: Font, x: int, y: int, c: byte, r: nat, fg: Px, ghost img: Image,
                  ghost pts: set<Point>)
    requires s.Valid() && FontOk(font) && r < 8 && s.Img() == Stamp(img, pts, fg)
    modifies s.pixels
    ensures s.Img() == Stamp(img, pts + RowBits(font, c, x, y, r, 8), fg)
  {
    hide Stamp;
    ghost var done := pts;
    assert pts + RowBits(font, c, x, y, r, 0) == pts;
    for col := 0 to 8
      invariant s.Img() == Stamp(img, done, fg) && done == pts + RowBits(font, c, x, y, r, col)
    {
      if c in font && font[c][r][col] {
        s.PutMore(x + col, y + r, fg, img, done);
        done := done + {(x + col, y + r)};
      }
    }
  }

  method Text(s: Surface, font: Font, x: int, y: int, str: seq<byte>, color: Px)
    requires s.Valid() && FontOk(font)
    modifies s.pixels
    ensures s.Img() == Stamp(old(s.Img()), TextPts(font, x, y, str), color)
  {
    ghost var img := s.Img();
    StampNothing(img, color);
    for k := 0 to |str|
      invariant s.Img() == Stamp(img, TextPts(font, x, y, str[..k]), color)
    {
      GlyphDraw(s, font, x + 8 * k, y, str[k], color);
      assert str[..k + 1][..k] == str[..k];
      StampTwice(img, TextPts(font, x, y, str[..k]), GlyphPts(font, str[k], x + 8 * k, y), color);
    }
    assert str[..|str|] == str;
  }

  // ----- Blits ---------------------------------------------------------------------

  /** How a source pixel is combined with the one below it: the row copy keeps
      all four bytes, the general path only the three of the colour. */
  datatype Mode = CopyWord | CopyRgb | Blend(a: int)

  lemma ByteScale(s: byte, a: nat)
    ensures 0 <= s * a <= 255 * a
  {
    assert (255 - s) * a >= 0;
  }

  function BlendByte(s: byte, d: byte, a: int): byte
    requires 0 < a < 255
  {
    ByteScale(s, a);
    ByteScale(d, 255 - a);
    (s * a + d * (255 - a)) / 255
  }

  /** Blending starts at the lower byte d and goes the fraction a/255 of the way to s,
      rounded down. */
  lemma BlendMoves(s: byte, d: byte, a: int)
    requires 0 < a < 255
    ensures 0 <= a * (s - d) - 255 * (BlendByte(s, d, a) - d) < 255
  {
    assert a * (s - d) == s * a - d * a && d * (255 - a) == 255 * d - d * a;
  }

  /** So it ends up between the two, ... */
  lemma BlendBetween(s: byte, d: byte, a: int)
    requires 0 < a < 255
    ensures Min(s, d) <= BlendByte(s, d, a) <= Max(s, d)
    ensures BlendByte(s, s, a) == s && BlendByte(255, 0, a) == a && BlendByte(0, 255, a) == 255 - a
  {
    BlendMoves(s, d, a);
    BlendMoves(s, s, a);
    BlendMoves(255, 0, a);
    BlendMoves(0, 255, a);
    Scaled(s - d, a);
    assert (255 - a) * 255 == 255 * (255 - a);
  }

  /** ... and a larger a never takes it further away from s. */
  lemma BlendNearer(s: byte, d: byte, a: int, b: int)
    requires 0 < a <= b < 255
    ensures Abs(s - BlendByte(s, d, b)) <= Abs(s - BlendByte(s, d, a))
  {
    BlendMoves(s, d, a);
    BlendMoves(s, d, b);
    BlendBetween(s, d, a);
    BlendBetween(s, d, b);
    ScaledBy(s - d, a, b);
  }

  lemma Scaled(x: int, a: int)
    requires 0 < a < 255
    ensures if x >= 0 then 0 <= a * x <= 255 * x else 255 * x <= a * x <= 0
  {
    assert 255 * x - a * x == (255 - a) * x;
    if x >= 0 { assert a * x >= 0 && (255 - a) * x >= 0; } else { assert a * x <= 0 && (255 - a) * x <= 0; }
  }

  lemma ScaledBy(x: int, a: int, b: int)
    requires a <= b
    ensures if x >= 0 then a * x <= b * x else b * x <= a * x
  {
    assert b * x - a * x == (b - a) * x;
    if x >= 0 { assert (b - a) * x >= 0; } else { assert (b - a) * x <= 0; }
  }

  function Mix(m: Mode, s: Px, d: Px): Px
    requires m.Blend? ==> 0 < m.a < 255
  {
    match m
    case CopyWord => s
    case CopyRgb => Rgb(s)
    case Blend(a) => Px(BlendByte(s.b, d.b, a), BlendByte(s.g, d.g, a), BlendByte(s.r, d.r, a), 255)
  }

  predicate ModeOk(m: Mode) {
    m.Blend? ==> 0 < m.a < 255
  }

  /** Target point (i, j) receives a source pixel. */
  predicate Hit(dx: int, dy: int, src: Image, sx: int, sy: int, w: int, h: int, i: int, j: int) {
    0 <= i - dx < w && 0 <= j - dy < h && Inside(src, sx + i - dx, sy + j - dy)
  }

  function ComposePx(dst: Image, dx: int, dy: int, src: Image, sx: int, sy: int, w: int, h: int, m: Mode,
                     i: int, j: int): Px
    requires ModeOk(m) && Inside(dst, i, j)
  {
    if Hit(dx, dy, src, sx, sy, w, h, i, j)
    then Mix(m, src[sy + j - dy][sx + i - dx], dst[j][i])
    else dst[j][i]
  }

  /** The w x h block of src at (sx, sy) combined into dst at (dx, dy): exactly
      the points with both ends in bounds are affected. */
  function Compose(dst: Image, dx: int, dy: int, src: Image, sx: int, sy: int, w: int, h: int, m: Mode): (r: Image)
    requires ModeOk(m)
    ensures |r| == |dst|
    ensures forall j :: 0 <= j < |dst| ==> |r[j]| == |dst[j]|
    ensures forall i, j :: Inside(dst, i, j) ==> r[j][i] == ComposePx(dst, dx, dy, src, sx, sy, w, h, m, i, j)
  {
    seq(|dst|, j requires 0 <= j < |dst| => ComposeRow(dst, dx, dy, src, sx, sy, w, h, m, j))
  }

  function ComposeRow(dst: Image, dx: int, dy: int, src: Image, sx: int, sy: int, w: int, h: int, m: Mode,
                      j: int): (r: seq<Px>)
    requires ModeOk(m) && 0 <= j < |dst|
    ensures |r| == |dst[j]|
    ensures forall i :: 0 <= i < |dst[j]| ==> r[i] == ComposePx(dst, dx, dy, src, sx, sy, w, h, m, i, j)
  {
    seq(|dst[j]|, i requires 0 <= i < |dst[j]| => ComposePx(dst, dx, dy, src, sx, sy, w, h, m, i, j))
  }

  lemma ComposeNothing(dst: Image, dx: int, dy: int, src: Image, sx: int, sy: int, w: int, h: int, m: Mode)
    requires ModeOk(m)
    requires forall i, j :: Inside(dst, i, j) ==> !Hit(dx, dy, src, sx, sy, w, h, i, j)
    ensures Compose(dst, dx, dy, src, sx, sy, w, h, m) == dst
  {
    SameImage(Compose(dst, dx, dy, src, sx, sy, w, h, m), dst);
  }

  /** A block can be combined row by row ... */
  lemma ComposeNextRow(dst: Image, dx: int, dy: int, src: Image, sx: int, sy: int, w: int, h: nat, m: Mode)
    requires ModeOk(m)
    ensures Compose(Compose(dst, dx, dy, src, sx, sy, w, h, m), dx, dy + h, src, sx, sy + h, w, 1, m)
         == Compose(dst, dx, dy, src, sx, sy, w, h + 1, m)
  {
    var part := Compose(dst, dx, dy, src, sx, sy, w, h, m);
    assert forall i, j :: Inside(dst, i, j) ==> Inside(part, i, j);
    SameImage(Compose(part, dx, dy + h, src, sx, sy + h, w, 1, m), Compose(dst, dx, dy, src, sx, sy, w, h + 1, m));
  }

  /** ... and a row pixel by pixel. */
  lemma ComposeNextPixel(dst: Image, dx: int, dy: int, src: Image, sx: int, sy: int, w: nat, m: Mode)
    requires ModeOk(m) && Inside(dst, dx + w, dy) && Inside(src, sx + w, sy)
    ensures Stamp(Compose(dst, dx, dy, src, sx, sy, w, 1, m), {(dx + w, dy)}, Mix(m, src[sy][sx + w], dst[dy][dx + w]))
         == Compose(dst, dx, dy, src, sx, sy, w + 1, 1, m)
  {
    var part := Compose(dst, dx, dy, src, sx, sy, w, 1, m);
    assert forall i, j :: Inside(dst, i, j) ==> Inside(part, i, j);
    SameImage(Stamp(part, {(dx + w, dy)}, Mix(m, src[sy][sx + w], dst[dy][dx + w])),
              Compose(dst, dx, dy, src, sx, sy, w + 1, 1, m));
  }

  lemma ComposeSkip(dst: Image, dx: int, dy: int, src: Image, sx: int, sy: int, w: nat, m: Mode)
    requires ModeOk(m) && !(Inside(dst, dx + w, dy) && Inside(src, sx + w, sy))
    ensures Compose(dst, dx, dy, src, sx, sy, w + 1, 1, m) == Compose(dst, dx, dy, src, sx, sy, w, 1, m)
  {
    SameImage(Compose(dst, dx, dy, src, sx, sy, w + 1, 1, m), Compose(dst, dx, dy, src, sx, sy, w, 1, m));
  }

  /** The buffers differ, or one surface is blitted onto a part of itself that does not
      overlap what is copied, as memcpy demands. */
  predicate Separate(dst: Surface, dx: int, dy: int, src: Surface, sx: int, sy: int, w: int, h: int) {
    dst.pixels != src.pixels || (dst == src && (Abs(dx - sx) >= w || Abs(dy - sy) >= h))
  }

  /** Where target and source do not overlap the source stays as it was. */
  lemma SourceKept(img: Image, dx: int, dy: int, from: Image, sx: int, sy: int, w: int, h: int, m: Mode,
                   wide: int, high: int, i: int, j: int)
    requires ModeOk(m) && w <= wide && h <= high && (Abs(dx - sx) >= wide || Abs(dy - sy) >= high)
    requires sx <= i < sx + wide && sy <= j < sy + high && Inside(img, i, j)
    ensures Compose(img, dx, dy, from, sx, sy, w, h, m)[j][i] == img[j][i]
  {
  }

  /** Only the part of the source that is copied matters. */
  lemma ComposeFrom(dst: Image, dx: int, dy: int, a: Image, b: Image, sx: int, sy: int, w: int, h: int, m: Mode)
    requires ModeOk(m) && |a| == |b| && forall j :: 0 <= j < |a| ==> |a[j]| == |b[j]|
    requires forall i, j :: Inside(a, i, j) && sx <= i < sx + w && sy <= j < sy + h ==> a[j][i] == b[j][i]
    ensures Compose(dst, dx, dy, a, sx, sy, w, h, m) == Compose(dst, dx, dy, b, sx, sy, w, h, m)
  {
    SameImage(Compose(dst, dx, dy, a, sx, sy, w, h, m), Compose(dst, dx, dy, b, sx, sy, w, h, m));
  }

  /** In the middle of a row the next pixel of the source is as it was at the start. */
  lemma NextSource(dst: Surface, dx: int, dy: int, src: Surface, sx: int, sy: int, w: nat, m: Mode,
                   img: Image, from: Image, c: nat)
    requires dst.Valid() && src.Valid() && Separate(dst, dx, dy, src, sx, sy, w, 1) && ModeOk(m) && c < w
    requires 0 <= sx && sx + w <= src.w && 0 <= sy < src.h && HasSize(img, dst.w, dst.h) && HasSize(from, src.w, src.h)
    requires dst.Img() == Compose(img, dx, dy, from, sx, sy, c, 1, m)
    requires if dst == src then img == from else src.Img() == from
    ensures src.pixels[src.Index(sx + c, sy)] == from[sy][sx + c]
  {
    hide Compose;
    if dst == src { SourceKept(img, dx, dy, from, sx, sy, c, 1, m, w, 1, sx + c, sy); }
    assert src.pixels[src.Index(sx + c, sy)] == src.Img()[sy][sx + c];
  }

  /** memcpy of one row of w pixels. */
  method CopyRow(dst: Surface, dx: int, dy: int, src: Surface, sx: int, sy: int, w: nat)
    requires dst.Valid() && src.Valid() && Separate(dst, dx, dy, src, sx, sy, w, 1)
    requires 0 <= dx && dx + w <= dst.w && 0 <= dy < dst.h
    requires 0 <= sx && sx + w <= src.w && 0 <= sy < src.h
    modifies dst.pixels
    ensures dst.Img() == Compose(old(dst.Img()), dx, dy, old(src.Img()), sx, sy, w, 1, CopyWord)
  {
    hide Compose, Stamp;
    ghost var img, from := dst.Img(), src.Img();
    ComposeNothing(img, dx, dy, from, sx, sy, 0, 1, CopyWord);
    for c := 0 to w
      invariant dst.Img() == Compose(img, dx, dy, from, sx, sy, c, 1, CopyWord)
    {
      ComposeNextPixel(img, dx, dy, from, sx, sy, c, CopyWord);
      NextSource(dst, dx, dy, src, sx, sy, w, CopyWord, img, from, c);
      dst.Write(dx + c, dy, src.pixels[src.Index(sx + c, sy)]);
    }
  }

  /** One row of the general path: surf_put of the three colour bytes. */
  method PutRow(dst: Surface, dx: int, dy: int, src: Surface, sx: int, sy: int, w: nat)
    requires dst.Valid() && src.Valid() && Separate(dst, dx, dy, src, sx, sy, w, 1)
    requires 0 <= dx && dx + w <= dst.w && 0 <= dy < dst.h
    requires 0 <= sx && sx + w <= src.w && 0 <= sy < src.h
    modifies dst.pixels
    ensures dst.Img() == Compose(old(dst.Img()), dx, dy, old(src.Img()), sx, sy, w, 1, CopyRgb)
  {
    hide Compose, Stamp;
    ghost var img, from := dst.Img(), src.Img();
    ComposeNothing(img, dx, dy, from, sx, sy, 0, 1, CopyRgb);
    for c := 0 to w
      invariant dst.Img() == Compose(img, dx, dy, from, sx, sy, c, 1, CopyRgb)
    {
      ComposeNextPixel(img, dx, dy, from, sx, sy, c, CopyRgb);
      NextSource(dst, dx, dy, src, sx, sy, w, CopyRgb, img, from, c);
      dst.Put(dx + c, dy, Rgb(src.pixels[src.Index(sx + c, sy)]));
    }
  }

  /** The path gfx_blit takes. */
  function BlitMode(dst: Surface, src: Surface): Mode {
    if dst.stride == dst.w && src.stride == src.w then CopyWord else CopyRgb
  }

  /** gfx_blit once clipped: row by row. */
  method BlitRows(dst: Surface, dx: int, dy: int, src: Surface, sx: int, sy: int, w: nat, h: nat)
    requires dst.Valid() && src.Valid() && Separate(dst, dx, dy, src, sx, sy, w, h)
    requires 0 <= dx && dx + w <= dst.w && 0 <= dy && dy + h <= dst.h
    requires 0 <= sx && sx + w <= src.w && 0 <= sy && sy + h <= src.h
    modifies dst.pixels
    ensures dst.Img() == Compose(old(dst.Img()), dx, dy, old(src.Img()), sx, sy, w, h, BlitMode(dst, src))
  {
    hide Compose;
    ghost var img, from, m := dst.Img(), src.Img(), BlitMode(dst, src);
    ComposeNothing(img, dx, dy, from, sx, sy, w, 0, m);
    for r := 0 to h
      invariant dst.Img() == Compose(img, dx, dy, from, sx, sy, w, r, m)
    {
      ComposeNextRow(img, dx, dy, from, sx, sy, w, r, m);
      RowFrom(dst, dx, dy, src, sx, sy, w, h, m, img, from, r);
      if dst.stride == dst.w && src.stride == src.w {
        CopyRow(dst, dx, dy + r, src, sx, sy + r, w);
      } else {
        PutRow(dst, dx, dy + r, src, sx, sy + r, w);
      }
    }
  }

  /** For the next row the source is as it was at the start. */
  lemma RowFrom(dst: Surface, dx: int, dy: int, src: Surface, sx: int, sy: int, w: nat, h: nat, m: Mode,
                img: Image, from: Image, r: nat)
    requires dst.Valid() && src.Valid() && Separate(dst, dx, dy, src, sx, sy, w, h) && ModeOk(m) && r < h
    requires HasSize(from, src.w, src.h) && HasSize(img, dst.w, dst.h)
    requires dst.Img() == Compose(img, dx, dy, from, sx, sy, w, r, m)
    requires if dst == src then img == from else src.Img() == from
    ensures Compose(dst.Img(), dx, dy + r, src.Img(), sx, sy + r, w, 1, m)
         == Compose(dst.Img(), dx, dy + r, from, sx, sy + r, w, 1, m)
  {
    hide Compose;
    var now := src.Img();
    forall i, j | Inside(now, i, j) && sx <= i < sx + w && sy + r <= j < sy + r + 1
      ensures now[j][i] == from[j][i]
    {
      if dst == src { SourceKept(img, dx, dy, from, sx, sy, w, r, m, w, h, i, j); }
    }
    ComposeFrom(dst.Img(), dx, dy + r, now, from, sx, sy + r, w, 1, m);
  }

  /** gfx_blit: clipping leaves exactly the points with both ends in bounds. */
  method Blit(dst: Surface, dx: int, dy: int, src: Surface, sx: int, sy: int, w: int, h: int)
    requires dst.Valid() && src.Valid() && Separate(dst, dx, dy, src, sx, sy, w, h)
    requires Coord(dst.w) && Coord(dst.h) && Coord(src.w) && Coord(src.h)
    requires Coord(dx) && Coord(dy) && Coord(sx) && Coord(sy) && Coord(w) && Coord(h)
    modifies dst.pixels
    ensures dst.Img() == Compose(old(dst.Img()), dx, dy, old(src.Img()), sx, sy, w, h, BlitMode(dst, src))
  {
    if w <= 0 || h <= 0 {
      ComposeNothing(dst.Img(), dx, dy, src.Img(), sx, sy, w, h, BlitMode(dst, src));
      return;
    }
    var dx', dy', sx', sy', w', h' := ClipBlit(dst.w, dst.h, dx, dy, src.w, src.h, sx, sy, w, h);
    ClippedCompose(dst.Img(), dst.w, dst.h, dx, dy, src.Img(), src.w, src.h, sx, sy, w, h,
                   dx', dy', sx', sy', w', h', BlitMode(dst, src));
    if w' > 0 && h' > 0 {
      BlitRows(dst, dx', dy', src, sx', sy', w', h');
    }
  }

  predicate InSpan(i: int, from: int, n: int) {
    from <= i < from + n
  }

  /** On one axis: the clipped span [d, d+n) is the part of [d0, d0+n0) inside
      the target whose source, s0 + i - d0, is inside the source. */
  ghost predicate SameSpan(dn: nat, d0: int, sn: nat, s0: int, n0: int, d: int, s: int, n: int) {
    && (n > 0 ==> s - d == s0 - d0)
    && forall i | InSpan(i, 0, dn) ::
         InSpan(i, d, n) <==> (InSpan(i, d0, n0) && 0 <= s0 + i - d0 < sn)
  }

  lemma ClippedCompose(img: Image, dw: nat, dh: nat, dx0: int, dy0: int,
                       from: Image, sw: nat, sh: nat, sx0: int, sy0: int, w0: int, h0: int,
                       dx: int, dy: int, sx: int, sy: int, w: int, h: int, m: Mode)
    requires ModeOk(m) && HasSize(img, dw, dh) && HasSize(from, sw, sh)
    requires SameSpan(dw, dx0, sw, sx0, w0, dx, sx, w) && SameSpan(dh, dy0, sh, sy0, h0, dy, sy, h)
    ensures Compose(img, dx0, dy0, from, sx0, sy0, w0, h0, m)
         == if w > 0 && h > 0 then Compose(img, dx, dy, from, sx, sy, w, h, m) else img
  {
    forall i, j | Inside(img, i, j)
      ensures w <= 0 || h <= 0 ==> !Hit(dx0, dy0, from, sx0, sy0, w0, h0, i, j)
      ensures w > 0 && h > 0 ==>
        ComposePx(img, dx0, dy0, from, sx0, sy0, w0, h0, m, i, j) == ComposePx(img, dx, dy, from, sx, sy, w, h, m, i, j)
    {
      assert InSpan(i, 0, dw) && InSpan(j, 0, dh);
    }
    if w > 0 && h > 0 {
      SameImage(Compose(img, dx0, dy0, from, sx0, sy0, w0, h0, m), Compose(img, dx, dy, from, sx, sy, w, h, m));
    } else {
      ComposeNothing(img, dx0, dy0, from, sx0, sy0, w0, h0, m);
    }
  }

  /** The clipping at the head of gfx_blit; nothing is left when w or h is not positive. */
  method ClipBlit(dw: nat, dh: nat, dx0: int, dy0: int, sw: nat, sh: nat, sx0: int, sy0: int, w0: int, h0: int)
    returns (dx: int, dy: int, sx: int, sy: int, w: int, h: int)
    requires Coord(dw) && Coord(dh) && Coord(sw) && Coord(sh)
    requires Coord(dx0) && Coord(dy0) && Coord(sx0) && Coord(sy0) && Coord(w0) && Coord(h0)
    ensures w > 0 && h > 0 ==> 0 <= dx && dx + w <= dw && 0 <= dy && dy + h <= dh
    ensures w > 0 && h > 0 ==> 0 <= sx && sx + w <= sw && 0 <= sy && sy + h <= sh
    ensures w <= w0 && h <= h0
    ensures SameSpan(dw, dx0, sw, sx0, w0, dx, sx, w) && SameSpan(dh, dy0, sh, sy0, h0, dy, sy, h)
  {
    hide SameSpan;
    dx, dy, sx, sy, w, h := dx0, dy0, sx0, sy0, w0, h0;
    // Clip to the source.
    if sx < 0 { w := w + sx; dx := dx - sx; sx := 0; }
    if sy < 0 { h := h + sy; dy := dy - sy; sy := 0; }
    assert Int32(sx + w) && Int32(sy + h);
    if sx + w > sw { w := sw - sx; }
    if sy + h > sh { h := sh - sy; }
    // Clip to the target.
    if dx < 0 { w := w + dx; sx := sx - dx; dx := 0; }
    if dy < 0 { h := h + dy; sy := sy - dy; dy := 0; }
    assert Int32(dx + w) && Int32(dy + h);
    if dx + w > dw { w := dw - dx; }
    if dy + h > dh { h := dh - dy; }
    SpanClipped(dw, dx0, sw, sx0, w0);
    SpanClipped(dh, dy0, sh, sy0, h0);
  }

  /** One axis of the clipping: first to the source, then to the target. */
  lemma SpanClipped(dn: nat, d0: int, sn: nat, s0: int, n0: int)
    ensures var cut := Max(-s0, 0);
      var s, d, n := s0 + cut, d0 + cut, Min(n0 - cut, sn - s0 - cut);
      var skip := Max(-d, 0);
      SameSpan(dn, d0, sn, s0, n0, d + skip, s + skip, Min(n - skip, dn - d - skip))
  {
  }

  /** blit_alpha: pixel by pixel, skipping points outside either surface. */
  method BlitAlpha(dst: Surface, dx0: int, dy0: int, src: Surface, sx0: int, sy0: int, w: int, h: int, a: int)
    requires dst.Valid() && src.Valid() && dst.pixels != src.pixels
    requires Coord(dst.w) && Coord(dst.h) && Coord(src.w) && Coord(src.h)
    requires Coord(dx0) && Coord(dy0) && Coord(sx0) && Coord(sy0) && Coord(w) && Coord(h)
    modifies dst.pixels
    ensures dst.Img() == AlphaImg(old(dst.Img()), dx0, dy0, src.Img(), sx0, sy0, w, h, a, BlitMode(dst, src))
  {
    ghost var img, from := dst.Img(), src.Img();
    if w <= 0 || h <= 0 || a <= 0 {
      if a > 0 {
        ComposeNothing(img, dx0, dy0, from, sx0, sy0, w, h, if a < 255 then Blend(a) else BlitMode(dst, src));
      }
      return;
    }
    if a >= 255 {
      Blit(dst, dx0, dy0, src, sx0, sy0, w, h);
      return;
    }
    ghost var m := Blend(a);
    ComposeNothing(img, dx0, dy0, from, sx0, sy0, w, 0, m);
    for y := 0 to h
      invariant dst.Img() == Compose(img, dx0, dy0, from, sx0, sy0, w, y, m)
    {
      ComposeNextRow(img, dx0, dy0, from, sx0, sy0, w, y, m);
      BlendRow(dst, dx0, dy0 + y, src, sx0, sy0 + y, w, a);
    }
  }

  ghost function AlphaImg(dst: Image, dx: int, dy: int, src: Image, sx: int, sy: int, w: int, h: int, a: int,
                          solid: Mode): Image
    requires ModeOk(solid)
  {
    if a <= 0 then dst
    else Compose(dst, dx, dy, src, sx, sy, w, h, if a < 255 then Blend(a) else solid)
  }

  method BlendRow(dst: Surface, dx0: int, dy: int, src: Surface, sx0: int, sy: int, w: nat, a: int)
    requires dst.Valid() && src.Valid() && dst.pixels != src.pixels && 0 < a < 255
    modifies dst.pixels
    ensures dst.Img() == Compose(old(dst.Img()), dx0, dy, src.Img(), sx0, sy, w, 1, Blend(a))
  {
    hide Compose, Mix;
    ghost var img, from := dst.Img(), src.Img();
    if sy < 0 || sy >= src.h || dy < 0 || dy >= dst.h {
      ComposeNothing(img, dx0, dy, from, sx0, sy, w, 1, Blend(a));
      return;
    }
    ComposeNothing(img, dx0, dy, from, sx0, sy, 0, 1, Blend(a));
    for x := 0 to w
      invariant dst.Img() == Compose(img, dx0, dy, from, sx0, sy, x, 1, Blend(a))
    {
      var sx, dx := sx0 + x, dx0 + x;
      if sx < 0 || sx >= src.w || dx < 0 || dx >= dst.w {
        ComposeSkip(img, dx0, dy, from, sx0, sy, x, Blend(a));
        continue;
      }
      ComposeNextPixel(img, dx0, dy, from, sx0, sy, x, Blend(a));
      var sc, dc := src.pixels[src.Index(sx, sy)], dst.pixels[dst.Index(dx, dy)];
      assert dc == dst.Img()[dy][dx] == img[dy][dx];
      dst.Write(dx, dy, Mix(Blend(a), sc, dc));
    }
  }
}

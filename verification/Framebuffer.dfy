// kernel/drivers/fb.c: a back buffer, a front buffer, and a flip that copies
// only the dirty box.
//
// Memory is counted in cells.  With Cell = byte and bypp the bytes per pixel,
// this is the C layout at every colour depth; the compositor, which needs
// 32-bit modes, uses one Px cell per pixel.

module Framebuffer {
  import opened Gfx
  import opened Damage
  import opened Words

  const FB_DIM_MAX := 2048

  /** Rows of pixels, a pixel being its cells. */
  type Cells<Cell> = seq<seq<seq<Cell>>>

  ghost predicate InStep<Cell>(front: Cells<Cell>, back: Cells<Cell>, b: Box) {
    && |front| == |back|
    && forall j | 0 <= j < |back| ::
         && |front[j]| == |back[j]|
         && forall i | 0 <= i < |back[j]| :: !In(b, i, j) ==> front[j][i] == back[j][i]
  }

  /** now is was with a box of one colour over it. */
  ghost predicate Painted<Cell>(was: Cells<Cell>, now: Cells<Cell>, b: Box, cells: seq<Cell>) {
    && |was| == |now|
    && forall j | 0 <= j < |was| ::
         && |was[j]| == |now[j]|
         && forall i | 0 <= i < |was[j]| :: now[j][i] == if In(b, i, j) then cells else was[j][i]
  }

  /** Painting a box and growing the dirty box by it keeps the buffers in step. */
  lemma PaintKeepsStep<Cell>(front: Cells<Cell>, was: Cells<Cell>, now: Cells<Cell>, dirt: Box, b: Box,
                             cells: seq<Cell>)
    requires InStep(front, was, dirt) && Painted(was, now, b, cells)
    ensures InStep(front, now, Hull(dirt, b))
  {
  }

  /** A larger box allows as much. */
  lemma StepGrows<Cell>(front: Cells<Cell>, back: Cells<Cell>, a: Box, b: Box)
    requires InStep(front, back, a) && forall x, y :: In(a, x, y) ==> In(b, x, y)
    ensures InStep(front, back, b)
  {
  }

  /** The picture with a box of one colour over it. */
  function PaintBox<Cell>(img: Cells<Cell>, b: Box, cells: seq<Cell>): (r: Cells<Cell>)
    ensures Painted(img, r, b, cells)
  {
    seq(|img|, j requires 0 <= j < |img| =>
      seq(|img[j]|, i requires 0 <= i < |img[j]| => if In(b, i, j) then cells else img[j][i]))
  }

  lemma PaintedIs<Cell>(was: Cells<Cell>, now: Cells<Cell>, b: Box, cells: seq<Cell>)
    requires Painted(was, now, b, cells)
    ensures now == PaintBox(was, b, cells)
  {
    var r := PaintBox(was, b, cells);
    forall j | 0 <= j < |was|
      ensures now[j] == r[j]
    {
      assert forall i | 0 <= i < |was[j]| :: now[j][i] == r[j][i];
    }
  }

  /** The calls of fb.c. */
  datatype Call<Cell> =
    | CallPutPixel(x: nat, y: nat, cells: seq<Cell>)
    | CallFillRect(x: nat, y: nat, rw: nat, rh: nat, cells: seq<Cell>)
    | CallClear(cells: seq<Cell>)
    | CallDamage(x0: nat, y0: nat, x1: nat, y1: nat)
    | CallDamageAll
    | CallFlip

  predicate CallOk<Cell>(call: Call<Cell>, bypp: nat) {
    match call
    case CallPutPixel(_, _, cells) => |cells| == bypp
    case CallFillRect(x, y, rw, rh, cells) => x < U32 && y < U32 && rw < U32 && rh < U32 && |cells| == bypp
    case CallClear(cells) => |cells| == bypp
    case CallDamage(x0, y0, x1, y1) => x0 < U32 && y0 < U32 && x1 < U32 && y1 < U32
    case CallDamageAll => true
    case CallFlip => true
  }

  /** What a call does to the picture in the back buffer. */
  function Drawn<Cell>(img: Cells<Cell>, call: Call<Cell>, w: nat, h: nat): Cells<Cell> {
    match call
    case CallPutPixel(x, y, cells) => PaintBox(img, Clip(x, y, x + 1, y + 1, w, h), cells)
    case CallFillRect(x, y, rw, rh, cells) => PaintBox(img, FillBox(x, y, rw, rh, w, h), cells)
    case CallClear(cells) => PaintBox(img, Dirty(0, 0, w, h), cells)
    case _ => img
  }

  function DrawnAll<Cell>(img: Cells<Cell>, calls: seq<Call<Cell>>, w: nat, h: nat): Cells<Cell> {
    if calls == [] then img
    else Drawn(DrawnAll(img, calls[..|calls| - 1], w, h), calls[|calls| - 1], w, h)
  }

  class Screen<Cell> {
    const w: nat
    const h: nat
    const pitch: nat  // cells from one row to the next
    const bypp: nat   // cells in one pixel
    const back: array<Cell>
    const front: array<Cell>

    var ddirty: bool
    var dx0: nat
    var dy0: nat
    var dx1: nat
    var dy1: nat

    ghost predicate Shape() {
      && 0 < bypp <= 4 && w <= FB_DIM_MAX && h <= FB_DIM_MAX && w * bypp <= pitch
      && h * pitch <= back.Length && h * pitch <= front.Length && back != front
    }

    ghost predicate Valid()
      reads this
    {
      Shape() && WellFormed(Dirt(), w, h)
    }

    function Dirt(): Box
      reads this
    {
      if ddirty then Dirty(dx0, dy0, dx1, dy1) else Clean
    }

    function Index(x: int, y: int, k: int): (r: nat)
      requires Shape() && 0 <= x < w && 0 <= y < h && 0 <= k < bypp
      ensures r < back.Length && r < front.Length
    {
      PixelInRow(x, w, bypp, k);
      IndexInRange(x * bypp + k, y, w * bypp, h, pitch);
      y * pitch + (x * bypp + k)
    }

    /** What a buffer holds, pixel by pixel. */
    ghost function Content(buf: array<Cell>): (img: Cells<Cell>)
      requires Shape() && (buf == back || buf == front)
      reads buf
      ensures |img| == h && forall j :: 0 <= j < h ==> |img[j]| == w
    {
      seq(h, y requires 0 <= y < h && Shape() reads buf => RowCells(buf, y))
    }

    ghost function RowCells(buf: array<Cell>, y: int): (row: seq<seq<Cell>>)
      requires Shape() && (buf == back || buf == front) && 0 <= y < h
      reads buf
      ensures |row| == w
    {
      seq(w, x requires 0 <= x < w && Shape() reads buf => Pixel(buf, x, y))
    }

    ghost function Pixel(buf: array<Cell>, x: int, y: int): (p: seq<Cell>)
      requires Shape() && (buf == back || buf == front) && 0 <= x < w && 0 <= y < h
      reads buf
      ensures |p| == bypp
    {
      seq(bypp, k requires 0 <= k < bypp && Shape() reads buf => buf[Index(x, y, k)])
    }

    /** Front and back differ only inside the box. */
    ghost predicate Synced()
      requires Valid()
      reads this, back, front
    {
      InStep(Content(front), Content(back), Dirt())
    }

    lemma IndexIsInjective(x: int, y: int, k: int, x': int, y': int, k': int)
      requires Shape() && 0 <= x < w && 0 <= y < h && 0 <= k < bypp
      requires 0 <= x' < w && 0 <= y' < h && 0 <= k' < bypp
      ensures Index(x, y, k) == Index(x', y', k') ==> x == x' && y == y' && k == k'
    {
      if Index(x, y, k) == Index(x', y', k') {
        PixelInRow(x, w, bypp, k);
        PixelInRow(x', w, bypp, k');
        IndexInjective(x * bypp + k, y, x' * bypp + k', y', pitch);
        IndexInjective(k, x, k', x', bypp);
      }
    }

    /** fb_damage: the box grows to the hull of itself and the clipped rectangle. */
    method Damage(x0: nat, y0: nat, x1: nat, y1: nat)
      requires Valid() && x0 < U32 && y0 < U32 && x1 < U32 && y1 < U32
      modifies this
      ensures Valid()
      ensures Dirt() == Hull(old(Dirt()), Clip(x0, y0, x1, y1, w, h))
      ensures old(Synced()) ==> Synced()
    {
      ghost var dirt, synced := Dirt(), Synced();
      DamageBox(x0, y0, x1, y1);
      if synced { StepGrows(Content(front), Content(back), dirt, Dirt()); }
    }

    method DamageBox(x0: nat, y0: nat, x1: nat, y1: nat)
      requires Valid() && x0 < U32 && y0 < U32 && x1 < U32 && y1 < U32
      modifies this
      ensures Valid()
      ensures Dirt() == Hull(old(Dirt()), Clip(x0, y0, x1, y1, w, h))
    {
      if x0 >= w || y0 >= h { return; }
      var cx1, cy1 := x1, y1;
      if cx1 > w { cx1 := w; }
      if cy1 > h { cy1 := h; }
      if x0 >= cx1 || y0 >= cy1 { return; }
      if ddirty {
        GrowBox(x0, y0, cx1, cy1);
      } else {
        dx0, dy0, dx1, dy1, ddirty := x0, y0, cx1, cy1, true;
      }
    }

    /** The box of fb_damage grows on each side. */
    method GrowBox(x0: nat, y0: nat, x1: nat, y1: nat)
      requires Valid() && ddirty && x0 < x1 <= w && y0 < y1 <= h
      modifies this
      ensures Valid() && Dirt() == Hull(old(Dirt()), Dirty(x0, y0, x1, y1))
    {
      if x0 < dx0 { dx0 := x0; }
      if y0 < dy0 { dy0 := y0; }
      if x1 > dx1 { dx1 := x1; }
      if y1 > dy1 { dy1 := y1; }
    }

    /** fb_damage_all. */
    method DamageAll()
      requires Valid() && 0 < w && 0 < h
      modifies this
      ensures Valid() && Dirt() == Dirty(0, 0, w, h)
      ensures old(Synced()) ==> Synced()
    {
      dx0, dy0, dx1, dy1 := 0, 0, w, h;
      ddirty := true;
    }

    /** px_write into the back buffer; cells is the colour at this depth. */
    method WritePixel(x: nat, y: nat, cells: seq<Cell>)
      requires Valid() && x < w && y < h && |cells| == bypp
      modifies back
      ensures Valid()
      ensures Painted(old(Content(back)), Content(back), Dirty(x, y, x + 1, y + 1), cells)
    {
      for k := 0 to bypp
        invariant forall m | 0 <= m < k :: back[Index(x, y, m)] == cells[m]
        invariant forall i, j, m | 0 <= i < w && 0 <= j < h && (i, j) != (x, y) && 0 <= m < bypp ::
                    back[Index(i, j, m)] == old(back[Index(i, j, m)])
      {
        label L:
        back[Index(x, y, k)] := cells[k];
        forall i, j, m | 0 <= i < w && 0 <= j < h && 0 <= m < bypp && (i, j, m) != (x, y, k)
          ensures back[Index(i, j, m)] == old@L(back[Index(i, j, m)])
        {
          IndexIsInjective(x, y, k, i, j, m);
        }
      }
      assert Pixel(back, x, y) == cells;
      assert forall i, j | 0 <= i < w && 0 <= j < h && (i, j) != (x, y) :: Pixel(back, i, j) == old(Pixel(back, i, j));
    }

    /** fb_putpixel. */
    method PutPixel(x: nat, y: nat, cells: seq<Cell>)
      requires Valid() && |cells| == bypp
      modifies this, back
      ensures Valid()
      ensures Painted(old(Content(back)), Content(back), Clip(x, y, x + 1, y + 1, w, h), cells)
      ensures Dirt() == Hull(old(Dirt()), Clip(x, y, x + 1, y + 1, w, h))
      ensures old(Synced()) ==> Synced()
    {
      ghost var was, dirt, shown, synced := Content(back), Dirt(), Content(front), Synced();
      if x < w && y < h {
        WritePixel(x, y, cells);
        Damage(x, y, x + 1, y + 1);
      }
      if synced {
        PaintKeepsStep(shown, was, Content(back), dirt, Clip(x, y, x + 1, y + 1, w, h), cells);
      }
    }

    /** One row of fb_fill_rect. */
    method FillRow(x0: nat, x1: int, y: nat, cells: seq<Cell>)
      requires Valid() && x1 <= w && y < h && |cells| == bypp
      modifies back
      ensures Valid()
      ensures Painted(old(Content(back)), Content(back), Dirty(x0, y, x1, y + 1), cells)
    {
      ghost var was := Content(back);
      var xx := x0;
      while xx < x1
        invariant Valid() && xx >= x0 && (xx <= x1 || xx == x0)
        invariant Painted(was, Content(back), Dirty(x0, y, xx, y + 1), cells)
      {
        WritePixel(xx, y, cells);
        xx := xx + 1;
      }
    }

    /** The loops of fb_fill_rect, over a rectangle already on the screen. */
    method FillRows(x0: nat, x1: int, y0: nat, y1: int, cells: seq<Cell>)
      requires Valid() && x1 <= w && y1 <= h && |cells| == bypp
      modifies back
      ensures Valid()
      ensures Painted(old(Content(back)), Content(back), Dirty(x0, y0, x1, y1), cells)
    {
      ghost var was := Content(back);
      var yy := y0;
      while yy < y1
        invariant Valid() && yy >= y0 && (yy <= y1 || yy == y0)
        invariant Painted(was, Content(back), Dirty(x0, y0, x1, yy), cells)
      {
        FillRow(x0, x1, yy, cells);
        yy := yy + 1;
      }
    }

    /** The end of fb_fill_rect: paint, then damage what was painted. */
    method FillAndDamage(x0: nat, y0: nat, x1: nat, y1: nat, cells: seq<Cell>)
      requires Valid() && x1 <= w && y1 <= h && x0 < U32 && y0 < U32 && |cells| == bypp
      modifies this, back
      ensures Valid()
      ensures Painted(old(Content(back)), Content(back), Clip(x0, y0, x1, y1, w, h), cells)
      ensures Dirt() == Hull(old(Dirt()), Clip(x0, y0, x1, y1, w, h))
      ensures old(Synced()) ==> Synced()
    {
      ghost var was, dirt, shown, synced := Content(back), Dirt(), Content(front), Synced();
      FillRows(x0, x1, y0, y1, cells);
      Damage(x0, y0, x1, y1);
      if synced {
        PaintKeepsStep(shown, was, Content(back), dirt, Clip(x0, y0, x1, y1, w, h), cells);
      }
    }

    /** fb_fill_rect.  The sums are 32-bit: a rectangle whose far edge wraps
        paints nothing. */
    method FillRect(x: nat, y: nat, rw: nat, rh: nat, cells: seq<Cell>)
      requires Valid() && x < U32 && y < U32 && rw < U32 && rh < U32 && |cells| == bypp
      modifies this, back
      ensures Valid()
      ensures Painted(old(Content(back)), Content(back), FillBox(x, y, rw, rh, w, h), cells)
      ensures Dirt() == Hull(old(Dirt()), FillBox(x, y, rw, rh, w, h))
      ensures old(Synced()) ==> Synced()
    {
      if x >= w || y >= h { return; }
      var x1 := FarEdge(x, rw, w);
      var y1 := FarEdge(y, rh, h);
      FillAndDamage(x, y, x1, y1, cells);
    }

    lemma RowBounds(y: int)
      requires Shape() && 0 <= y < h
      ensures 0 <= y * pitch && y * pitch + w * bypp <= h * pitch
    {
      MulGap(y, h, pitch);
    }

    /** memcpy of a row pattern to row y of the back buffer. */
    method CopyToBack(y: nat, row: array<Cell>)
      requires Valid() && y < h && row != back && row.Length == w * bypp
      requires 0 <= y * pitch && y * pitch + w * bypp <= h * pitch
      modifies back
      ensures forall m | 0 <= m < row.Length :: back[y * pitch + m] == row[m]
      ensures forall p | 0 <= p < back.Length && !(y * pitch <= p < y * pitch + row.Length) :: back[p] == old(back[p])
    {
      for c := 0 to row.Length
        invariant forall m | 0 <= m < c :: back[y * pitch + m] == row[m]
        invariant forall p | 0 <= p < back.Length && !(y * pitch <= p < y * pitch + c) :: back[p] == old(back[p])
      {
        back[y * pitch + c] := row[c];
      }
    }

    /** A pixel's cells lie in its own row only. */
    lemma InRow(x: int, y: int, k: int, y': int)
      requires Shape() && 0 <= x < w && 0 <= y < h && 0 <= k < bypp && 0 <= y' < h
      ensures y' * pitch <= Index(x, y, k) < y' * pitch + w * bypp <==> y == y'
    {
      PixelInRow(x, w, bypp, k);
      MulGap(y, y', pitch);
      MulGap(y', y, pitch);
    }

    lemma PatternShown(x: int, y: int, row: seq<Cell>, cells: seq<Cell>)
      requires Shape() && 0 <= x < w && 0 <= y < h
      requires |row| == w * bypp && |cells| == bypp && IsPattern(row, cells)
      requires 0 <= y * pitch && y * pitch + w * bypp <= h * pitch
      requires forall m | 0 <= m < |row| :: back[y * pitch + m] == row[m]
      ensures Pixel(back, x, y) == cells
    {
      MulGap(x, w, bypp);
      PatternAt(row, cells, x);
      forall k | 0 <= k < bypp
        ensures back[Index(x, y, k)] == cells[k]
      {
        assert back[y * pitch + (x * bypp + k)] == row[x * bypp + k];
      }
    }

    /** One row of fb_clear. */
    method ClearRow(y: nat, row: array<Cell>, ghost cells: seq<Cell>)
      requires Valid() && y < h && row != back && row.Length == w * bypp && |cells| == bypp
      requires IsPattern(row[..], cells)
      modifies back
      ensures Valid()
      ensures Painted(old(Content(back)), Content(back), Dirty(0, y, w, y + 1), cells)
    {
      RowBounds(y);
      CopyToBack(y, row);
      forall i | 0 <= i < w
        ensures Pixel(back, i, y) == cells
      {
        PatternShown(i, y, row[..], cells);
      }
      forall i, j, k | 0 <= i < w && 0 <= j < h && j != y && 0 <= k < bypp
        ensures back[Index(i, j, k)] == old(back[Index(i, j, k)])
      {
        InRow(i, j, k, y);
      }
      assert forall i, j | 0 <= i < w && 0 <= j < h && j != y :: Pixel(back, i, j) == old(Pixel(back, i, j));
    }

    /** fb_clear: the row pattern is built once, then copied to every row. */
    method Clear(cells: seq<Cell>)
      requires Valid() && |cells| == bypp && 0 < w && 0 < h
      modifies this, back
      ensures Valid()
      ensures Painted(old(Content(back)), Content(back), Dirty(0, 0, w, h), cells)
      ensures Dirt() == Dirty(0, 0, w, h)
      ensures old(Synced()) ==> Synced()
    {
      hide InStep;
      ghost var was, dirt, shown, synced := Content(back), Dirt(), Content(front), Synced();
      var row := new Cell[w * bypp](i => cells[i % bypp]);
      for y := 0 to h
        invariant Valid() && IsPattern(row[..], cells) && fresh(row)
        invariant Painted(was, Content(back), Dirty(0, 0, w, y), cells)
      {
        ClearRow(y, row, cells);
      }
      Damage(0, 0, w, h);
      if synced {
        PaintKeepsStep(shown, was, Content(back), dirt, Dirty(0, 0, w, h), cells);
      }
    }

    /** fb_flip: copies the dirty box, and only that, to the front. */
    method Flip()
      requires Valid()
      modifies this, front
      ensures Valid() && Dirt() == Clean
      ensures Flipped(old(Content(front)), Content(front), Content(back), old(Dirt()))
      ensures old(Synced()) ==> Content(front) == Content(back) && Synced()
    {
      ghost var shown, dirt, synced := Content(front), Dirt(), Synced();
      if ddirty {
        FlipRows();
        ddirty := false;
      }
      if synced {
        FlipSyncs(shown, Content(front), Content(back), dirt);
      }
    }

    method FlipRows()
      requires Valid() && ddirty
      modifies front
      ensures Valid()
      ensures Flipped(old(Content(front)), Content(front), Content(back), Dirt())
    {
      ghost var shown := Content(front);
      for y := dy0 to dy1
        invariant Valid()
        invariant Flipped(shown, Content(front), Content(back), Dirty(dx0, dy0, dx1, y))
      {
        FlipRow(y);
      }
    }

    /** memcpy of the dirty part of row y. */
    method FlipRow(y: nat)
      requires Valid() && ddirty && dy0 <= y < dy1
      modifies front
      ensures Valid()
      ensures Flipped(old(Content(front)), Content(front), Content(back), Dirty(dx0, y, dx1, y + 1))
    {
      var from, n := y * pitch + dx0 * bypp, (dx1 - dx0) * bypp;
      BlockBounds(y, dx0, dx1);
      CopyToFront(from, n);
      forall i, j, k | 0 <= i < w && 0 <= j < h && 0 <= k < bypp
        ensures front[Index(i, j, k)] ==
                if j == y && dx0 <= i < dx1 then back[Index(i, j, k)] else old(front[Index(i, j, k)])
      {
        InBlock(i, j, k, y, dx0, dx1);
      }
      assert forall i, j | 0 <= i < w && 0 <= j < h ::
          Pixel(front, i, j) == if j == y && dx0 <= i < dx1 then Pixel(back, i, j) else old(Pixel(front, i, j));
    }

    lemma BlockBounds(y: int, x0: nat, x1: nat)
      requires Shape() && 0 <= y < h && x0 <= x1 <= w
      ensures var from, n := y * pitch + x0 * bypp, (x1 - x0) * bypp;
        0 <= from && 0 <= n && from + n <= back.Length && from + n <= front.Length && from + n == y * pitch + x1 * bypp
    {
      RowBounds(y);
      assert (x1 - x0) * bypp == x1 * bypp - x0 * bypp;
      assert 0 <= x0 * bypp;
      MulGap(x1, w, bypp);
      MulGap(x0, x1, bypp);
    }

    /** memcpy from the back buffer to the same place in the front. */
    method CopyToFront(from: nat, n: nat)
      requires from + n <= back.Length && from + n <= front.Length && back != front
      modifies front
      ensures forall p | 0 <= p < front.Length :: front[p] == if from <= p < from + n then back[p] else old(front[p])
    {
      for c := 0 to n
        invariant forall p | 0 <= p < front.Length ::
                  front[p] == if from <= p < from + c then back[p] else old(front[p])
      {
        front[from + c] := back[from + c];
      }
    }

    /** Any one call: it draws as Drawn says, and damages all it draws. */
    method Perform(call: Call<Cell>)
      requires Valid() && 0 < w && 0 < h && CallOk(call, bypp)
      modifies this, back, front
      ensures Valid() && Content(back) == Drawn(old(Content(back)), call, w, h)
      ensures old(Synced()) ==> Synced() && (call.CallFlip? ==> Content(front) == Content(back))
    {
      hide InStep, Flipped;
      ghost var was := Content(back);
      match call
      case CallPutPixel(x, y, cells) =>
        PutPixel(x, y, cells);
        PaintedIs(was, Content(back), Clip(x, y, x + 1, y + 1, w, h), cells);
      case CallFillRect(x, y, rw, rh, cells) =>
        FillRect(x, y, rw, rh, cells);
        PaintedIs(was, Content(back), FillBox(x, y, rw, rh, w, h), cells);
      case CallClear(cells) =>
        Clear(cells);
        PaintedIs(was, Content(back), Dirty(0, 0, w, h), cells);
      case CallDamage(x0, y0, x1, y1) => Damage(x0, y0, x1, y1);
      case CallDamageAll => DamageAll();
      case CallFlip => Flip();
    }

    /** Any run of calls, and a flip: the screen then shows what the run has drawn. */
    method RunThenFlip(calls: seq<Call<Cell>>)
      requires Valid() && 0 < w && 0 < h && forall i :: 0 <= i < |calls| ==> CallOk(calls[i], bypp)
      modifies this, back, front
      ensures Valid() && Content(back) == DrawnAll(old(Content(back)), calls, w, h)
      ensures old(Synced()) ==> Synced() && Content(front) == Content(back)
    {
      hide InStep, Flipped, Drawn;
      ghost var was, synced := Content(back), Synced();
      for i := 0 to |calls|
        invariant Valid() && Content(back) == DrawnAll(was, calls[..i], w, h) && (synced ==> Synced())
      {
        Perform(calls[i]);
        assert calls[..i + 1][..i] == calls[..i];
      }
      assert calls[..|calls|] == calls;
      Flip();
    }

    /** Which pixels a block of one row holds. */
    lemma InBlock(x: int, y: int, k: int, y': int, x0: int, x1: int)
      requires Shape() && 0 <= x < w && 0 <= y < h && 0 <= k < bypp && 0 <= y' < h && 0 <= x0 <= x1 <= w
      ensures y' * pitch + x0 * bypp <= Index(x, y, k) < y' * pitch + x1 * bypp <==> y == y' && x0 <= x < x1
    {
      InRow(x, y, k, y');
      MulGap(x, x0, bypp);
      MulGap(x, x1, bypp);
      MulGap(x1, w, bypp);
      assert x >= x0 ==> x * bypp >= x0 * bypp by { if x > x0 { MulGap(x0, x, bypp); } }
      assert x >= x1 ==> x * bypp >= x1 * bypp by { if x > x1 { MulGap(x1, x, bypp); } }
      assert 0 <= x0 * bypp;
    }
  }

  /** Inside the box the front now shows the back; elsewhere it is unchanged. */
  ghost predicate Flipped<Cell>(was: Cells<Cell>, front: Cells<Cell>, back: Cells<Cell>, b: Box) {
    && |was| == |front| == |back|
    && forall j | 0 <= j < |back| ::
         && |was[j]| == |front[j]| == |back[j]|
         && forall i | 0 <= i < |back[j]| :: front[j][i] == if In(b, i, j) then back[j][i] else was[j][i]
  }

  lemma FlipSyncs<Cell>(was: Cells<Cell>, front: Cells<Cell>, back: Cells<Cell>, b: Box)
    requires InStep(was, back, b) && Flipped(was, front, back, b)
    ensures front == back
  {
    forall j | 0 <= j < |back|
      ensures front[j] == back[j]
    {
    }
  }

  /** row is cells over and over. */
  ghost predicate IsPattern<Cell>(row: seq<Cell>, cells: seq<Cell>) {
    |cells| > 0 && forall c | 0 <= c < |row| :: row[c] == cells[c % |cells|]
  }

  lemma PatternAt<Cell>(row: seq<Cell>, cells: seq<Cell>, i: nat)
    requires IsPattern(row, cells) && (i + 1) * |cells| <= |row|
    ensures forall k | 0 <= k < |cells| :: 0 <= i * |cells| + k < |row| && row[i * |cells| + k] == cells[k]
  {
    forall k | 0 <= k < |cells|
      ensures 0 <= i * |cells| + k < |row| && row[i * |cells| + k] == cells[k]
    {
      var n := |cells|;
      DivIs(i * n + k, n, i);
      assert (i * n + k) % n == k;
    }
  }

  /** Where a 32-bit span from a that is n long ends on a screen of size limit. */
  function SpanEnd(a: nat, n: nat, limit: nat): nat {
    var e := (a + n) % U32;
    if e > limit then limit else e
  }

  /** Clamping the length of a span to the screen and adding it back. */
  method FarEdge(a: nat, n: nat, limit: nat) returns (end: nat)
    requires a <= limit < U32
    ensures end == SpanEnd(a, n, limit)
  {
    var len := n;
    if (a + len) % U32 > limit { len := limit - a; }
    end := (a + len) % U32;
  }

  function FillBox(x: nat, y: nat, rw: nat, rh: nat, w: nat, h: nat): Box {
    Clip(x, y, SpanEnd(x, rw, w), SpanEnd(y, rh, h), w, h)
  }

  /** fb_fill_rect covers the part of the rectangle on the screen exactly when
      that part is empty or neither far edge wraps. */
  lemma FillBoxIsClip(x: nat, y: nat, rw: nat, rh: nat, w: nat, h: nat)
    requires x < U32 && y < U32 && rw < U32 && rh < U32 && w <= FB_DIM_MAX && h <= FB_DIM_MAX
    ensures FillBox(x, y, rw, rh, w, h) == Clip(x, y, x + rw, y + rh, w, h)
            <==> (x + rw < U32 && y + rh < U32) || Clip(x, y, x + rw, y + rh, w, h).Clean?
  {
  }

  lemma PixelInRow(x: int, w: int, bypp: int, k: int)
    requires 0 <= x < w && 0 <= k < bypp
    ensures 0 <= x * bypp + k < w * bypp
  {
    MulGap(x, w, bypp);
    assert x * bypp >= 0;
  }
}

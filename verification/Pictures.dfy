// What the calls of the compositor do to the picture: the pixel of a scene, the pixels
// of a surface after each drawing call, and the course of the animations.

module Pictures {
  import opened Gfx
  import opened Damage
  import opened Scene
  import opened Words

  // ----- One pixel of the scene ------------------------------------------------------------

  /** The surface shows at the point. */
  predicate Opaque(s: Slot, x: int, y: int) {
    Covers(s, x, y) && s.visible && s.alpha > 0
  }

  /** p is s blended over d by a/255, channel by channel. */
  predicate Blended(p: Px, s: Px, d: Px, a: int) {
    && 0 <= a * (s.r - d.r) - 255 * (p.r - d.r) < 255
    && 0 <= a * (s.g - d.g) - 255 * (p.g - d.g) < 255
    && 0 <= a * (s.b - d.b) - 255 * (p.b - d.b) < 255
  }

  /** Slots that do not show at the point change nothing there. */
  lemma {:induction false} NothingAbove(slots: seq<Slot>, k: nat, x: int, y: int, bg: Px)
    requires k <= |slots| && forall m :: k <= m < |slots| ==> !Opaque(slots[m], x, y)
    ensures Stack(slots, x, y, bg) == Stack(slots[..k], x, y, bg)
  {
    if k < |slots| {
      var n := |slots| - 1;
      NothingAbove(slots[..n], k, x, y, bg);
      assert slots[..n][..k] == slots[..k];
    } else {
      assert slots[..k] == slots;
    }
  }

  /** Where slot k is the topmost that shows and the cursor is not, the scene is its pixel,
      blended over what is below it unless its alpha is 255. */
  lemma TopPixel(c: Comp, k: nat, x: int, y: int)
    requires k < |c.slots| && SlotOk(c.slots[k]) && Opaque(c.slots[k], x, y)
    requires forall m :: k < m < |c.slots| ==> !Opaque(c.slots[m], x, y)
    requires !c.cursor.on || !Ink(c.cursor, x, y)
    ensures var s := c.slots[k];
      var own := s.img[y - s.y][x - s.x];
      if s.alpha == 255 then ScenePx(c, x, y) == own
      else Blended(ScenePx(c, x, y), own, Stack(c.slots[..k], x, y, c.bg), s.alpha)
  {
    var s := c.slots[k];
    NothingAbove(c.slots, k + 1, x, y, c.bg);
    assert c.slots[..k + 1][..k] == c.slots[..k];
    if s.alpha < 255 {
      var own, below := s.img[y - s.y][x - s.x], Stack(c.slots[..k], x, y, c.bg);
      BlendMoves(own.r, below.r, s.alpha);
      BlendMoves(own.g, below.g, s.alpha);
      BlendMoves(own.b, below.b, s.alpha);
    }
  }

  /** Where no surface shows and the cursor is not, the scene is the background. */
  lemma BarePixel(c: Comp, x: int, y: int)
    requires forall m :: 0 <= m < |c.slots| ==> !Opaque(c.slots[m], x, y)
    requires !c.cursor.on || !Ink(c.cursor, x, y)
    ensures ScenePx(c, x, y) == c.bg
  {
    NothingAbove(c.slots, 0, x, y, c.bg);
    assert c.slots[..0] == [];
  }

  /** The cursor is over all surfaces: its arrow white, its shadow, where the arrow is not,
      black; it has no other pixel. */
  lemma CursorPixel(c: Comp, x: int, y: int)
    requires c.cursor.on
    ensures var i, j := x - c.cursor.x, y - c.cursor.y;
      var arrow, shadow := Arrow(j, i), Arrow(j - 1, i - 1);
      && (arrow ==> ScenePx(c, x, y) == Px(255, 255, 255, 255))
      && (!arrow && shadow ==> ScenePx(c, x, y) == Px(0, 0, 0, 255))
      && (!arrow && !shadow ==> ScenePx(c, x, y) == Stack(c.slots, x, y, c.bg))
  {
    hide Stack, Arrow;
    ArrowAt(c.cursor.x, c.cursor.y, x, y);
    ArrowAt(c.cursor.x + 1, c.cursor.y + 1, x, y);
  }

  lemma ArrowAt(cx: int, cy: int, x: int, y: int)
    ensures (x, y) in ArrowPts(cx, cy) <==> Arrow(y - cy, x - cx)
  {
    if Arrow(y - cy, x - cx) {
      assert (cx + (x - cx), cy + (y - cy)) == (x, y);
    }
  }

  // ----- The pixels of a surface --------------------------------------------------------------

  function SurfaceOf(c: Comp, id: int): (s: Slot)
    requires Known(c, id)
    ensures s.Surf? && s.id == id
  {
    c.slots[Find(c.slots, id)]
  }

  predicate HasPixel(c: Comp, id: int, i: int, j: int) {
    Known(c, id) && 0 <= i < SurfaceOf(c, id).w && 0 <= j < SurfaceOf(c, id).h
  }

  /** Column i, row j of the surface. */
  function PixelOf(c: Comp, id: int, i: int, j: int): Px
    requires Wf(c) && HasPixel(c, id, i, j)
  {
    SlotOkAt(c, Find(c.slots, id));
    SurfaceOf(c, id).img[j][i]
  }

  lemma SlotOkAt(c: Comp, k: nat)
    requires Wf(c) && k < |c.slots|
    ensures SlotOk(c.slots[k])
  {
  }

  /** The surface is the same but for its picture. */
  predicate OnlyRedrawn(c: Comp, c': Comp, id: int)
    requires Known(c, id)
  {
    Known(c', id) && SameButPicture(SurfaceOf(c', id), SurfaceOf(c, id))
  }

  lemma {:induction false} FindReplaced(slots: seq<Slot>, s: Slot)
    requires s.Surf? && Find(slots, s.id) < |slots|
    ensures Find(slots[Find(slots, s.id) := s], s.id) == Find(slots, s.id)
  {
    var k := Find(slots, s.id);
    var now := slots[k := s];
    var m := Find(now, s.id);
    assert now[k].id == s.id;
  }

  predicate InRect(i: int, j: int, x: int, y: int, w: int, h: int) {
    x <= i < x + w && y <= j < y + h
  }

  predicate OnEdge(i: int, j: int, x: int, y: int, w: int, h: int) {
    InRect(i, j, x, y, w, h) && (i == x || i == x + w - 1 || j == y || j == y + h - 1)
  }

  /** Column i, row j of a text is a set bit of one of its glyphs. */
  predicate OnText(font: Font, str: seq<byte>, i: int, j: int)
    requires FontOk(font)
  {
    exists n :: 0 <= n < |str| && 8 * n <= i < 8 * n + 8 && 0 <= j < 8 && str[n] in font && font[str[n]][j][i - 8 * n]
  }

  /** comp_fill: every pixel takes the colour. */
  lemma FillShows(c: Comp, id: int, color: Px)
    requires Wf(c) && Known(c, id)
    ensures var c' := Scene.Fill(c, id, color);
      && Wf(c') && OnlyRedrawn(c, c', id)
      && forall i, j :: HasPixel(c', id, i, j) ==> PixelOf(c', id, i, j) == color
  {
    FillIsLocal(c, id, color);
    var s := SurfaceOf(c, id);
    FindReplaced(c.slots, s.(img := Stamp(s.img, RectPts(0, 0, s.w, s.h), color)));
  }

  /** comp_fill_rect: exactly the pixels of the rectangle do. */
  lemma FillRectShows(c: Comp, id: int, x: int, y: int, w: int, h: int, color: Px)
    requires Wf(c) && Known(c, id)
    ensures var c' := Scene.FillRect(c, id, x, y, w, h, color);
      && Wf(c') && OnlyRedrawn(c, c', id)
      && forall i, j :: HasPixel(c', id, i, j) ==>
           PixelOf(c', id, i, j) == if InRect(i, j, x, y, w, h) then color else PixelOf(c, id, i, j)
  {
    FillRectIsLocal(c, id, x, y, w, h, color);
    var s := SurfaceOf(c, id);
    FindReplaced(c.slots, s.(img := Stamp(s.img, RectPts(x, y, w, h), color)));
  }

  /** comp_rect: exactly the pixels on the rectangle's edges. */
  lemma OutlineShows(c: Comp, id: int, x: int, y: int, w: int, h: int, color: Px)
    requires Wf(c) && Known(c, id)
    ensures var c' := Outline(c, id, x, y, w, h, color);
      && Wf(c') && OnlyRedrawn(c, c', id)
      && forall i, j :: HasPixel(c', id, i, j) ==>
           PixelOf(c', id, i, j) == if OnEdge(i, j, x, y, w, h) then color else PixelOf(c, id, i, j)
  {
    OutlineIsLocal(c, id, x, y, w, h, color);
    var s := SurfaceOf(c, id);
    FindReplaced(c.slots, s.(img := Stamp(s.img, if w <= 0 || h <= 0 then {} else BorderPts(x, y, w, h), color)));
  }

  /** comp_text: exactly the set bits of the glyphs, eight columns a character. */
  lemma TextShows(c: Comp, font: Font, id: int, x: int, y: int, str: seq<byte>, color: Px)
    requires Wf(c) && Known(c, id) && FontOk(font)
    ensures var c' := Scene.Text(c, font, id, x, y, str, color);
      && Wf(c') && OnlyRedrawn(c, c', id)
      && forall i, j :: HasPixel(c', id, i, j) ==>
           PixelOf(c', id, i, j) == if OnText(font, str, i - x, j - y) then color else PixelOf(c, id, i, j)
  {
    hide TextPts;
    TextIsLocal(c, font, id, x, y, str, color);
    var s := SurfaceOf(c, id);
    FindReplaced(c.slots, s.(img := Stamp(s.img, TextPts(font, x, y, str), color)));
    forall i, j | HasPixel(c, id, i, j)
      ensures (i, j) in TextPts(font, x, y, str) <==> OnText(font, str, i - x, j - y)
    {
      TextAt(font, x, y, str, i, j);
    }
  }

  /** comp_resize: the new size, with the old content where there was any, word for word,
      and black elsewhere. */
  lemma ResizeKeepsContent(c: Comp, id: int, w: nat, h: nat)
    requires Wf(c) && Known(c, id) && SizeOk(w, h)
    ensures var c' := Resize(c, id, w, h, true).0;
      && Wf(c') && Known(c', id) && SurfaceOf(c', id).w == w && SurfaceOf(c', id).h == h
      && SurfaceOf(c', id).(w := SurfaceOf(c, id).w, h := SurfaceOf(c, id).h, img := SurfaceOf(c, id).img)
         == SurfaceOf(c, id)
      && forall i, j :: HasPixel(c', id, i, j) ==>
           PixelOf(c', id, i, j) == if HasPixel(c, id, i, j) then PixelOf(c, id, i, j) else Px(0, 0, 0, 0)
  {
    ResizeIsLocal(c, id, w, h, true);
    var s := SurfaceOf(c, id);
    SlotOkAt(c, Find(c.slots, id));
    var img := Compose(Blank(w, h), 0, 0, s.img, 0, 0, w, h, CopyWord);
    FindReplaced(c.slots, s.(w := w, h := h, img := img));
    forall i, j | 0 <= i < w && 0 <= j < h
      ensures img[j][i] == if 0 <= i < s.w && 0 <= j < s.h then s.img[j][i] else Px(0, 0, 0, 0)
    {
      assert Inside(Blank(w, h), i, j);
    }
  }

  /** comp_resize fails, and changes nothing, exactly without the surface, with a size out
      of range or without memory. */
  lemma ResizeRefuses(c: Comp, id: int, w: nat, h: nat, mem: bool)
    ensures var (c', r) := Resize(c, id, w, h, mem);
      && (r == 0 <==> Known(c, id) && 0 < w <= 1024 && 0 < h <= 1024 && w * h <= 262_144 && mem)
      && (r != 0 ==> r == -1 && c' == c)
  {
  }

  /** comp_create succeeds exactly with a size in range, a free entry and memory.  The new
      surface is black, visible, not transparent, and at the top left corner. */
  lemma CreateShows(c: Comp, w: nat, h: nat, mem: bool)
    requires Wf(c)
    ensures var (c', id) := Create(c, w, h, mem);
      && Wf(c')
      && (id >= 0 <==> 0 < w <= 1024 && 0 < h <= 1024 && w * h <= 262_144 && mem
                       && exists k :: 0 <= k < COMP_MAX && c.slots[k].Free?)
      && (id < 0 ==> id == -1 && c' == c)
      && (id >= 0 ==>
            && !Known(c, id) && Known(c', id)
            && SurfaceOf(c', id).(img := []) == Surf(id, 0, 0, w, h, true, 255, Still, [])
            && forall i, j :: HasPixel(c', id, i, j) ==> PixelOf(c', id, i, j) == Px(0, 0, 0, 0))
  {
    CreateIsLocal(c, w, h, mem);
    var (c', id) := Create(c, w, h, mem);
    var k := FirstFree(c.slots);
    if id >= 0 {
      assert c'.slots[k].id == id;
      var m := Find(c'.slots, id);
      assert m == k;
    }
  }

  // ----- The other fields of a surface ----------------------------------------------------------

  /** comp_move, comp_set_visible, comp_fade_in, comp_fade_out and comp_slide_in: what they
      make of the surface they name. */
  lemma FieldsAfter(c: Comp, id: int, x: int, y: int, v: bool, frames: int)
    requires Wf(c) && Known(c, id) && frames > 0
    ensures var s := SurfaceOf(c, id);
      && Found(Move(c, id, x, y), id, s.(x := x, y := y))
      && Found(SetVisible(c, id, v), id, s.(visible := v))
      && Found(FadeInStart(c, id, frames), id, s.(visible := true, alpha := 0, anim := FadeIn(frames, frames)))
      && Found(FadeOutStart(c, id, frames), id, s.(anim := FadeOut(frames, frames)))
      && Found(SlideInStart(c, id, x, y, frames), id,
               s.(visible := true, alpha := 255, x := x, y := y, anim := Slide(frames, frames, x, y, s.x, s.y)))
  {
    var s := SurfaceOf(c, id);
    FindReplaced(c.slots, s.(x := x, y := y));
    FindReplaced(c.slots, s.(visible := v));
    FindReplaced(c.slots, s.(visible := true, alpha := 0, anim := FadeIn(frames, frames)));
    FindReplaced(c.slots, s.(anim := FadeOut(frames, frames)));
    var slide := Slide(frames, frames, x, y, s.x, s.y);
    FindReplaced(c.slots, s.(visible := true, alpha := 255, x := x, y := y, anim := slide));
  }

  predicate Found(c: Comp, id: int, s: Slot) {
    Known(c, id) && SurfaceOf(c, id) == s
  }

  /** comp_destroy: the surface is gone. */
  lemma DestroyForgets(c: Comp, id: int)
    requires Wf(c)
    ensures !Known(Destroy(c, id), id)
  {
    var k, m := Find(c.slots, id), Find(Destroy(c, id).slots, id);
  }

  /** The cursor after comp_cursor_show, comp_cursor_move and comp_cursor_hide; nothing
      else but the damage changes. */
  lemma CursorAfter(c: Comp, x: int, y: int)
    ensures CursorShow(c, x, y).(damage := c.damage) == c.(cursor := Cursor(true, x, y))
    ensures CursorMove(c, x, y).(damage := c.damage) == c.(cursor := Cursor(true, x, y))
    ensures CursorHide(c).(damage := c.damage) == c.(cursor := c.cursor.(on := false))
  {
  }

  // ----- Animations -----------------------------------------------------------------------------------

  /** A surface after one call of comp_anim_step. */
  function Framed(s: Slot): Slot
    requires SlotOk(s)
  {
    if s.Free? || s.anim.Still? then s else TickSlot(s)
  }

  /** comp_anim_step treats each surface by itself. */
  lemma {:induction false} StepFrames(c: Comp, n: nat, k: nat)
    requires Wf(c) && k < n <= COMP_MAX
    ensures SlotOk(c.slots[k]) && TickTo(c, n).slots[k] == Framed(c.slots[k])
  {
    hide TickSlot, Wf, SlotOk, Hull, Clip;
    SlotFacts(c, k);
    var before := TickTo(c, n - 1);
    SlotFacts(before, n - 1);
    TickWf(before, n - 1);
    if k < n - 1 { StepFrames(c, n - 1, k); } else { TickIs(before, k); }
  }

  lemma TickIs(c: Comp, k: nat)
    requires Wf(c) && k < COMP_MAX && |c.slots| == COMP_MAX && SlotOk(c.slots[k])
    ensures |Tick(c, k).slots| == COMP_MAX && Tick(c, k).slots[k] == Framed(c.slots[k])
  {
    hide TickSlot, Hull, Clip;
  }

  /** A surface after n frames. */
  function Frames(s: Slot, n: nat): (r: Slot)
    requires SlotOk(s)
    ensures SlotOk(r)
  {
    if n == 0 then s
    else
      var t := Frames(s, n - 1);
      if t.Surf? && !t.anim.Still? then TickSlotOk(t); Framed(t) else Framed(t)
  }

  /** The course of a fade-in over total frames: from nothing, in equal steps, to full alpha. */
  lemma {:induction false} FadeInCourse(s: Slot, total: int, n: nat)
    requires SlotOk(s) && s.Surf? && total > 0 && s.anim == FadeIn(total, total) && n <= total
    ensures var r := Frames(s, n);
      if n == 0 then r == s
      else if n < total then r == s.(alpha := 255 - 255 * (total - n) / total, anim := FadeIn(total - n, total))
      else r == s.(alpha := 255, anim := Still)
  {
    if n > 0 {
      FadeInCourse(s, total, n - 1);
      Share(total, total - n);
    }
  }

  /** The share of 255 that is left of a fade. */
  lemma Share(total: int, left: int)
    requires 0 <= left <= total && total > 0
    ensures 0 <= 255 * left / total <= 255
  {
    MulGap(255 * left / total, 256, total);
    MulGap(255, 255 * left / total, total);
    assert 255 * left >= 0;
  }

  /** Of a fade-out: in equal steps to nothing, after which the surface is hidden, and its
      alpha back at 255 for the next time. */
  lemma {:induction false} FadeOutCourse(s: Slot, total: int, n: nat)
    requires SlotOk(s) && s.Surf? && total > 0 && s.anim == FadeOut(total, total) && n <= total
    ensures var r := Frames(s, n);
      if n == 0 then r == s
      else if n < total then r == s.(alpha := 255 * (total - n) / total, anim := FadeOut(total - n, total))
      else r == s.(alpha := 255, visible := false, anim := Still)
  {
    if n > 0 {
      FadeOutCourse(s, total, n - 1);
      Share(total, total - n);
    }
  }

  /** A fade never goes back. */
  lemma FadesAreMonotone(total: int, n: nat)
    requires 0 <= n < total
    ensures 255 - 255 * (total - n) / total <= 255 - 255 * (total - n - 1) / total
    ensures 255 * (total - n) / total >= 255 * (total - n - 1) / total
  {
    Quotients(255 * (total - n - 1), 255 * (total - n), total);
  }

  lemma Quotients(a: int, b: int, d: int)
    requires 0 <= a <= b && d > 0
    ensures a / d <= b / d
  {
    MulGap(b / d, a / d, d);
  }

  /** Of a slide: each frame the same share of the way, and at the end the place itself. */
  lemma {:induction false} SlideCourse(s: Slot, total: int, n: nat)
    requires SlotOk(s) && s.Surf? && total > 0 && s.anim.Slide? && s.anim.left == s.anim.total == total && n <= total
    ensures var r, a := Frames(s, n), s.anim;
      if n == 0 then r == s
      else if n < total then
        r == s.(x := a.fx + Quot((a.tx - a.fx) * n, total), y := a.fy + Quot((a.ty - a.fy) * n, total),
                alpha := 255, anim := a.(left := total - n))
      else r == s.(x := a.tx, y := a.ty, alpha := 255, anim := Still)
  {
    hide Quot, TickSlot;
    if n > 0 {
      SlideCourse(s, total, n - 1);
      SlideFrame(Frames(s, n - 1), total, n);
      if n == total {
        Whole(s.anim.tx - s.anim.fx, total);
        Whole(s.anim.ty - s.anim.fy, total);
      }
    }
  }

  /** One frame of it. */
  lemma SlideFrame(s: Slot, total: int, n: nat)
    requires s.Surf? && s.anim.Slide? && s.anim.total == total > 0 && s.anim.left == total - n + 1 && 0 < n <= total
    ensures var a := s.anim;
      var x, y := a.fx + Quot((a.tx - a.fx) * n, total), a.fy + Quot((a.ty - a.fy) * n, total);
      TickSlot(s) == s.(x := x, y := y, alpha := 255, anim := if n < total then a.(left := total - n) else Still)
  {
    hide Quot;
    assert total - (total - n) == n;
  }

  /** Where a share is no whole number of pixels it is cut towards the start. */
  lemma QuotTruncates(a: int, b: int)
    requires b > 0
    ensures a >= 0 ==> 0 <= a - Quot(a, b) * b < b
    ensures a <= 0 ==> -b < a - Quot(a, b) * b <= 0
  {
    if a < 0 { assert Quot(a, b) * b == -(-a / b * b); }
  }

  lemma Whole(d: int, total: int)
    requires total > 0
    ensures Quot(d * total, total) == d
  {
    if d >= 0 {
      assert d * total >= 0;
      DivIs(d * total, total, d);
    } else {
      assert -(d * total) == -d * total && -d * total > 0;
      DivIs(-d * total, total, -d);
    }
  }

  // ----- How much is damaged ------------------------------------------------------------------------------

  /** A rectangle from (x0, y0) up to (x1, y1). */
  datatype Area = Area(x0: int, y0: int, x1: int, y1: int)

  /** The box grown to hold what is on the screen of some rectangles. */
  function Grown(b: Box, areas: seq<Area>, w: nat, h: nat): Box {
    if areas == [] then b
    else
      var a := areas[|areas| - 1];
      Hull(Grown(b, areas[..|areas| - 1], w, h), Clip(a.x0, a.y0, a.x1, a.y1, w, h))
  }

  /** The rectangle of a surface. */
  function Place(s: Slot): Area
    requires s.Surf?
  {
    Area(s.x, s.y, s.x + s.w, s.y + s.h)
  }

  lemma GrownTwo(b: Box, p: Area, q: Area, w: nat, h: nat)
    ensures Grown(b, [p], w, h) == Hull(b, Clip(p.x0, p.y0, p.x1, p.y1, w, h))
    ensures Grown(b, [p, q], w, h) == Hull(Grown(b, [p], w, h), Clip(q.x0, q.y0, q.x1, q.y1, w, h))
  {
    assert [p][..0] == [] && [p, q][..1] == [p];
  }

  /** The calls damage no more than they have to: the least box around the old one and the
      surface's rectangle, before and after the call where it changes. */
  lemma DamageIs(c: Comp, id: int, x: int, y: int, w: nat, h: nat, v: bool, frames: int, color: Px)
    requires Wf(c) && Known(c, id) && frames > 0 && SizeOk(w, h)
    ensures var p := Place(SurfaceOf(c, id));
      && Destroy(c, id).damage == Scene.Fill(c, id, color).damage == Raise(c, id).damage
         == SetVisible(c, id, v).damage == FadeInStart(c, id, frames).damage == FadeOutStart(c, id, frames).damage
         == DamageAll(c, id).damage == Grown(c.damage, [p], c.w, c.h)
      && Move(c, id, x, y).damage == SlideInStart(c, id, x, y, frames).damage
         == Grown(c.damage, [p, Area(x, y, x + p.x1 - p.x0, y + p.y1 - p.y0)], c.w, c.h)
      && Resize(c, id, w, h, true).0.damage == Grown(c.damage, [p, Area(p.x0, p.y0, p.x0 + w, p.y0 + h)], c.w, c.h)
  {
    hide Hull, Clip, RaiseSlots;
    var p := Place(SurfaceOf(c, id));
    GrownTwo(c.damage, p, Area(x, y, x + p.x1 - p.x0, y + p.y1 - p.y0), c.w, c.h);
    GrownTwo(c.damage, p, Area(p.x0, p.y0, p.x0 + w, p.y0 + h), c.w, c.h);
  }

  /** The cursor's square, 13 pixels each way for arrow and shadow. */
  lemma CursorDamageIs(c: Comp, x: int, y: int)
    ensures var p, q := Area(c.cursor.x, c.cursor.y, c.cursor.x + 13, c.cursor.y + 13), Area(x, y, x + 13, y + 13);
      && CursorShow(c, x, y).damage == Grown(c.damage, [q], c.w, c.h)
      && (c.cursor.on ==> CursorMove(c, x, y).damage == Grown(c.damage, [p, q], c.w, c.h))
      && (c.cursor.on ==> CursorHide(c).damage == Grown(c.damage, [p], c.w, c.h))
  {
    hide Hull, Clip;
    var p, q := Area(c.cursor.x, c.cursor.y, c.cursor.x + 13, c.cursor.y + 13), Area(x, y, x + 13, y + 13);
    GrownTwo(c.damage, p, q, c.w, c.h);
    GrownTwo(c.damage, q, q, c.w, c.h);
  }

  /** comp_damage, and with it the drawing of a rectangle: what of it is on the surface. */
  lemma PartDamageIs(c: Comp, id: int, x: int, y: int, w: int, h: int, color: Px)
    requires Wf(c) && Known(c, id)
    ensures var s := SurfaceOf(c, id);
      var part := Area(s.x + Max(x, 0), s.y + Max(y, 0), s.x + Min(x + w, s.w), s.y + Min(y + h, s.h));
      var b := if Max(x, 0) < Min(x + w, s.w) && Max(y, 0) < Min(y + h, s.h)
               then Grown(c.damage, [part], c.w, c.h) else c.damage;
      DamageRect(c, id, x, y, w, h).damage == Scene.FillRect(c, id, x, y, w, h, color).damage == b
  {
    hide Hull, Stamp, Find, Wf, RectPts;
    var s := SurfaceOf(c, id);
    var part := Area(s.x + Max(x, 0), s.y + Max(y, 0), s.x + Min(x + w, s.w), s.y + Min(y + h, s.h));
    GrownTwo(c.damage, part, part, c.w, c.h);
  }
}

// kernel/drivers/comp.c as it runs: a table of 24 records whose pixel buffers
// are drawn on in place, a dirty rectangle, and a back buffer shared with the
// framebuffer.  Every method is proved to do to the abstract state, comp, what
// the function of the same name in Scene does.

module Compositor {
  import opened Gfx
  import opened Damage
  import opened Scene
  import Framebuffer
  import opened Words

  /** struct comp_surface. */
  datatype Rec =
    | Unused
    | Rec(id: int, x: int, y: int, visible: bool, alpha: int, anim: Anim, g: Surface)

  class Compositor {
    const fb: Framebuffer.Screen<Px>
    const view: Surface      // comp_back
    const list: array<Rec>   // comp_list
    var nextId: int
    var bg: Px
    var dirty: bool
    var gx0: int
    var gy0: int
    var gx1: int
    var gy1: int
    var cursorOn: bool
    var cursorX: int
    var cursorY: int
    ghost var comp: Comp     // the abstract state, tied to the fields by Valid()

    /** comp_init on an active framebuffer in a 32-bit mode. */
    constructor (fb: Framebuffer.Screen<Px>)
      requires fb.Shape() && fb.bypp == 1
      ensures Valid() && this.fb == fb
      ensures comp == Comp(FreeSlots(COMP_MAX), 1, Black, Clean, Cursor(false, 0, 0), fb.w, fb.h)
    {
      this.fb := fb;
      view := new Surface(fb.w, fb.h, fb.pitch, fb.back);
      list := new Rec[COMP_MAX](_ => Unused);
      nextId, bg := 1, Black;
      dirty, gx0, gy0, gx1, gy1 := false, 0, 0, 0, 0;
      cursorOn, cursorX, cursorY := false, 0, 0;
      comp := Comp(FreeSlots(COMP_MAX), 1, Black, Clean, Cursor(false, 0, 0), fb.w, fb.h);
    }

    ghost function Buffers(): set<array<Px>>
      reads list
    {
      set k | 0 <= k < list.Length && list[k].Rec? :: list[k].g.pixels
    }

    /** The records are in order and no two surfaces share a buffer. */
    ghost predicate Shape()
      reads list
    {
      && OverScreen() && list.Length == COMP_MAX
      && (forall k :: 0 <= k < list.Length && list[k].Rec? ==> RecOk(list[k]))
      && (forall k, m :: 0 <= k < m < list.Length && list[k].Rec? && list[m].Rec? ==>
          list[k].g.pixels != list[m].g.pixels)
    }

    /** comp_back is the framebuffer's back buffer. */
    ghost predicate OverScreen() {
      && fb.Shape() && fb.bypp == 1 && view.Valid()
      && view.pixels == fb.back && view.w == fb.w && view.h == fb.h && view.stride == fb.pitch
    }

    ghost predicate RecOk(r: Rec)
      requires r.Rec?
    {
      && r.g.Valid() && r.g.stride == r.g.w && r.g.w <= DIM_MAX && r.g.h <= DIM_MAX
      && r.g.pixels != fb.back && r.g.pixels != fb.front
      && Pos(r.x) && Pos(r.y) && AnimPos(r.anim)
    }

    /** A record and its slot in the abstract state. */
    ghost predicate Linked(r: Rec, s: Slot)
      requires r.Rec? ==> RecOk(r)
      reads if r.Rec? then {r.g.pixels} else {}
    {
      match r
      case Unused => s == Free
      case Rec(id, x, y, visible, alpha, anim, g) => s == Surf(id, x, y, g.w, g.h, visible, alpha, anim, g.Img())
    }

    /** The plain fields and the abstract state. */
    ghost predicate FieldsLinked()
      reads this
    {
      && Pos(cursorX) && Pos(cursorY)
      && comp.nextId == nextId && comp.bg == bg && comp.w == view.w && comp.h == view.h
      && comp.damage == Box()
      && comp.cursor == Cursor(cursorOn, cursorX, cursorY)
    }

    ghost predicate Valid()
      reads this, list, Buffers()
    {
      && Shape() && Wf(comp) && FieldsLinked()
      && (forall k :: 0 <= k < COMP_MAX ==> Linked(list[k], comp.slots[k]))
    }

    /** dmg_add. */
    method DmgAdd(x0: int, y0: int, x1: int, y1: int)
      requires Valid() && Int32(x0) && Int32(y0) && Int32(x1) && Int32(y1)
      modifies this`dirty, this`gx0, this`gy0, this`gx1, this`gy1, this`comp
      ensures Valid() && comp == Dmg(old(comp), x0, y0, x1, y1)
    {
      hide Hull, Clip, Wf, SlotOk, Linked, RecOk;
      DmgWf(comp, x0, y0, x1, y1);
      GrowBox(x0, y0, x1, y1);
      comp := Dmg(comp, x0, y0, x1, y1);
    }

    method GrowBox(x0: int, y0: int, x1: int, y1: int)
      modifies this`dirty, this`gx0, this`gy0, this`gx1, this`gy1
      ensures Box() == Hull(old(Box()), Clip(x0, y0, x1, y1, view.w, view.h))
    {
      dirty, gx0, gy0, gx1, gy1 := Grow(dirty, gx0, gy0, gx1, gy1, x0, y0, x1, y1, view.w, view.h);
    }

    function Box(): Box
      reads this`dirty, this`gx0, this`gy0, this`gx1, this`gy1
    {
      if dirty then Dirty(gx0, gy0, gx1, gy1) else Clean
    }

    /** The arithmetic of dmg_add on a w x h screen. */
    static method Grow(d: bool, bx0: int, by0: int, bx1: int, by1: int,
                       x0: int, y0: int, x1: int, y1: int, w: nat, h: nat)
      returns (d': bool, cx0: int, cy0: int, cx1: int, cy1: int)
      ensures (if d' then Dirty(cx0, cy0, cx1, cy1) else Clean)
           == Hull(if d then Dirty(bx0, by0, bx1, by1) else Clean, Clip(x0, y0, x1, y1, w, h))
    {
      d', cx0, cy0, cx1, cy1 := d, x0, y0, x1, y1;
      if cx0 < 0 { cx0 := 0; }
      if cy0 < 0 { cy0 := 0; }
      if cx1 > w { cx1 := w; }
      if cy1 > h { cy1 := h; }
      if cx0 >= cx1 || cy0 >= cy1 { return d, bx0, by0, bx1, by1; }
      if !d { return true, cx0, cy0, cx1, cy1; }
      if cx0 > bx0 { cx0 := bx0; }
      if cy0 > by0 { cy0 := by0; }
      if cx1 < bx1 { cx1 := bx1; }
      if cy1 < by1 { cy1 := by1; }
    }

    /** comp_get: the index of a surface, or -1. */
    method Get(id: int) returns (k: int)
      requires Valid()
      ensures k == if Known(comp, id) then Find(comp.slots, id) else -1
      ensures k >= 0 ==> list[k].Rec? && list[k].id == id
    {
      for i := 0 to COMP_MAX
        invariant forall m :: 0 <= m < i ==> !(comp.slots[m].Surf? && comp.slots[m].id == id)
      {
        assert Linked(list[i], comp.slots[i]);
        if list[i].Rec? && list[i].id == id {
          return i;
        }
      }
      return -1;
    }

    /** Damages the whole rectangle of a record. */
    method DmgRec(k: nat)
      requires Valid() && k < COMP_MAX && list[k].Rec?
      modifies this`dirty, this`gx0, this`gy0, this`gx1, this`gy1, this`comp
      ensures Valid() && comp == DmgSlot(old(comp), old(comp).slots[k])
    {
      assert Linked(list[k], comp.slots[k]);
      var s := list[k];
      DmgAdd(s.x, s.y, s.x + s.g.w, s.y + s.g.h);
    }

    /** Replaces one record and its slot. */
    method SetRec(k: nat, r: Rec, ghost s: Slot)
      requires Valid() && k < COMP_MAX
      requires r.Rec? ==> RecOk(r) && 0 < r.id < nextId
      requires r.Rec? ==> forall m | 0 <= m < COMP_MAX && m != k && list[m].Rec? ::
                 list[m].g.pixels != r.g.pixels && list[m].id != r.id
      requires SlotOk(s) && Linked(r, s)
      modifies list, this`comp
      ensures Valid() && list[k] == r && comp == SetSlot(old(comp), k, s)
      ensures forall m | 0 <= m < COMP_MAX && m != k :: list[m] == old(list[m])
    {
      forall m | 0 <= m < COMP_MAX
        ensures Linked(list[m], comp.slots[m])
      {
      }
      list[k] := r;
      comp := SetSlot(comp, k, s);
    }

    method Destroy(id: int)
      requires Valid()
      modifies this, list
      ensures Valid() && comp == Scene.Destroy(old(comp), id)
    {
      var k := Get(id);
      if k < 0 { return; }
      DmgRec(k);
      SetRec(k, Unused, Free);
    }

    method Move(id: int, x: int, y: int)
      requires Valid() && Pos(x) && Pos(y)
      modifies this, list
      ensures Valid() && comp == Scene.Move(old(comp), id, x, y)
    {
      var k := Get(id);
      if k < 0 { return; }
      DmgRec(k);
      SetRec(k, list[k].(x := x, y := y), comp.slots[k].(x := x, y := y));
      DmgRec(k);
    }

    /** A fresh zeroed surface, as kmalloc and memset leave it. */
    method NewSurface(w: nat, h: nat) returns (g: Surface)
      requires w <= DIM_MAX && h <= DIM_MAX
      ensures g.Valid() && g.w == g.stride == w && g.h == h && fresh(g.pixels)
      ensures g.Img() == Blank(w, h)
    {
      assert h * w >= 0;
      var px := new Px[h * w](_ => Black);
      g := new Surface(w, h, w, px);
      SameImage(g.Img(), Blank(w, h));
    }

    /** comp_create; mem says whether kmalloc succeeds. */
    method Create(w: nat, h: nat, mem: bool) returns (id: int)
      requires Valid()
      modifies this, list
      ensures Valid() && (comp, id) == Scene.Create(old(comp), w, h, mem)
    {
      if w == 0 || h == 0 || w > DIM_MAX || h > DIM_MAX || w * h > AREA_MAX { return -1; }
      var k := GetFree();
      if k < 0 || !mem { return -1; }
      id := CreateAt(k, w, h);
    }

    method CreateAt(k: nat, w: nat, h: nat) returns (id: int)
      requires Valid() && k < COMP_MAX && list[k].Unused? && w <= DIM_MAX && h <= DIM_MAX
      modifies this, list
      ensures Valid() && id == old(nextId)
      ensures var s := Surf(id, 0, 0, w, h, true, 255, Still, Blank(w, h));
        comp == DmgSlot(SetSlot(old(comp), k, s), s).(nextId := id + 1)
    {
      hide Hull, Clip, Blank;
      var g := NewSurface(w, h);
      id := TakeId();
      SetRec(k, Rec(id, 0, 0, true, 255, Still, g), Surf(id, 0, 0, w, h, true, 255, Still, Blank(w, h)));
      DmgRec(k);
    }

    method TakeId() returns (id: int)
      requires Valid()
      modifies this`nextId, this`comp
      ensures Valid() && id == old(nextId) && nextId == id + 1 && comp == old(comp).(nextId := id + 1)
    {
      id := nextId;
      nextId := nextId + 1;
      comp := comp.(nextId := comp.nextId + 1);
    }

    /** The first unused record, or -1. */
    method GetFree() returns (k: int)
      requires Valid()
      ensures k == if FirstFree(comp.slots) < COMP_MAX then FirstFree(comp.slots) else -1
    {
      for i := 0 to COMP_MAX
        invariant forall m :: 0 <= m < i ==> comp.slots[m].Surf?
      {
        assert Linked(list[i], comp.slots[i]);
        if list[i].Unused? { return i; }
      }
      return -1;
    }

    /** Everything but slot k is in order. */
    ghost predicate ValidBut(k: nat)
      reads this, list, Buffers()
    {
      && Shape() && Wf(comp) && FieldsLinked()
      && (forall m :: 0 <= m < COMP_MAX && m != k ==> Linked(list[m], comp.slots[m]))
    }

    /** Brings the abstract slot up to date with its redrawn buffer. */
    ghost method Drawn(k: nat, s: Slot)
      requires ValidBut(k) && k < COMP_MAX && list[k].Rec? && Linked(list[k], s)
      requires SlotOk(s) && comp.slots[k].Surf? && s.id == comp.slots[k].id
      modifies this`comp
      ensures Valid() && comp == SetSlot(old(comp), k, s)
    {
      comp := SetSlot(comp, k, s);
    }

    function Painted(s: Slot, pts: set<Point>, color: Px): Slot
      requires s.Surf?
    {
      s.(img := Stamp(s.img, pts, color))
    }

    method FillBuffer(k: nat, x: int, y: int, w: int, h: int, color: Px)
      requires Valid() && k < COMP_MAX && list[k].Rec? && Int32(x) && Int32(y) && Int32(w) && Int32(h)
      modifies list[k].g.pixels, this`comp
      ensures Valid() && comp == SetSlot(old(comp), k, Painted(old(comp).slots[k], RectPts(x, y, w, h), color))
    {
      assert Linked(list[k], comp.slots[k]);
      ghost var s := Painted(comp.slots[k], RectPts(x, y, w, h), color);
      Gfx.FillRect(list[k].g, x, y, w, h, color);
      Drawn(k, s);
    }

    /** gfx_fill then comp_damage_all. */
    method Fill(id: int, color: Px)
      requires Valid()
      modifies this, list, Buffers()
      ensures Valid() && comp == Scene.Fill(old(comp), id, color)
    {
      var k := Get(id);
      if k < 0 { return; }
      FillRec(k, color);
    }

    method FillRec(k: nat, color: Px)
      requires Valid() && k < COMP_MAX && list[k].Rec?
      modifies this, list[k].g.pixels
      ensures Valid()
      ensures var s := old(comp).slots[k];
        comp == DmgSlot(SetSlot(old(comp), k, Painted(s, RectPts(0, 0, s.w, s.h), color)), s)
    {
      hide Hull, Clip, SlotOk, Stamp;
      assert Linked(list[k], comp.slots[k]);
      FillBuffer(k, 0, 0, list[k].g.w, list[k].g.h, color);
      DmgRec(k);
    }

    /** comp_damage on a record: the rectangle is clipped to the surface. */
    method DamageRec(k: nat, x0: int, y0: int, w0: int, h0: int)
      requires Valid() && k < COMP_MAX && list[k].Rec?
      requires Coord(x0) && Coord(y0) && Coord(w0) && Coord(h0)
      modifies this`dirty, this`gx0, this`gy0, this`gx1, this`gy1, this`comp
      ensures Valid() && comp == DamagePart(old(comp), old(comp).slots[k], x0, y0, w0, h0)
    {
      hide Hull, SlotOk;
      assert Linked(list[k], comp.slots[k]);
      var s := list[k];
      var some, x, y, w, h := ClipPart(x0, y0, w0, h0, s.g.w, s.g.h);
      if some {
        DmgAdd(s.x + x, s.y + y, s.x + x + w, s.y + y + h);
      }
    }

    /** The arithmetic of comp_damage. */
    static method ClipPart(x0: int, y0: int, w0: int, h0: int, sw: nat, sh: nat)
      returns (some: bool, x: int, y: int, w: int, h: int)
      requires Coord(x0) && Coord(y0) && Coord(w0) && Coord(h0)
      ensures Clip(x0, y0, x0 + w0, y0 + h0, sw, sh) == if some then Dirty(x, y, x + w, y + h) else Clean
    {
      some, x, y, w, h := false, x0, y0, w0, h0;
      if w <= 0 || h <= 0 { return; }
      if x < 0 { w := w + x; x := 0; }
      if y < 0 { h := h + y; y := 0; }
      if x + w > sw { w := sw - x; }
      if y + h > sh { h := sh - y; }
      some := w > 0 && h > 0;
    }

    method FillRect(id: int, x: int, y: int, w: int, h: int, color: Px)
      requires Valid() && Coord(x) && Coord(y) && Coord(w) && Coord(h)
      modifies this, list, Buffers()
      ensures Valid() && comp == Scene.FillRect(old(comp), id, x, y, w, h, color)
    {
      var k := Get(id);
      if k < 0 { return; }
      FillRectRec(k, x, y, w, h, color);
    }

    method FillRectRec(k: nat, x: int, y: int, w: int, h: int, color: Px)
      requires Valid() && k < COMP_MAX && list[k].Rec? && Coord(x) && Coord(y) && Coord(w) && Coord(h)
      modifies this, list[k].g.pixels
      ensures Valid() && comp == Draw(old(comp), k, RectPts(x, y, w, h), color, x, y, w, h)
    {
      hide Hull, Clip, Wf, SlotOk, Stamp, RectPts;
      FillBuffer(k, x, y, w, h, color);
      DamageRec(k, x, y, w, h);
    }

    method RectBuffer(k: nat, x: int, y: int, w: int, h: int, color: Px)
      requires Valid() && k < COMP_MAX && list[k].Rec? && Coord(w) && Coord(h)
      modifies list[k].g.pixels, this`comp
      ensures Valid()
      ensures comp == SetSlot(old(comp), k,
                            Painted(old(comp).slots[k], if w <= 0 || h <= 0 then {} else BorderPts(x, y, w, h), color))
    {
      assert Linked(list[k], comp.slots[k]);
      ghost var s := Painted(comp.slots[k], if w <= 0 || h <= 0 then {} else BorderPts(x, y, w, h), color);
      Gfx.Rect(list[k].g, x, y, w, h, color);
      Drawn(k, s);
    }

    /** comp_rect. */
    method Outline(id: int, x: int, y: int, w: int, h: int, color: Px)
      requires Valid() && Coord(x) && Coord(y) && Coord(w) && Coord(h)
      modifies this, list, Buffers()
      ensures Valid() && comp == Scene.Outline(old(comp), id, x, y, w, h, color)
    {
      var k := Get(id);
      if k < 0 { return; }
      OutlineRec(k, x, y, w, h, color);
    }

    method OutlineRec(k: nat, x: int, y: int, w: int, h: int, color: Px)
      requires Valid() && k < COMP_MAX && list[k].Rec? && Coord(x) && Coord(y) && Coord(w) && Coord(h)
      modifies this, list[k].g.pixels
      ensures Valid()
      ensures comp == Draw(old(comp), k, if w <= 0 || h <= 0 then {} else BorderPts(x, y, w, h), color, x, y, w, h)
    {
      hide Hull, Clip, Wf, SlotOk, Stamp, BorderPts;
      RectBuffer(k, x, y, w, h, color);
      DamageRec(k, x, y, w, h);
    }

    method TextBuffer(font: Font, k: nat, x: int, y: int, str: seq<byte>, color: Px)
      requires Valid() && k < COMP_MAX && list[k].Rec? && FontOk(font)
      modifies list[k].g.pixels, this`comp
      ensures Valid()
      ensures comp == SetSlot(old(comp), k, Painted(old(comp).slots[k], TextPts(font, x, y, str), color))
    {
      assert Linked(list[k], comp.slots[k]);
      ghost var s := Painted(comp.slots[k], TextPts(font, x, y, str), color);
      Gfx.Text(list[k].g, font, x, y, str, color);
      Drawn(k, s);
    }

    /** comp_text. */
    method Text(font: Font, id: int, x: int, y: int, str: seq<byte>, color: Px)
      requires Valid() && FontOk(font) && Coord(x) && Coord(y) && Coord(8 * |str|)
      modifies this, list, Buffers()
      ensures Valid() && comp == Scene.Text(old(comp), font, id, x, y, str, color)
    {
      var k := Get(id);
      if k < 0 { return; }
      TextRec(font, k, x, y, str, color);
    }

    method TextRec(font: Font, k: nat, x: int, y: int, str: seq<byte>, color: Px)
      requires Valid() && k < COMP_MAX && list[k].Rec? && FontOk(font) && Coord(x) && Coord(y) && Coord(8 * |str|)
      modifies this, list[k].g.pixels
      ensures Valid() && comp == Draw(old(comp), k, TextPts(font, x, y, str), color, x, y, 8 * |str|, 8)
    {
      hide Hull, Clip, Wf, SlotOk, TextPts, Stamp;
      var len := |str|;
      TextBuffer(font, k, x, y, str, color);
      DamageRec(k, x, y, len * 8, 8);
    }

    /** comp_resize: the old content is kept, cropped. */
    method Resize(id: int, w: nat, h: nat, mem: bool) returns (r: int)
      requires Valid()
      modifies this, list
      ensures Valid() && (comp, r) == Scene.Resize(old(comp), id, w, h, mem)
    {
      var k := Get(id);
      if k < 0 || w == 0 || h == 0 { return -1; }
      if w > DIM_MAX || h > DIM_MAX || w * h > AREA_MAX || !mem { return -1; }
      ResizeRec(k, w, h);
      return 0;
    }

    method ResizeRec(k: nat, w: nat, h: nat)
      requires Valid() && k < COMP_MAX && list[k].Rec? && w <= DIM_MAX && h <= DIM_MAX
      modifies this, list
      ensures Valid()
      ensures var s := old(comp).slots[k];
        var s' := s.(w := w, h := h, img := Compose(Blank(w, h), 0, 0, s.img, 0, 0, w, h, CopyWord));
        comp == DmgSlot(SetSlot(DmgSlot(old(comp), s), k, s'), s')
    {
      hide Hull, Clip, Compose;
      assert Linked(list[k], comp.slots[k]);
      ghost var s := comp.slots[k];
      var ns := NewSurface(w, h);
      Gfx.Blit(ns, 0, 0, list[k].g, 0, 0, w, h);
      DmgRec(k);
      SetRec(k, list[k].(g := ns), s.(w := w, h := h, img := Compose(Blank(w, h), 0, 0, s.img, 0, 0, w, h, CopyWord)));
      DmgRec(k);
    }

    /** Sets the fields of a record that the animations use. */
    method Retouch(k: nat, x: int, y: int, visible: bool, alpha: int, anim: Anim)
      requires Valid() && k < COMP_MAX && list[k].Rec? && Pos(x) && Pos(y) && AnimPos(anim)
      requires 0 <= alpha <= 255 && (!anim.Still? ==> anim.left <= anim.total && 0 < anim.total)
      modifies list, this`comp
      ensures Valid()
      ensures comp == SetSlot(old(comp), k,
                              old(comp).slots[k].(x := x, y := y, visible := visible, alpha := alpha, anim := anim))
      ensures list[k] == old(list[k]).(x := x, y := y, visible := visible, alpha := alpha, anim := anim)
      ensures forall m | 0 <= m < COMP_MAX && m != k :: list[m] == old(list[m])
    {
      assert Linked(list[k], comp.slots[k]);
      assert forall m | 0 <= m < COMP_MAX :: Linked(list[m], comp.slots[m]);
      SetRec(k, list[k].(x := x, y := y, visible := visible, alpha := alpha, anim := anim),
             comp.slots[k].(x := x, y := y, visible := visible, alpha := alpha, anim := anim));
    }

    /** comp_set_visible. */
    method SetVisible(id: int, v: bool)
      requires Valid()
      modifies this, list
      ensures Valid() && comp == Scene.SetVisible(old(comp), id, v)
    {
      var k := Get(id);
      if k < 0 { return; }
      assert Linked(list[k], comp.slots[k]);
      SetVisibleRec(k, v);
    }

    method SetVisibleRec(k: nat, v: bool)
      requires Valid() && k < COMP_MAX && list[k].Rec?
      modifies this, list
      ensures Valid() && list[k] == old(list[k]).(visible := v)
      ensures comp == DmgSlot(SetSlot(old(comp), k, old(comp).slots[k].(visible := v)), old(comp).slots[k])
    {
      hide Hull, Clip;
      assert Linked(list[k], comp.slots[k]);
      if v {
        Retouch(k, list[k].x, list[k].y, true, list[k].alpha, list[k].anim);
        DmgRec(k);
      } else {
        DmgRec(k);
        Retouch(k, list[k].x, list[k].y, false, list[k].alpha, list[k].anim);
      }
    }

    /** Retouch, then damage the whole surface where it now is. */
    method RetouchAndDamage(k: nat, x: int, y: int, visible: bool, alpha: int, anim: Anim)
      requires Valid() && k < COMP_MAX && list[k].Rec? && Pos(x) && Pos(y) && AnimPos(anim)
      requires 0 <= alpha <= 255 && (!anim.Still? ==> anim.left <= anim.total && 0 < anim.total)
      modifies this, list
      ensures Valid()
      ensures var s := old(comp).slots[k].(x := x, y := y, visible := visible, alpha := alpha, anim := anim);
        comp == DmgSlot(SetSlot(old(comp), k, s), s)
      ensures forall m | 0 <= m < COMP_MAX && m != k :: list[m] == old(list[m])
    {
      hide SlotOk, Hull, Clip;
      Retouch(k, x, y, visible, alpha, anim);
      DmgRec(k);
    }

    /** comp_damage. */
    method Damage(id: int, x: int, y: int, w: int, h: int)
      requires Valid() && Coord(x) && Coord(y) && Coord(w) && Coord(h)
      modifies this
      ensures Valid() && comp == Scene.DamageRect(old(comp), id, x, y, w, h)
    {
      var k := Get(id);
      if k < 0 { return; }
      DamageRec(k, x, y, w, h);
    }

    /** comp_damage_all. */
    method DamageAll(id: int)
      requires Valid()
      modifies this
      ensures Valid() && comp == Scene.DamageAll(old(comp), id)
    {
      var k := Get(id);
      if k < 0 { return; }
      DmgRec(k);
    }

    /** comp_damage_all by an application that has just drawn on the surface itself, k
        being where comp_surface found it: everything else is still in order. */
    method DamageDrawn(id: int, ghost k: nat)
      requires k < COMP_MAX && ValidBut(k) && list[k].Rec? && list[k].id == id
      requires comp.slots[k].Surf? && SameButImage(list[k], comp.slots[k])
      modifies this
      ensures Valid() && comp == Scene.Paint(old(comp), id, list[k].g.Img())
    {
      hide Hull, Clip;
      ghost var c, s := comp, comp.slots[k].(img := list[k].g.Img());
      Drawn(k, s);
      FoundHere(c, k);
      FoundHere(comp, k);
      DamageAll(id);
    }

    lemma FoundHere(c: Comp, k: nat)
      requires Wf(c) && k < COMP_MAX && c.slots[k].Surf?
      ensures Known(c, c.slots[k].id) && Find(c.slots, c.slots[k].id) == k
    {
      var m := Find(c.slots, c.slots[k].id);
    }

    /** Record and slot differ in what the surface shows at most. */
    ghost predicate SameButImage(r: Rec, s: Slot)
      requires r.Rec? && RecOk(r) && s.Surf?
    {
      s == Surf(r.id, r.x, r.y, r.g.w, r.g.h, r.visible, r.alpha, r.anim, s.img)
    }

    method FadeIn(id: int, frames: int)
      requires Valid()
      modifies this, list
      ensures Valid() && comp == FadeInStart(old(comp), id, frames)
    {
      var k := Get(id);
      if k < 0 || frames <= 0 { return; }
      FadeInRec(k, frames);
    }

    method FadeInRec(k: nat, frames: int)
      requires Valid() && k < COMP_MAX && list[k].Rec? && 0 < frames
      modifies this, list
      ensures Valid()
      ensures var s := old(comp).slots[k];
        comp == DmgSlot(SetSlot(old(comp), k, s.(visible := true, alpha := 0, anim := Anim.FadeIn(frames, frames))), s)
    {
      hide SlotOk;
      assert Linked(list[k], comp.slots[k]);
      SetVisibleRec(k, true);
      RetouchAndDamage(k, list[k].x, list[k].y, list[k].visible, 0, Anim.FadeIn(frames, frames));
    }

    method FadeOut(id: int, frames: int)
      requires Valid()
      modifies this, list
      ensures Valid() && comp == FadeOutStart(old(comp), id, frames)
    {
      var k := Get(id);
      if k < 0 || frames <= 0 { return; }
      FadeOutRec(k, frames);
    }

    method FadeOutRec(k: nat, frames: int)
      requires Valid() && k < COMP_MAX && list[k].Rec? && 0 < frames
      modifies this, list
      ensures Valid()
      ensures var s := old(comp).slots[k];
        comp == DmgSlot(SetSlot(old(comp), k, s.(anim := Anim.FadeOut(frames, frames))), s)
    {
      hide Hull, Clip;
      assert Linked(list[k], comp.slots[k]);
      RetouchAndDamage(k, list[k].x, list[k].y, list[k].visible, list[k].alpha, Anim.FadeOut(frames, frames));
    }

    /** comp_slide_in. */
    method SlideIn(id: int, x: int, y: int, frames: int)
      requires Valid() && Pos(x) && Pos(y)
      modifies this, list
      ensures Valid() && comp == SlideInStart(old(comp), id, x, y, frames)
    {
      var k := Get(id);
      if k < 0 || frames <= 0 { return; }
      SlideInRec(k, x, y, frames);
    }

    method SlideInRec(k: nat, x: int, y: int, frames: int)
      requires Valid() && k < COMP_MAX && list[k].Rec? && 0 < frames && Pos(x) && Pos(y)
      modifies this, list
      ensures Valid()
      ensures var s := old(comp).slots[k];
        var s' := s.(visible := true, x := x, y := y, alpha := 255, anim := Slide(frames, frames, x, y, s.x, s.y));
        comp == DmgSlot(SetSlot(DmgSlot(old(comp), s), k, s'), s')
    {
      hide SlotOk, Hull, Clip;
      assert Linked(list[k], comp.slots[k]);
      var s := list[k];
      SetVisibleRec(k, true);
      RetouchAndDamage(k, x, y, true, 255, Slide(frames, frames, x, y, s.x, s.y));
    }

    /** comp_set_bg. */
    method SetBg(color: Px)
      requires Valid()
      modifies this`bg, this`comp
      ensures Valid() && comp == Scene.SetBg(old(comp), color)
    {
      hide SlotOk, Linked, RecOk;
      bg := color;
      comp := Scene.SetBg(comp, color);
    }

    /** anim_tick. */
    method Tick(k: nat)
      requires Valid() && k < COMP_MAX && (list[k].Rec? ==> AnimFits(list[k].anim))
      modifies this, list
      ensures Valid() && comp == Scene.Tick(old(comp), k)
      ensures forall m | 0 <= m < COMP_MAX && m != k :: list[m] == old(list[m])
    {
      hide Slid, Later;
      assert Linked(list[k], comp.slots[k]);
      if list[k].Unused? || list[k].anim.Still? { return; }
      var s := list[k];
      if s.anim.left <= 0 {
        Retouch(k, s.x, s.y, s.visible, s.alpha, Still);
        return;
      }
      TickRec(k);
    }

    /** One frame of an animation that has frames left. */
    method TickRec(k: nat)
      requires Valid() && k < COMP_MAX && list[k].Rec? && AnimFits(list[k].anim)
      requires !list[k].anim.Still? && list[k].anim.left > 0
      requires comp.slots[k].Surf? && comp.slots[k].anim == list[k].anim && list[k].anim.total > 0
      modifies this, list
      ensures Valid()
      ensures var s := TickSlot(old(comp).slots[k]); s.Surf? && comp == DmgSlot(SetSlot(old(comp), k, s), s)
      ensures forall m | 0 <= m < COMP_MAX && m != k :: list[m] == old(list[m])
    {
      hide Slid, Later, Hull, Clip;
      assert Linked(list[k], comp.slots[k]);
      var s := list[k];
      TickSlotOk(comp.slots[k]);
      var remain, total := s.anim.left - 1, s.anim.total;
      LaterPos(s.anim, remain);
      var a, x, y := s.alpha, s.x, s.y;
      match s.anim {
        case FadeIn(_, _) =>
          a := 255 - (255 * remain) / total;
          if a > 255 { a := 255; }
        case FadeOut(_, _) =>
          a := (255 * remain) / total;
          if a < 0 { a := 0; }
        case Slide(_, _, fx, fy, tx, ty) =>
          SlidFits(fx, tx, total - remain, total);
          SlidFits(fy, ty, total - remain, total);
          x, y, a := Slid(fx, tx, total - remain, total), Slid(fy, ty, total - remain, total), 255;
      }
      if remain <= 0 {
        RetouchAndDamage(k, x, y, s.visible && !s.anim.FadeOut?, 255, Still);
      } else {
        RetouchAndDamage(k, x, y, s.visible, a, Later(s.anim, remain));
      }
    }

    method CursorShow(x: int, y: int)
      requires Valid() && Pos(x) && Pos(y)
      modifies this
      ensures Valid() && comp == Scene.CursorShow(old(comp), x, y)
    {
      hide Hull, Clip, Wf, SlotOk;
      CursorWf(comp, Cursor(true, x, y));
      cursorOn, cursorX, cursorY := true, x, y;
      comp := comp.(cursor := Cursor(true, x, y));
      DmgAdd(cursorX, cursorY, cursorX + CUR_SIZE + 1, cursorY + CUR_SIZE + 1);
    }

    method CursorHide()
      requires Valid()
      modifies this
      ensures Valid() && comp == Scene.CursorHide(old(comp))
    {
      if !cursorOn { return; }
      DmgAdd(cursorX, cursorY, cursorX + CUR_SIZE + 1, cursorY + CUR_SIZE + 1);
      cursorOn := false;
      comp := comp.(cursor := comp.cursor.(on := false));
    }

    method CursorMove(x: int, y: int)
      requires Valid() && Pos(x) && Pos(y)
      modifies this
      ensures Valid() && comp == Scene.CursorMove(old(comp), x, y)
    {
      if !cursorOn {
        CursorShow(x, y);
        return;
      }
      DmgAdd(cursorX, cursorY, cursorX + CUR_SIZE + 1, cursorY + CUR_SIZE + 1);
      CursorShow(x, y);
    }

    // ----- comp_raise ------------------------------------------------------------------

    /** Closes the gap left by record k; the last record becomes unused. */
    method TakeOut(k: nat)
      requires list.Length == COMP_MAX && k < COMP_MAX
      modifies list
      ensures list[..] == old(list[..k] + list[k + 1..]) + [Unused]
    {
      ghost var was := list[..];
      for i := k to COMP_MAX - 1
        invariant forall m :: 0 <= m < k ==> list[m] == was[m]
        invariant forall m :: k <= m < i ==> list[m] == was[m + 1]
        invariant forall m :: i <= m < COMP_MAX ==> list[m] == was[m]
      {
        list[i] := list[i + 1];
      }
      list[COMP_MAX - 1] := Unused;
    }

    /** Copies the used records, in order, to a fresh array. */
    method CollectUsed() returns (ordered: array<Rec>, n: nat)
      requires list.Length == COMP_MAX
      ensures fresh(ordered) && ordered.Length == COMP_MAX && n <= COMP_MAX
      ensures ordered[..n] == UsedRecs(list[..])
    {
      hide UsedRecs;
      ordered := new Rec[COMP_MAX](_ => Unused);
      n := 0;
      UsedNext(list[..], 0);
      for i := 0 to COMP_MAX
        invariant n <= i && ordered[..n] == UsedRecs(list[..i])
      {
        UsedNext(list[..], i);
        if list[i].Rec? {
          ordered[n] := list[i];
          assert ordered[..n + 1] == ordered[..n] + [list[i]];
          n := n + 1;
        }
      }
      assert list[..COMP_MAX] == list[..];
    }

    /** The list operations of comp_raise: take record k out, close the gaps,
        append it after the used records. */
    method Reorder(k: nat)
      requires list.Length == COMP_MAX && k < COMP_MAX && list[k].Rec?
      modifies list
      ensures list[..] == RaiseRecs(old(list[..]), k)
    {
      hide UsedRecs;
      ghost var was := list[..];
      var tmp := list[k];
      TakeOut(k);
      ghost var rest := was[..k] + was[k + 1..];
      ghost var used := UsedRecs(rest);
      UsedThenUnused(rest);
      var ordered, n := CollectUsed();
      assert ordered[..n] == used;
      ordered[n] := tmp;
      assert ordered[..n + 1] == used + [tmp];
      Store(ordered, n + 1);
    }

    /** The list becomes the first n of the ordered records, then unused ones. */
    method Store(ordered: array<Rec>, n: nat)
      requires list.Length == COMP_MAX == ordered.Length && n <= COMP_MAX && ordered != list
      modifies list
      ensures list[..] == ordered[..n] + seq(COMP_MAX - n, _ => Unused)
    {
      for i := 0 to COMP_MAX
        invariant forall m :: 0 <= m < i ==> list[m] == if m < n then ordered[m] else Unused
      {
        list[i] := if i < n then ordered[i] else Unused;
      }
    }

    lemma RaiseLinked(recs: seq<Rec>, k: nat)
      requires Valid() && recs == list[..] && k < COMP_MAX && list[k].Rec?
      ensures var r, s := RaiseRecs(recs, k), RaiseSlots(comp.slots, k);
        && |r| == COMP_MAX == |s| && DistinctBuffers(r)
        && forall m :: 0 <= m < COMP_MAX ==> (r[m].Rec? ==> RecOk(r[m])) && Linked(r[m], s[m])
    {
      hide UsedRecs, UsedOnly, SlotOk;
      var slots := comp.slots;
      var rr, ss := recs[..k] + recs[k + 1..], slots[..k] + slots[k + 1..];
      forall m | 0 <= m < |rr|
        ensures (rr[m].Rec? ==> RecOk(rr[m])) && Linked(rr[m], ss[m])
      {
        var p := if m < k then m else m + 1;
        assert rr[m] == list[p] && ss[m] == slots[p] && Linked(list[p], slots[p]);
      }
      UsedLinked(rr, ss);
      var used, uss := UsedRecs(rr), UsedOnly(ss);
      var r, s := RaiseRecs(recs, k), RaiseSlots(slots, k);
      assert Linked(recs[k], slots[k]);
      forall m | 0 <= m < COMP_MAX
        ensures (r[m].Rec? ==> RecOk(r[m])) && Linked(r[m], s[m])
      {
        if m < |used| { assert r[m] == used[m] && s[m] == uss[m]; }
      }
      RaisedApart(recs, k);
    }

    lemma RaisedApart(recs: seq<Rec>, k: nat)
      requires Shape() && recs == list[..] && k < COMP_MAX && list[k].Rec? && |RaiseRecs(recs, k)| == COMP_MAX
      ensures DistinctBuffers(RaiseRecs(recs, k))
    {
      hide UsedRecs;
      var rr := recs[..k] + recs[k + 1..];
      OthersApart(recs, k);
      UsedDistinct(rr);
      var used, r := UsedRecs(rr), RaiseRecs(recs, k);
      forall m, p | 0 <= m < p < COMP_MAX && r[m].Rec? && r[p].Rec?
        ensures r[m].g.pixels != r[p].g.pixels
      {
        assert r[m] == used[m] && used[m] in used;
        if p < |used| { assert r[p] == used[p]; }
      }
    }

    lemma OthersApart(recs: seq<Rec>, k: nat)
      requires Shape() && recs == list[..] && k < COMP_MAX && list[k].Rec?
      ensures var rr := recs[..k] + recs[k + 1..];
        DistinctBuffers(rr) && forall r :: r in rr && r.Rec? ==> r.g.pixels != recs[k].g.pixels
    {
      var rr := recs[..k] + recs[k + 1..];
      assert forall q | 0 <= q < |rr| :: rr[q] == list[if q < k then q else q + 1];
    }

    lemma {:induction false} UsedLinked(recs: seq<Rec>, slots: seq<Slot>)
      requires |recs| == |slots|
      requires forall m :: 0 <= m < |recs| ==> (recs[m].Rec? ==> RecOk(recs[m])) && Linked(recs[m], slots[m])
      ensures |UsedRecs(recs)| == |UsedOnly(slots)|
      ensures forall m :: 0 <= m < |UsedRecs(recs)| ==>
                UsedRecs(recs)[m].Rec? && RecOk(UsedRecs(recs)[m]) && Linked(UsedRecs(recs)[m], UsedOnly(slots)[m])
    {
      if recs != [] {
        var n := |recs| - 1;
        UsedLinked(recs[..n], slots[..n]);
        assert Linked(recs[n], slots[n]);
      }
    }

    method RaiseRec(k: nat)
      requires Valid() && k < COMP_MAX && list[k].Rec?
      modifies list, this`comp
      ensures Valid() && comp == old(comp).(slots := RaiseSlots(old(comp).slots, k))
    {
      hide RaiseSlots, SlotOk;
      ghost var r := RaiseRecs(list[..], k);
      RaiseLinked(list[..], k);
      assert comp.slots[k].Surf? by { assert Linked(list[k], comp.slots[k]); }
      RaiseWf(comp, k);
      Reorder(k);
      Install(r, RaiseSlots(comp.slots, k));
    }

    /** The table now holds r, whose slots are s. */
    ghost method Install(r: seq<Rec>, s: seq<Slot>)
      requires list.Length == COMP_MAX == |s| && list[..] == r && DistinctBuffers(r)
      requires forall m :: 0 <= m < COMP_MAX ==> (r[m].Rec? ==> RecOk(r[m])) && Linked(r[m], s[m])
      requires OverScreen() && FieldsLinked() && Wf(comp.(slots := s))
      modifies this`comp
      ensures Valid() && comp == old(comp).(slots := s)
    {
      assert forall m | 0 <= m < COMP_MAX :: list[m] == list[..][m] == r[m];
      comp := comp.(slots := s);
    }

    method Raise(id: int)
      requires Valid()
      modifies this, list
      ensures Valid() && comp == Scene.Raise(old(comp), id)
    {
      var k := Get(id);
      if k < 0 { return; }
      assert Linked(list[k], comp.slots[k]);
      RaiseTop(k, id);
    }

    method RaiseTop(k: nat, id: int)
      requires Valid() && k < COMP_MAX && list[k].Rec? && comp.slots[k].Surf? && comp.slots[k].id == id
      modifies this, list
      ensures Valid() && comp == DmgSlot(old(comp).(slots := RaiseSlots(old(comp).slots, k)), old(comp).slots[k])
    {
      hide RaiseSlots, Find, SlotOk, Hull, Clip;
      RaisedIsFound(comp, k, id);
      RaiseRec(k);
      var top := Get(id);
      DmgRec(top);
    }

    /** After the raise comp_damage_all finds the surface at its new index. */
    lemma RaisedIsFound(c: Comp, k: nat, id: int)
      requires Wf(c) && k < COMP_MAX && c.slots[k].Surf? && c.slots[k].id == id
      ensures var r := RaiseSlots(c.slots, k); Find(r, id) < COMP_MAX && r[Find(r, id)] == c.slots[k]
    {
      RaiseWf(c, k);
      var r := RaiseSlots(c.slots, k);
      var n := |UsedOnly(c.slots[..k] + c.slots[k + 1..])|;
      assert r[n] == c.slots[k];
      assert Wf(c.(slots := r));
    }

    // ----- comp_composite ----------------------------------------------------------------

    /** The copy path gfx_blit takes into the back buffer. */
    function Solid(): Mode {
      if view.stride == view.w then CopyWord else CopyRgb
    }

    /** One surface blitted through the box (x0, y0, x1, y1). */
    method PaintRec(k: nat, b: Box)
      requires Valid() && k < COMP_MAX && b.Dirty? && WellFormed(b, view.w, view.h)
      modifies view.pixels
      ensures Valid() && view.Img() == PaintLayer(old(view.Img()), comp.slots[k], b, Solid())
    {
      assert Linked(list[k], comp.slots[k]);
      var s := list[k];
      if s.Unused? || !s.visible { return; }
      var sx0, sy0, sw, sh := b.x0 - s.x, b.y0 - s.y, b.x1 - b.x0, b.y1 - b.y0;
      if s.alpha < 255 {
        Gfx.BlitAlpha(view, b.x0, b.y0, s.g, sx0, sy0, sw, sh, s.alpha);
      } else {
        Gfx.Blit(view, b.x0, b.y0, s.g, sx0, sy0, sw, sh);
      }
    }

    /** The surfaces, bottom to top. */
    method PaintRecs(b: Box)
      requires Valid() && b.Dirty? && WellFormed(b, view.w, view.h)
      modifies view.pixels
      ensures Valid() && view.Img() == PaintLayers(old(view.Img()), comp.slots, b, Solid())
    {
      ghost var img := view.Img();
      for i := 0 to COMP_MAX
        invariant Valid() && view.Img() == PaintLayers(img, comp.slots[..i], b, Solid())
      {
        PaintRec(i, b);
        assert comp.slots[..i + 1][..i] == comp.slots[..i];
      }
      assert comp.slots[..COMP_MAX] == comp.slots;
    }

    /** One row of the arrow with its corner at (x, y). */
    method PlotArrowRow(x: int, y: int, r: int, color: Px, ghost img: Image, ghost pts: set<Point>)
      requires view.Valid() && view.Img() == Stamp(img, pts, color)
      modifies view.pixels
      ensures view.Img() == Stamp(img, pts + ArrowRow(x, y, r, CUR_SIZE), color)
    {
      hide Stamp, Arrow;
      assert pts + ArrowRow(x, y, r, 0) == pts;
      for c := 0 to CUR_SIZE
        invariant view.Img() == Stamp(img, pts + ArrowRow(x, y, r, c), color)
      {
        if Arrow(r, c) {
          view.PutMore(x + c, y + r, color, img, pts + ArrowRow(x, y, r, c));
          assert pts + ArrowRow(x, y, r, c) + {(x + c, y + r)} == pts + ArrowRow(x, y, r, c + 1);
        } else {
          assert ArrowRow(x, y, r, c) == ArrowRow(x, y, r, c + 1);
        }
      }
    }

    /** One pass of cursor_draw: the arrow with its corner at (x, y). */
    method PlotArrow(x: int, y: int, color: Px)
      requires view.Valid()
      modifies view.pixels
      ensures view.Img() == Stamp(old(view.Img()), ArrowPts(x, y), color)
    {
      ghost var img := view.Img();
      assert ArrowRows(x, y, 0) == {};
      StampNothing(img, color);
      for r := 0 to CUR_SIZE
        invariant view.Img() == Stamp(img, ArrowRows(x, y, r), color)
      {
        PlotArrowRow(x, y, r, color, img, ArrowRows(x, y, r));
        assert ArrowRows(x, y, r) + ArrowRow(x, y, r, CUR_SIZE) == ArrowRows(x, y, r + 1);
      }
    }

    /** cursor_draw: first the shadow, then the white arrow. */
    method DrawCursor()
      requires Valid()
      modifies view.pixels
      ensures Valid() && view.Img() == PaintCursor(old(view.Img()), comp.cursor)
    {
      if cursorOn {
        PlotArrow(cursorX + 1, cursorY + 1, CursorBlack);
        PlotArrow(cursorX, cursorY, CursorWhite);
      }
    }

    /** The drawing half of comp_composite. */
    method PaintBack(b: Box)
      requires Valid() && b == comp.damage && b.Dirty?
      modifies view.pixels
      ensures Valid() && view.Img() == Repaint(comp, old(view.Img()), Solid())
    {
      Gfx.FillRect(view, b.x0, b.y0, b.x1 - b.x0, b.y1 - b.y0, bg);
      PaintRecs(b);
      DrawCursor();
    }

    /** The presenting half: both rectangles are damaged, then flipped. */
    method Present(b: Box)
      requires Valid() && fb.Valid() && b.Dirty? && WellFormed(b, view.w, view.h)
      modifies fb, fb.front
      ensures Valid() && fb.Valid() && fb.Dirt() == Clean
      ensures fb.Content(fb.back) == old(fb.Content(fb.back))
      ensures old(Framebuffer.InStep(fb.Content(fb.front), fb.Content(fb.back), Presented(fb.Dirt(), b)))
              ==> fb.Content(fb.front) == fb.Content(fb.back)
    {
      hide Hull, Clip, SlotOk, Framebuffer.InStep;
      fb.Damage(b.x0, b.y0, b.x1, b.y1);
      if cursorOn {
        fb.Damage(if cursorX < 0 then 0 else cursorX, if cursorY < 0 then 0 else cursorY,
                  (cursorX + CUR_SIZE + 1) % U32, (cursorY + CUR_SIZE + 1) % U32);
      }
      fb.Flip();
    }

    /** A framebuffer pixel is one cell of the surface over it. */
    lemma BackIsView(x: int, y: int)
      requires OverScreen() && 0 <= x < view.w && 0 <= y < view.h
      ensures fb.Content(fb.back)[y][x] == [view.Img()[y][x]]
    {
      assert fb.Index(x, y, 0) == view.Index(x, y);
    }

    /** Painting stays inside what Present is about to damage. */
    lemma PaintIsPresented(shown: Framebuffer.Cells<Px>, was: Framebuffer.Cells<Px>, img: Image, dirt: Box)
      requires Valid() && comp.damage.Dirty? && HasSize(img, view.w, view.h)
      requires |was| == view.h && forall j | 0 <= j < view.h :: |was[j]| == view.w
      requires forall x, y | 0 <= x < view.w && 0 <= y < view.h :: was[y][x] == [img[y][x]]
      requires view.Img() == Repaint(comp, img, Solid())
      requires Framebuffer.InStep(shown, was, dirt)
      ensures Framebuffer.InStep(shown, fb.Content(fb.back), Presented(dirt, comp.damage))
    {
      var now := fb.Content(fb.back);
      forall x, y | 0 <= x < view.w && 0 <= y < view.h && !In(Presented(dirt, comp.damage), x, y)
        ensures shown[y][x] == now[y][x]
      {
        BackIsView(x, y);
        PresentedCovers(dirt, comp.damage, x, y);
        assert Inside(img, x, y);
        RepaintTouches(comp, img, Solid(), x, y);
      }
    }

    lemma PresentedCovers(dirt: Box, b: Box, x: int, y: int)
      requires OverScreen() && b.Dirty? && Pos(cursorX) && Pos(cursorY)
      requires 0 <= x < view.w && 0 <= y < view.h && !In(Presented(dirt, b), x, y)
      ensures !In(dirt, x, y) && !In(b, x, y)
      ensures cursorOn ==> !In(Dirty(cursorX, cursorY, cursorX + CUR_SIZE + 1, cursorY + CUR_SIZE + 1), x, y)
    {
      if cursorOn {
        Wrapped(cursorX + CUR_SIZE + 1);
        Wrapped(cursorY + CUR_SIZE + 1);
      }
    }

    /** A small negative int cast to uint32_t lies far beyond the screen. */
    lemma Wrapped(v: int)
      requires -0x4000_0000 <= v <= 0x4000_0000
      ensures v % U32 == if v < 0 then v + U32 else v
    {
    }

    /** comp_composite past its early returns. */
    method PaintAndPresent(b: Box)
      requires Valid() && fb.Valid() && b == comp.damage && b.Dirty?
      modifies fb, fb.back, fb.front
      ensures Valid() && fb.Valid() && fb.Dirt() == Clean
      ensures view.Img() == Repaint(comp, old(view.Img()), Solid())
      ensures old(fb.Synced()) ==> fb.Content(fb.front) == fb.Content(fb.back)
    {
      ghost var img, was, shown, dirt := view.Img(), fb.Content(fb.back), fb.Content(fb.front), fb.Dirt();
      forall x, y | 0 <= x < view.w && 0 <= y < view.h
        ensures was[y][x] == [img[y][x]]
      {
        BackIsView(x, y);
      }
      PaintBack(b);
      if Framebuffer.InStep(shown, was, dirt) {
        PaintIsPresented(shown, was, img, dirt);
      }
      Present(b);
    }

    /** comp_composite.  With the GUI layer active and something damaged, the box
        is repainted and flipped: if back and front were in order before, both
        now show the whole scene. */
    method Composite(guiLayer: bool)
      requires Valid() && fb.Valid()
      modifies this, fb, fb.back, fb.front
      ensures Valid() && fb.Valid()
      ensures comp == if guiLayer then old(comp).(damage := Clean) else old(comp)
      ensures view.Img() == if guiLayer then Repaint(old(comp), old(view.Img()), Solid()) else old(view.Img())
      ensures old(fb.Synced()) ==> fb.Synced()
      ensures guiLayer && old(comp).damage.Dirty? && old(fb.Synced()) ==> fb.Content(fb.front) == fb.Content(fb.back)
      ensures guiLayer && old(Settled(comp, view.Img())) ==> ShowsScene(comp, view.Img())
    {
      hide Repaint, Settled, ShowsScene, SlotOk, Linked, RecOk;
      AfterRepaint(comp, view.Img(), Solid());
      if !dirty || !guiLayer { return; }
      PaintAndPresent(Dirty(gx0, gy0, gx1, gy1));
      DmgClear();
    }

    method DmgClear()
      requires Valid()
      modifies this`dirty, this`comp
      ensures Valid() && comp == old(comp).(damage := Clean)
    {
      hide SlotOk, Linked, RecOk;
      dirty := false;
      comp := comp.(damage := Clean);
    }

    /** A repainted buffer shows the scene, and nothing is damaged any more. */
    lemma AfterRepaint(c: Comp, back: Image, solid: Mode)
      requires Wf(c) && !solid.Blend?
      ensures Wf(c.(damage := Clean)) && (c.damage.Clean? ==> Repaint(c, back, solid) == back)
      ensures Settled(c, back) ==> ShowsScene(c.(damage := Clean), Repaint(c, back, solid))
    {
      hide PaintLayers, PaintCursor, ScenePx;
      SceneIgnoresDamage(c);
      if Settled(c, back) { RepaintShowsScene(c, back, solid); }
    }

    /** comp_full_repaint: with the GUI layer active the whole screen is repainted
        from scratch, otherwise it is left damaged for later. */
    method FullRepaint(guiLayer: bool)
      requires Valid() && fb.Valid()
      modifies this, fb, fb.back, fb.front
      ensures Valid() && fb.Valid()
      ensures guiLayer ==> comp.damage == Clean && (0 < view.w && 0 < view.h ==> ShowsScene(comp, view.Img()))
      ensures !guiLayer ==> comp == Dmg(old(comp), 0, 0, view.w, view.h) && view.Img() == old(view.Img())
    {
      DmgAdd(0, 0, view.w, view.h);
      Composite(guiLayer);
    }

    /** comp_anim_step's ticks; the composite follows when anything was animating. */
    method AnimStep(guiLayer: bool) returns (active: bool)
      requires Valid() && fb.Valid()
      requires forall k :: 0 <= k < COMP_MAX && list[k].Rec? ==> AnimFits(list[k].anim)
      modifies this, list, fb, fb.back, fb.front
      ensures Valid() && fb.Valid()
      ensures !old(Animating(comp)) ==> comp == old(comp) && !active
      ensures old(Animating(comp)) ==>
        comp == (if guiLayer then TickTo(old(comp), COMP_MAX).(damage := Clean) else TickTo(old(comp), COMP_MAX))
        && active == Animating(comp)
      ensures old(Animating(comp)) && guiLayer && old(Settled(comp, view.Img()) && Steady(comp)) ==>
                ShowsScene(comp, view.Img())
    {
      hide TickTo, SlotOk, Local, Settled, Steady, ShowsScene, Linked, RecOk, Framebuffer.InStep;
      active := AnimActive();
      if !active { return; }
      TickAll();
      if Settled(old(comp), view.Img()) && Steady(old(comp)) {
        TickToIsLocal(old(comp), COMP_MAX);
        LocalKeepsSettled(old(comp), comp, view.Img());
      }
      Composite(guiLayer);
      active := AnimActive();
    }

    /** comp_anim_active. */
    method AnimActive() returns (active: bool)
      requires Valid()
      ensures active == Animating(comp)
    {
      for i := 0 to COMP_MAX
        invariant forall m :: 0 <= m < i ==> comp.slots[m].Free? || comp.slots[m].anim.Still?
      {
        assert Linked(list[i], comp.slots[i]);
        if list[i].Rec? && !list[i].anim.Still? { return true; }
      }
      return false;
    }

    method TickAll()
      requires Valid()
      requires forall k :: 0 <= k < COMP_MAX && list[k].Rec? ==> AnimFits(list[k].anim)
      modifies this, list
      ensures Valid() && comp == TickTo(old(comp), COMP_MAX)
    {
      for i := 0 to COMP_MAX
        invariant Valid() && comp == TickTo(old(comp), i)
        invariant forall k :: i <= k < COMP_MAX && list[k].Rec? ==> AnimFits(list[k].anim)
      {
        Tick(i);
      }
    }

    /** The dirty box as Present leaves it before the flip. */
    ghost function Presented(dirt: Box, b: Box): Box
      requires b.Dirty?
      reads this
    {
      var d := Hull(dirt, Clip(b.x0, b.y0, b.x1, b.y1, fb.w, fb.h));
      if cursorOn then
        Hull(d, Clip(if cursorX < 0 then 0 else cursorX, if cursorY < 0 then 0 else cursorY,
                     (cursorX + CUR_SIZE + 1) % U32, (cursorY + CUR_SIZE + 1) % U32, fb.w, fb.h))
      else d
    }
  }

  /** A slide goes from and to positions of the usual range. */
  predicate AnimPos(a: Anim) {
    a.Slide? ==> Pos(a.fx) && Pos(a.fy) && Pos(a.tx) && Pos(a.ty)
  }

  /** The products of anim_tick are ints. */
  predicate AnimFits(a: Anim) {
    match a
    case Still => true
    case FadeIn(left, _) => Int32(255 * left)
    case FadeOut(left, _) => Int32(255 * left)
    case Slide(_, total, fx, fy, tx, ty) => Int32((tx - fx) * total) && Int32((ty - fy) * total)
  }

  lemma LaterPos(a: Anim, left: int)
    requires AnimPos(a)
    ensures AnimPos(Later(a, left)) && (a.Still? <==> Later(a, left).Still?)
    ensures !a.Still? ==> Later(a, left).left == left && Later(a, left).total == a.total
  {
  }

  /** A slide stays between its ends, and its product is an int. */
  lemma SlidFits(from: int, to: int, m: int, total: int)
    requires 0 <= m <= total && 0 < total && Pos(from) && Pos(to) && Int32((to - from) * total)
    ensures Pos(Slid(from, to, m, total)) && Int32((to - from) * m)
  {
    var d := to - from;
    if d >= 0 {
      QuotWithin(d, m, total);
    } else {
      QuotWithin(-d, m, total);
      assert -(d * m) == -d * m && -(d * total) == -d * total;
    }
  }

  lemma QuotWithin(d: int, m: int, total: int)
    requires 0 <= d && 0 <= m <= total && 0 < total
    ensures 0 <= d * m <= d * total && 0 <= d * m / total <= d
  {
    assert d * m >= 0;
    assert d * total - d * m == d * (total - m) && d * (total - m) >= 0;
    var q := d * m / total;
    MulGap(d, q, total);
    MulGap(q, 0, total);
  }

  function UsedRecs(recs: seq<Rec>): (r: seq<Rec>)
    ensures |r| <= |recs|
    ensures forall s :: s in r ==> s.Rec? && s in recs
  {
    if recs == [] then []
    else
      var n := |recs| - 1;
      UsedRecs(recs[..n]) + if recs[n].Rec? then [recs[n]] else []
  }

  lemma UsedNext(recs: seq<Rec>, i: nat)
    requires i < |recs|
    ensures UsedRecs(recs[..0]) == []
    ensures UsedRecs(recs[..i + 1]) == UsedRecs(recs[..i]) + if recs[i].Rec? then [recs[i]] else []
  {
    assert recs[..i + 1][..i] == recs[..i];
  }

  lemma UsedThenUnused(recs: seq<Rec>)
    ensures UsedRecs(recs + [Unused]) == UsedRecs(recs)
  {
    assert (recs + [Unused])[..|recs|] == recs;
    assert UsedRecs(recs) + [] == UsedRecs(recs);
  }

  function RaiseRecs(recs: seq<Rec>, k: nat): (r: seq<Rec>)
    requires k < |recs|
    ensures |r| == |recs|
  {
    var rest := UsedRecs(recs[..k] + recs[k + 1..]);
    rest + [recs[k]] + seq(|recs| - 1 - |rest|, _ => Unused)
  }

  predicate DistinctBuffers(recs: seq<Rec>) {
    forall m, p :: 0 <= m < p < |recs| && recs[m].Rec? && recs[p].Rec? ==> recs[m].g.pixels != recs[p].g.pixels
  }

  lemma {:induction false} UsedDistinct(recs: seq<Rec>)
    requires DistinctBuffers(recs)
    ensures DistinctBuffers(UsedRecs(recs))
  {
    if recs != [] {
      var n := |recs| - 1;
      UsedDistinct(recs[..n]);
      forall s | s in UsedRecs(recs[..n])
        ensures recs[n].Rec? ==> s.g.pixels != recs[n].g.pixels
      {
        var m :| 0 <= m < n && recs[m] == s;
      }
    }
  }
}

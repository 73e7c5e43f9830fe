// What the window manager's operations do to the windows they name, and what its frames
// look like: effects on single windows, dragging, and the picture of every visible frame
// over whole runs.

module Decoration {
  import opened Gfx
  import opened Damage
  import opened Scene
  import opened Windows
  import opened Pictures
  import opened Desktop
  import opened Words

  // ----- The windows ------------------------------------------------------------------------

  /** Window i is there as before, with the same record. */
  predicate Kept(s: Wm, s': Wm, i: int) {
    HasWin(s', i) == HasWin(s, i) && (HasWin(s, i) ==> WinOf(s', i) == WinOf(s, i))
  }

  predicate Has(s: Wm, id: int, w: Win) {
    HasWin(s, id) && WinOf(s, id) == w
  }

  lemma SetWinAt(s: Wm, s': Wm, id: int, w: Win, i: int)
    requires HasWin(s, id) && w.Win? && w.id == id && s'.wins == s.wins[FindWin(s.wins, id) := w]
    ensures Has(s', id, w) && (i != id ==> Kept(s, s', i))
  {
    var m, m' := FindWin(s.wins, i), FindWin(s'.wins, i);
    var k, k' := FindWin(s.wins, id), FindWin(s'.wins, id);
    assert s'.wins[k].id == id;
    if i != id && m < |s.wins| { assert s'.wins[m] == s.wins[m]; }
    if i != id && m' < |s.wins| { assert s'.wins[m'] == s.wins[m']; }
  }

  /** wm_move puts the window where it is told and leaves the others. */
  lemma MoveShows(s: Wm, id: int, x: int, y: int, i: int)
    ensures HasWin(s, id) ==> Has(MoveWin(s, id, x, y), id, WinOf(s, id).(x := x, y := y))
    ensures i != id ==> Kept(s, MoveWin(s, id, x, y), i)
    ensures MoveWin(s, id, x, y) == s.(wins := MoveWin(s, id, x, y).wins, comp := MoveWin(s, id, x, y).comp)
  {
    if HasWin(s, id) { SetWinAt(s, MoveWin(s, id, x, y), id, WinOf(s, id).(x := x, y := y), i); }
  }

  /** wm_focus changes no record; the focus goes to a window that is there and not minimized. */
  lemma FocusShows(s: Wm, id: int)
    requires FontOk(s.look.font)
    ensures Windows.Focus(s, id) ==
            s.(comp := Windows.Focus(s, id).comp,
               focus := if HasWin(s, id) && !WinOf(s, id).minimized then id else s.focus)
  {
  }

  /** A window that is minimized is hidden and has not the focus. */
  lemma MinimizeShows(s: Wm, id: int, i: int)
    requires Inv(s)
    ensures HasWin(s, id) ==> Has(Minimize(s, id), id, WinOf(s, id).(minimized := true))
    ensures i != id ==> Kept(s, Minimize(s, id), i)
    ensures Minimize(s, id).focus == (if s.focus == id then -1 else s.focus)
    ensures var s' := Minimize(s, id); s' == s.(wins := s'.wins, comp := s'.comp, focus := s'.focus)
  {
    hide Inv, Scene.SetVisible;
    InvFocus(s);
    if HasWin(s, id) && !WinOf(s, id).minimized {
      SetWinAt(s, Minimize(s, id), id, WinOf(s, id).(minimized := true), i);
    } else if HasWin(s, id) {
      assert WinOf(s, id) == WinOf(s, id).(minimized := true);
    }
  }

  /** What the invariant says of the single fields. */
  lemma InvFocus(s: Wm)
    requires Inv(s)
    ensures |s.wins| == WM_MAX && Wf(s.comp) && FontOk(s.look.font) && 0 < s.nextId && 0 < s.comp.nextId
    ensures s.focus == -1 || (HasWin(s, s.focus) && !WinOf(s, s.focus).minimized)
    ensures forall id :: HasWin(s, id) ==> 0 < id < s.nextId
  {
    hide WinOk, Disjoint;
  }

  /** Restoring shows it again and gives it the focus. */
  lemma RestoreShows(s: Wm, id: int, i: int)
    requires Inv(s)
    ensures HasWin(s, id) ==> Has(Restore(s, id), id, WinOf(s, id).(minimized := false))
    ensures i != id ==> Kept(s, Restore(s, id), i)
    ensures Restore(s, id).focus == (if HasWin(s, id) && WinOf(s, id).minimized then id else s.focus)
    ensures var s' := Restore(s, id); s' == s.(wins := s'.wins, comp := s'.comp, focus := s'.focus)
  {
    hide Inv, Scene.SetVisible, Windows.Focus;
    InvFocus(s);
    if HasWin(s, id) && WinOf(s, id).minimized {
      SetWinAt(s, Shown(s, id), id, WinOf(s, id).(minimized := false), i);
      FocusShows(Shown(s, id), id);
    } else if HasWin(s, id) {
      assert WinOf(s, id) == WinOf(s, id).(minimized := false);
    }
  }

  /** A destroyed window is gone, and so are its focus and its drag. */
  lemma DestroyShows(s: Wm, id: int, i: int)
    requires Inv(s)
    ensures !HasWin(DestroyWin(s, id), id) && (i != id ==> Kept(s, DestroyWin(s, id), i))
    ensures DestroyWin(s, id).drag == (if HasWin(s, id) && s.drag == id then -1 else s.drag)
    ensures DestroyWin(s, id).focus == (if s.focus == id then -1 else s.focus)
    ensures var s' := DestroyWin(s, id); s' == s.(wins := s'.wins, comp := s'.comp, focus := s'.focus, drag := s'.drag)
  {
    hide WinOk, Scene.Destroy, Wf;
    var s' := DestroyWin(s, id);
    if HasWin(s, id) {
      var k := FindWin(s.wins, id);
      var m, m', n := FindWin(s.wins, i), FindWin(s'.wins, i), FindWin(s'.wins, id);
      if i != id && m < |s.wins| { assert s'.wins[m] == s.wins[m]; }
      if i != id && m' < |s.wins| { assert s'.wins[m'] == s.wins[m']; }
    }
  }

  /** wm_create: the new window has a new id, is at the top left corner, unfocused, and has
      the first 23 characters of the title; failing, it changes no window. */
  lemma CreateShows(s: Wm, title: seq<byte>, w: int, h: int, bg: Px, memF: bool, memC: bool, i: int)
    requires Inv(s)
    ensures var (s', id) := CreateWin(s, title, w, h, bg, memF, memC);
      && (id >= 0 ==>
            && id == s.nextId && !HasWin(s, id) && HasWin(s', id) && (i != id ==> Kept(s, s', i))
            && WinOf(s', id).(frame := 0, client := 0)
               == Win(id, 0, 0, 0, 0, w, h, false, bg, if |title| > 23 then title[..23] else title))
      && (id < 0 ==> id == -1 && s'.wins == s.wins)
      && s' == s.(wins := s'.wins, nextId := s'.nextId, comp := s'.comp)
  {
    hide Scene.Create, Scene.Destroy, Scene.Move, Scene.Fill, DrawFrame, Inv;
    InvFocus(s);
    var (s', id) := CreateWin(s, title, w, h, bg, memF, memC);
    var k := FreeWin(s.wins);
    if id >= 0 {
      var m, m', n := FindWin(s.wins, i), FindWin(s'.wins, i), FindWin(s'.wins, id);
      assert s'.wins[k].Win? && s'.wins[k].id == id;
      if i != id && m < |s.wins| { assert s'.wins[m] == s.wins[m]; }
      if i != id && m' < |s.wins| { assert s'.wins[m'] == s.wins[m']; }
    }
  }

  /** It succeeds exactly with a size that leaves room for a client and is within the
      compositor's limits, a free window, two free surfaces and memory for both. */
  lemma CreateSucceeds(s: Wm, title: seq<byte>, w: int, h: int, bg: Px, memF: bool, memC: bool)
    requires Inv(s)
    ensures CreateWin(s, title, w, h, bg, memF, memC).1 >= 0 <==>
            && 15 < w <= 1024 && 15 < h <= 1024 && w * h <= 262_144 && memF && memC
            && (exists k :: 0 <= k < WM_MAX && s.wins[k].NoWin?)
            && exists a, b :: 0 <= a < b < COMP_MAX && s.comp.slots[a].Free? && s.comp.slots[b].Free?
  {
    hide WinOk, Disjoint, Scene.Destroy, Scene.Move, Scene.Fill, DrawFrame, Hull, Clip, Blank;
    var k := FreeWin(s.wins);
    if TITLE_H + 4 < w <= DIM_MAX && TITLE_H + 4 < h <= DIM_MAX && w * h <= AREA_MAX {
      AreaShrinks(w, h);
      var c1 := Scene.Create(s.comp, w, h, memF).0;
      var a := FirstFree(s.comp.slots);
      var b := FirstFree(c1.slots);
      if memF && a < COMP_MAX {
        assert c1.slots == s.comp.slots[a := c1.slots[a]];
        if b < COMP_MAX { assert s.comp.slots[b].Free? && a < b; }
        if m, n :| 0 <= m < n < COMP_MAX && s.comp.slots[m].Free? && s.comp.slots[n].Free? {
          assert c1.slots[n].Free?;
        }
      }
    }
  }

  /** wm_resize: both sizes change, or, failing, no window. */
  lemma ResizeShows(s: Wm, id: int, w: int, h: int, memF: bool, memC: bool, i: int)
    requires FontOk(s.look.font)
    ensures var (s', r) := ResizeWin(s, id, w, h, memF, memC);
      && (r == 0 ==>
            && HasWin(s, id) && Has(s', id, WinOf(s, id).(w := w, h := h)) && (i != id ==> Kept(s, s', i)))
      && (r != 0 ==> r == -1 && s'.wins == s.wins)
      && s' == s.(wins := s'.wins, comp := s'.comp)
  {
    hide Scene.Resize, Scene.Move, DrawFrame;
    var (s', r) := ResizeWin(s, id, w, h, memF, memC);
    if r == 0 { SetWinAt(s, s', id, WinOf(s, id).(w := w, h := h), i); }
  }

  // ----- Dragging ------------------------------------------------------------------------------

  /** wm_drag_to for each place the pointer comes to. */
  function DragAlong(s: Wm, path: seq<(int, int)>): Wm {
    if path == [] then s
    else
      var (x, y) := path[|path| - 1];
      DragTo(DragAlong(s, path[..|path| - 1]), x, y)
  }

  /** Where the pointer is then. */
  function PointerAt(x: int, y: int, path: seq<(int, int)>): (int, int) {
    if path == [] then (x, y) else path[|path| - 1]
  }

  /** A drag moves the window it took by what the pointer moved, over any path, gives it the
      focus, and moves no other window. */
  lemma {:induction false} DragFollows(s: Wm, id: int, x: int, y: int, path: seq<(int, int)>, i: int)
    requires Inv(s) && HasWin(s, id) && !WinOf(s, id).minimized
    ensures var s' := DragAlong(DragStart(s, id, x, y), path);
      var (px, py) := PointerAt(x, y, path);
      && Has(s', id, WinOf(s, id).(x := WinOf(s, id).x + px - x, y := WinOf(s, id).y + py - y))
      && (i != id ==> Kept(s, s', i)) && s'.focus == id
      && s' == DragStart(s, id, x, y).(wins := s'.wins, comp := s'.comp) && s'.drag == id
  {
    hide Inv, MoveWin, Windows.Focus;
    InvFocus(s);
    var w := WinOf(s, id);
    var d := DragStart(s, id, x, y);
    FocusShows(Grab(s, id, x - w.x, y - w.y), id);
    if path == [] {
      assert w.(x := w.x + x - x, y := w.y + y - y) == w;
    } else {
      DragFollows(s, id, x, y, path[..|path| - 1], i);
      var before := DragAlong(d, path[..|path| - 1]);
      var (px, py) := path[|path| - 1];
      MoveShows(before, id, px - d.dragDx, py - d.dragDy, i);
    }
  }

  /** Without a drag, or once its window is destroyed or the drag has ended, pointer motions
      do nothing. */
  lemma {:induction false} DragOver(s: Wm, path: seq<(int, int)>)
    requires s.drag == -1
    ensures DragAlong(s, path) == s
  {
    if path != [] { DragOver(s, path[..|path| - 1]); }
  }

  lemma DragEnds(s: Wm, id: int, x: int, y: int)
    requires Inv(s)
    ensures DragEnd(s).drag == -1
    ensures s.drag == id && HasWin(s, id) ==> DestroyWin(s, id).drag == -1
    ensures !HasWin(s, id) || WinOf(s, id).minimized ==>
              DragStart(s, id, x, y).drag == -1 && DragStart(s, id, x, y).wins == s.wins
  {
  }

  // ----- Pictures that stay ------------------------------------------------------------------------

  /** Surface i keeps its size and its pixels. */
  predicate PicKept(c: Comp, c': Comp, i: int) {
    Known(c, i) ==> Known(c', i) && SamePic(SurfaceOf(c, i), SurfaceOf(c', i))
  }

  predicate SamePic(s: Slot, t: Slot)
    requires s.Surf? && t.Surf?
  {
    s.w == t.w && s.h == t.h && s.img == t.img
  }

  /** The call changes the picture of surface i, or takes it away. */
  predicate Touches(op: Op, i: int) {
    Targets(op, i) && (Draws(op) || op.OpPaint? || op.OpResize? || op.OpDestroy?)
  }

  lemma SetPic(c: Comp, c': Comp, k: nat, i: int)
    requires Wf(c) && k < |c.slots| && |c'.slots| == |c.slots| && c'.slots == c.slots[k := c'.slots[k]]
    requires c.slots[k].Surf? && c'.slots[k].Surf? && c'.slots[k].id == c.slots[k].id
    requires c.slots[k].id == i ==> SamePic(c.slots[k], c'.slots[k])
    ensures PicKept(c, c', i)
  {
    FindInLayout(c.slots, c'.slots, i);
  }

  predicate OneSlot(op: Op) {
    && !op.OpCreate? && !op.OpDestroy? && !op.OpRaise? && !op.OpSetBg? && !op.OpAnimTicks?
    && !op.OpCursorShow? && !op.OpCursorMove? && !op.OpCursorHide? && !op.OpComposite?
  }

  lemma OneSlotPic(c: Comp, op: Op, i: int)
    requires Wf(c) && OpOk(op) && OneSlot(op) && !Touches(op, i)
    ensures PicKept(c, Change(c, op), i)
  {
    hide Wf, Stamp, Clip, Hull, Compose;
    if Known(c, op.id) && Change(c, op).slots != c.slots { SetPic(c, Change(c, op), Find(c.slots, op.id), i); }
  }

  lemma CreatePic(c: Comp, w: nat, h: nat, mem: bool, i: int)
    requires Wf(c)
    ensures PicKept(c, Scene.Create(c, w, h, mem).0, i)
  {
    hide Clip, Hull, Blank;
    var c' := Scene.Create(c, w, h, mem).0;
    var k := FirstFree(c.slots);
    if c' != c && Known(c, i) {
      assert c.slots[Find(c.slots, i)].id < c.nextId;
      NewSlotFind(c.slots, k, c'.slots[k], i);
    }
  }

  lemma DestroyPic(c: Comp, id: int, i: int)
    requires Wf(c) && id != i
    ensures PicKept(c, Scene.Destroy(c, id), i)
  {
    hide Clip, Hull;
    if Known(c, id) && Known(c, i) { NewSlotFind(c.slots, Find(c.slots, id), Free, i); }
  }

  lemma RaisePic(c: Comp, id: int, i: int)
    requires Wf(c)
    ensures PicKept(c, Scene.Raise(c, id), i)
  {
    hide Clip, Hull, RaiseSlots, UsedOnly, Without;
    if Known(c, id) && Known(c, i) {
      var k := Find(c.slots, id);
      RaisedDistinct(c.slots, k);
      if i == id {
        FoundAt(RaiseSlots(c.slots, k), |UsedOnly(Without(c.slots, k))|);
      } else {
        RaisedPlace(c.slots, k, Find(c.slots, i));
      }
    }
  }

  lemma TickPic(c: Comp, k: nat, i: int)
    requires Wf(c) && k < COMP_MAX
    ensures PicKept(c, Scene.Tick(c, k), i)
  {
    hide Clip, Hull;
    var s := c.slots[k];
    if s.Surf? && !s.anim.Still? { SetPic(c, Scene.Tick(c, k), k, i); }
  }

  lemma {:induction false} TicksPic(c: Comp, n: nat, i: int)
    requires Wf(c) && n <= COMP_MAX
    ensures PicKept(c, TickTo(c, n), i)
  {
    hide Wf, Scene.Tick, Known;
    if n > 0 {
      TicksPic(c, n - 1, i);
      TickPic(TickTo(c, n - 1), n - 1, i);
    }
  }

  lemma OnePic(c: Comp, op: Op, i: int)
    requires Wf(c) && OpOk(op) && !Touches(op, i)
    ensures PicKept(c, One(c, op), i)
  {
    hide Wf, Touches;
    if OneSlot(op) {
      OneSlotPic(c, op, i);
    } else if op.OpCreate? {
      var OpCreate(w, h, mem) := op;
      CreatePic(c, w, h, mem, i);
    } else if op.OpDestroy? {
      TouchesGone(op.id);
      DestroyPic(c, op.id, i);
    } else if op.OpRaise? {
      RaisePic(c, op.id, i);
    } else if op.OpAnimTicks? {
      TicksPic(c, COMP_MAX, i);
    }
  }

  lemma TouchesGone(id: int)
    ensures Touches(OpDestroy(id), id)
  {
  }

  predicate NoneTouches(ops: seq<Op>, i: int) {
    forall op :: op in ops ==> !Touches(op, i)
  }

  /** Calls that do not touch a surface leave its picture. */
  lemma {:induction false} AfterPic(c: Comp, ops: seq<Op>, i: int)
    requires Wf(c) && (forall op :: op in ops ==> OpOk(op)) && NoneTouches(ops, i)
    ensures PicKept(c, After(c, ops), i)
  {
    hide Wf, One, Known, Touches, OpOk;
    if ops != [] {
      var n := |ops| - 1;
      AfterPic(c, ops[..n], i);
      assert ops[n] in ops;
      OnePic(After(c, ops[..n]), ops[n], i);
    }
  }

  // ----- What a frame looks like ---------------------------------------------------------------------

  /** Column i, row j of a window's frame: the title, in the title bar of ten rows, in a
      border of one pixel around the background. */
  function FramePx(w: Win, focused: bool, look: Look, i: int, j: int): Px
    requires w.Win? && FontOk(look.font)
  {
    if OnText(look.font, w.title, i - 3, j - 2) then look.titleFg
    else if 1 <= i < w.w - 1 && 1 <= j <= 10 then if focused then look.titleFocus else look.titleUnfocus
    else if i == 0 || j == 0 || i == w.w - 1 || j == w.h - 1 then look.border
    else w.bg
  }

  /** The frame has the window's size and looks like that. */
  ghost predicate Shows(c: Comp, w: Win, focused: bool, look: Look)
    requires Wf(c) && w.Win? && FontOk(look.font)
  {
    && Known(c, w.frame) && SurfaceOf(c, w.frame).w == w.w && SurfaceOf(c, w.frame).h == w.h
    && forall i, j :: HasPixel(c, w.frame, i, j) ==> PixelOf(c, w.frame, i, j) == FramePx(w, focused, look, i, j)
  }

  lemma PicShows(c: Comp, c': Comp, w: Win, focused: bool, look: Look)
    requires Wf(c) && Wf(c') && w.Win? && FontOk(look.font) && PicKept(c, c', w.frame) && Shows(c, w, focused, look)
    ensures Shows(c', w, focused, look)
  {
    hide Wf;
    forall i, j | HasPixel(c', w.frame, i, j)
      ensures PixelOf(c', w.frame, i, j) == FramePx(w, focused, look, i, j)
    {
      assert HasPixel(c, w.frame, i, j);
      assert PixelOf(c', w.frame, i, j) == PixelOf(c, w.frame, i, j);
    }
  }

  /** wm_draw_frame makes it so. */
  lemma DrawFrameShows(c: Comp, w: Win, focused: bool, look: Look)
    requires Wf(c) && w.Win? && FontOk(look.font)
    requires Known(c, w.frame) && SurfaceOf(c, w.frame).w == w.w && SurfaceOf(c, w.frame).h == w.h
    ensures Wf(DrawFrame(c, w, focused, look)) && Shows(DrawFrame(c, w, focused, look), w, focused, look)
  {
    hide Wf, OnText, Find, Scene.Fill, Scene.FillRect, Scene.Outline, Scene.Text;
    var f := w.frame;
    var bar := if focused then look.titleFocus else look.titleUnfocus;
    var c1 := Scene.Fill(c, f, w.bg);
    FillShows(c, f, w.bg);
    var c2 := Scene.Outline(c1, f, 0, 0, w.w, w.h, look.border);
    OutlineShows(c1, f, 0, 0, w.w, w.h, look.border);
    var c3 := Scene.FillRect(c2, f, 1, 1, w.w - 2, TITLE_H - 1, bar);
    FillRectShows(c2, f, 1, 1, w.w - 2, TITLE_H - 1, bar);
    var c4 := Scene.Text(c3, look.font, f, 3, 2, w.title, look.titleFg);
    TextShows(c3, look.font, f, 3, 2, w.title, look.titleFg);
    FrameSteps(c, w, focused, look);
    forall i, j | HasPixel(c4, f, i, j)
      ensures PixelOf(c4, f, i, j) == FramePx(w, focused, look, i, j)
    {
      assert HasPixel(c3, f, i, j) && HasPixel(c2, f, i, j) && HasPixel(c1, f, i, j);
    }
  }

  lemma FrameSteps(c: Comp, w: Win, focused: bool, look: Look)
    requires w.Win? && FontOk(look.font)
    ensures var bar := if focused then look.titleFocus else look.titleUnfocus;
      var c2 := Scene.Outline(Scene.Fill(c, w.frame, w.bg), w.frame, 0, 0, w.w, w.h, look.border);
      var c3 := Scene.FillRect(c2, w.frame, 1, 1, w.w - 2, TITLE_H - 1, bar);
      DrawFrame(c, w, focused, look) == Scene.Text(c3, look.font, w.frame, 3, 2, w.title, look.titleFg)
  {
    hide Scene.Fill, Scene.FillRect, Scene.Outline, Scene.Text;
    var ops := FrameOps(w, focused, look);
    assert ops[..3][..2] == ops[..2] && ops[..3][..2][..1] == ops[..1] && ops[..1][..0] == [];
    assert DrawAll(c, ops[..1]) == DrawOne(c, ops[0]);
    assert DrawAll(c, ops[..2]) == DrawOne(DrawAll(c, ops[..1]), ops[1]);
    assert DrawAll(c, ops[..3]) == DrawOne(DrawAll(c, ops[..2]), ops[2]);
  }

  /** Drawn last, a window in order shows its frame. */
  lemma LastDrawn(c: Comp, w: Win, focused: bool, look: Look)
    requires Wf(c) && w.Win? && FontOk(look.font) && WinOk(DrawFrame(c, w, focused, look), w)
    ensures Wf(DrawFrame(c, w, focused, look)) && Shows(DrawFrame(c, w, focused, look), w, focused, look)
  {
    hide Wf, DrawFrame;
    DrawFrameLayout(c, w, focused, look);
    LayoutKept(c, DrawFrame(c, w, focused, look), w.frame);
    DrawFrameShows(c, w, focused, look);
  }

  lemma DrawFramePic(c: Comp, w: Win, focused: bool, look: Look, i: int)
    requires Wf(c) && w.Win? && FontOk(look.font) && w.frame != i
    ensures Wf(DrawFrame(c, w, focused, look)) && PicKept(c, DrawFrame(c, w, focused, look), i)
  {
    hide Wf, After, DrawFrame, FrameOps;
    FrameIsAfter(c, w, focused, look);
    FrameTouches(w, focused, look, i);
    AfterPic(c, FrameOps(w, focused, look), i);
  }

  lemma FrameTouches(w: Win, focused: bool, look: Look, i: int)
    requires w.Win? && FontOk(look.font) && w.frame != i
    ensures NoneTouches(FrameOps(w, focused, look), i)
  {
    forall op | op in FrameOps(w, focused, look)
      ensures !Touches(op, i)
    {
      assert Draws(op) && op.id == w.frame;
    }
  }

  // ----- Every frame, over whole runs -----------------------------------------------------------------

  /** Window k, unless it is minimized, shows its frame, the title bar in the focus's colour
      exactly if it has the focus. */
  ghost predicate FrameOk(s: Wm, k: int)
    requires Inv(s) && 0 <= k < WM_MAX
  {
    s.wins[k].Win? && !s.wins[k].minimized ==> Shows(s.comp, s.wins[k], s.wins[k].id == s.focus, s.look)
  }

  ghost predicate Decorated(s: Wm)
    requires Inv(s)
  {
    forall k :: 0 <= k < WM_MAX ==> FrameOk(s, k)
  }

  predicate SameFrame(v: Win, w: Win) {
    v.Win? && w.Win? && w == v.(x := w.x, y := w.y, minimized := w.minimized) && (v.minimized ==> w.minimized)
  }

  /** A window whose frame no call touches. */
  lemma StaysOk(s: Wm, op: WmOp, k: nat)
    requires Inv(s) && Allowed(s, op) && Inv(Apply(s, op)) && k < WM_MAX && FrameOk(s, k)
    requires var s' := Apply(s, op);
      && SameFrame(s.wins[k], s'.wins[k]) && s'.look == s.look && NoneTouches(Calls(s, op), s.wins[k].frame)
      && (!s'.wins[k].minimized ==> (s.wins[k].id == s'.focus <==> s.wins[k].id == s.focus))
    ensures FrameOk(Apply(s, op), k)
  {
    hide Wf, WinOk, Disjoint, Apply, Calls, After, OpOk, NoneTouches;
    var w, w' := s.wins[k], Apply(s, op).wins[k];
    if !w'.minimized {
      ApplyIsCalls(s, op);
      AfterPic(s.comp, Calls(s, op), w.frame);
      PicShows(s.comp, Apply(s, op).comp, w, w.id == s.focus, s.look);
      ShowsSame(Apply(s, op).comp, w, w', w.id == s.focus, s.look);
    }
  }

  lemma ShowsSame(c: Comp, v: Win, w: Win, focused: bool, look: Look)
    requires Wf(c) && SameFrame(v, w) && FontOk(look.font) && Shows(c, v, focused, look)
    ensures Shows(c, w, focused, look)
  {
    hide Wf, OnText;
    forall i, j | HasPixel(c, w.frame, i, j)
      ensures PixelOf(c, w.frame, i, j) == FramePx(w, focused, look, i, j)
    {
      assert FramePx(v, focused, look, i, j) == FramePx(w, focused, look, i, j);
    }
  }

  /** wm_focus, all other windows being drawn as they should. */
  lemma FocusDecorates(s: Wm, id: int)
    requires Inv(s) && HasWin(s, id) && !WinOf(s, id).minimized && s.focus != id
    requires forall k :: 0 <= k < WM_MAX && s.wins[k].Win? && s.wins[k].id != id ==> FrameOk(s, k)
    ensures Inv(Windows.Focus(s, id)) && Decorated(Windows.Focus(s, id))
  {
    hide Wf, WinOk, Disjoint, Scene.Raise, DrawFrame, FrameOk, Windows.Focus;
    FocusKeepsInv(s, id);
    var s' := Windows.Focus(s, id);
    forall k | 0 <= k < WM_MAX
      ensures FrameOk(s', k)
    {
      FocusFrame(s, id, k);
    }
  }

  lemma FocusFrame(s: Wm, id: int, k: nat)
    requires Inv(s) && HasWin(s, id) && !WinOf(s, id).minimized && s.focus != id && k < WM_MAX
    requires s.wins[k].Win? && s.wins[k].id != id ==> FrameOk(s, k)
    requires Inv(Windows.Focus(s, id)) && Windows.Focus(s, id).wins == s.wins
    ensures FrameOk(Windows.Focus(s, id), k)
  {
    hide Wf, Scene.Raise, DrawFrame, Shows, PicKept, Known, FindWin;
    var w, v := WinOf(s, id), s.wins[k];
    if v.Win? && !v.minimized {
      Unminimized(s, id, k);
      var c1 := if HasWin(s, s.focus) then DrawFrame(s.comp, WinOf(s, s.focus), false, s.look) else s.comp;
      FadeOld(s, k);
      var c2 := Scene.Raise(c1, w.frame);
      RaiseWf(c1, w.frame);
      var c3 := Scene.Raise(c2, w.client);
      RaiseWf(c2, w.client);
      if v.id == id {
        LastDrawn(c3, w, true, s.look);
      } else {
        RaisePic(c1, w.frame, v.frame);
        PicShows(c1, c2, v, false, s.look);
        RaisePic(c2, w.client, v.frame);
        PicShows(c2, c3, v, false, s.look);
        DrawFramePic(c3, w, true, s.look, v.frame);
        PicShows(c3, DrawFrame(c3, w, true, s.look), v, false, s.look);
      }
    }
  }

  lemma RaiseWf(c: Comp, id: int)
    requires Wf(c)
    ensures Wf(Scene.Raise(c, id))
  {
    RaiseIsLocal(c, id);
  }

  /** Windows by index and by id. */
  lemma Unminimized(s: Wm, id: int, k: nat)
    requires Inv(s) && HasWin(s, id) && k < WM_MAX && s.wins[k].Win?
    ensures s.wins[k].id == id ==> s.wins[k] == WinOf(s, id)
    ensures s.wins[k].id != id ==> Disjoint(s.wins[k], WinOf(s, id))
  {
    hide WinOk, Wf;
    var j := FindWin(s.wins, id);
    assert j != k ==> Disjoint(s.wins[k], s.wins[j]) || Disjoint(s.wins[j], s.wins[k]);
  }

  /** The old focus's title bar is redrawn first; then no frame shows the focus. */
  lemma FadeOld(s: Wm, k: nat)
    requires Inv(s) && k < WM_MAX && s.wins[k].Win? && !s.wins[k].minimized
    ensures var c := if HasWin(s, s.focus) then DrawFrame(s.comp, WinOf(s, s.focus), false, s.look) else s.comp;
      Wf(c) && (FrameOk(s, k) ==> Shows(c, s.wins[k], false, s.look))
  {
    hide Wf, DrawFrame, Shows, FindWin;
    var v := s.wins[k];
    if HasWin(s, s.focus) {
      var top := WinOf(s, s.focus);
      DrawFrameKeepsInv(s, top, false);
      Unminimized(s, s.focus, k);
      if v.id == s.focus {
        LastDrawn(s.comp, top, false, s.look);
      } else {
        DrawFramePic(s.comp, top, false, s.look, v.frame);
        if FrameOk(s, k) { PicShows(s.comp, DrawFrame(s.comp, top, false, s.look), v, false, s.look); }
      }
    } else {
      NoFocus(s, k);
    }
  }

  lemma NoFocus(s: Wm, k: nat)
    requires Inv(s) && k < WM_MAX && s.wins[k].Win? && !HasWin(s, s.focus)
    ensures s.wins[k].id != s.focus
  {
    hide WinOk, Wf, Disjoint;
  }

  // ----- Each operation ----------------------------------------------------------------------------------

  /** Nobody but the window manager draws on a frame. */
  predicate HandsOff(s: Wm, op: WmOp) {
    op.DoOther? ==> forall k :: 0 <= k < |s.wins| && s.wins[k].Win? ==> !Touches(op.op, s.wins[k].frame)
  }

  /** Only the compositor changes, and no frame's picture. */
  lemma UntouchedDecorated(s: Wm, op: WmOp)
    requires Inv(s) && Decorated(s) && Allowed(s, op) && Inv(Apply(s, op))
    requires var s' := Apply(s, op); s'.look == s.look
    requires forall k :: 0 <= k < WM_MAX && Apply(s, op).wins[k].Win? ==>
               && SameFrame(s.wins[k], Apply(s, op).wins[k]) && NoneTouches(Calls(s, op), s.wins[k].frame)
                  && (!Apply(s, op).wins[k].minimized ==>
                        (s.wins[k].id == Apply(s, op).focus <==> s.wins[k].id == s.focus))
    ensures Decorated(Apply(s, op))
  {
    hide Wf, WinOk, Disjoint, Apply, Calls, NoneTouches, SameFrame, Shows, Inv;
    InvFocus(Apply(s, op));
    forall k | 0 <= k < WM_MAX
      ensures FrameOk(Apply(s, op), k)
    {
      if Apply(s, op).wins[k].Win? { StaysOk(s, op, k); }
    }
  }

  /** Replacing one window by one with the same frame. */
  lemma OneChanged(s: Wm, s': Wm, id: int, w: Win)
    requires Inv(s) && HasWin(s, id) && s'.wins == s.wins[FindWin(s.wins, id) := w]
    requires w.NoWin? || SameFrame(WinOf(s, id), w)
    ensures |s'.wins| == WM_MAX
    ensures forall k :: 0 <= k < WM_MAX && s'.wins[k].Win? ==>
              SameFrame(s.wins[k], s'.wins[k]) && (k != FindWin(s.wins, id) ==> s.wins[k].id != id)
    ensures forall k :: 0 <= k < WM_MAX && s'.wins[k].Win? && k != FindWin(s.wins, id) ==>
              s'.wins[k] == s.wins[k] && Disjoint(s.wins[k], WinOf(s, id))
  {
    hide WinOk, Wf;
    forall k | 0 <= k < WM_MAX && s'.wins[k].Win? && k != FindWin(s.wins, id)
      ensures Disjoint(s.wins[k], WinOf(s, id)) && s.wins[k].id != id
    {
      assert k < FindWin(s.wins, id) ==> Disjoint(s.wins[k], WinOf(s, id));
      assert k > FindWin(s.wins, id) ==> Disjoint(WinOf(s, id), s.wins[k]);
    }
  }

  lemma MoveDecorates(s: Wm, op: WmOp, id: int, x: int, y: int)
    requires Inv(s) && Decorated(s) && Allowed(s, op) && Inv(Apply(s, op)) && Apply(s, op) == MoveWin(s, id, x, y)
    requires Calls(s, op) == MoveCalls(s, id, x, y)
    ensures Decorated(Apply(s, op))
  {
    hide Wf, WinOk, Disjoint, Apply, Calls, Shows, FrameOk, Scene.Move;
    if HasWin(s, id) { OneChanged(s, Apply(s, op), id, WinOf(s, id).(x := x, y := y)); }
    UntouchedDecorated(s, op);
  }

  lemma MinimizeDecorates(s: Wm, id: int)
    requires Inv(s) && Decorated(s)
    ensures Inv(Minimize(s, id)) && Decorated(Minimize(s, id))
  {
    hide Wf, WinOk, Disjoint, Shows, FrameOk, Scene.SetVisible;
    MinimizeKeepsInv(s, id);
    assert Apply(s, DoMinimize(id)) == Minimize(s, id);
    if HasWin(s, id) { OneChanged(s, Minimize(s, id), id, WinOf(s, id).(minimized := true)); }
    InvFocus(s);
    UntouchedDecorated(s, DoMinimize(id));
  }

  lemma DestroyDecorates(s: Wm, id: int)
    requires Inv(s) && Decorated(s)
    ensures Inv(DestroyWin(s, id)) && Decorated(DestroyWin(s, id))
  {
    hide Wf, WinOk, Shows, FrameOk, Scene.Destroy;
    DestroyKeepsInv(s, id);
    assert Apply(s, DoDestroy(id)) == DestroyWin(s, id);
    if HasWin(s, id) { OneChanged(s, DestroyWin(s, id), id, NoWin); }
    InvFocus(s);
    UntouchedDecorated(s, DoDestroy(id));
  }

  /** A raised or already focused window, and one that is not there. */
  lemma FocusAny(s: Wm, id: int)
    requires Inv(s) && Decorated(s)
    ensures Inv(Windows.Focus(s, id)) && Decorated(Windows.Focus(s, id))
  {
    hide FrameOk, Inv, Wf, DrawFrame;
    InvFocus(s);
    FocusKeepsInv(s, id);
    if HasWin(s, id) && !WinOf(s, id).minimized && s.focus != id { FocusDecorates(s, id); }
  }

  lemma GrabDecorates(s: Wm, drag: int, dx: int, dy: int)
    requires Inv(s) && Decorated(s)
    ensures Inv(Grab(s, drag, dx, dy)) && Decorated(Grab(s, drag, dx, dy))
  {
    hide Wf, WinOk, Disjoint, Shows;
    GrabKeepsInv(s, drag, dx, dy);
    forall k | 0 <= k < WM_MAX
      ensures FrameOk(Grab(s, drag, dx, dy), k)
    {
      assert FrameOk(s, k);
    }
  }

  lemma DragStartDecorates(s: Wm, id: int, x: int, y: int)
    requires Inv(s) && Decorated(s)
    ensures Inv(DragStart(s, id, x, y)) && Decorated(DragStart(s, id, x, y))
  {
    hide Inv, Decorated, Windows.Focus;
    InvFocus(s);
    if HasWin(s, id) && !WinOf(s, id).minimized {
      var w := WinOf(s, id);
      GrabDecorates(s, id, x - w.x, y - w.y);
      FocusAny(Grab(s, id, x - w.x, y - w.y), id);
    } else {
      GrabDecorates(s, -1, s.dragDx, s.dragDy);
    }
  }

  lemma RestoreDecorates(s: Wm, id: int)
    requires Inv(s) && Decorated(s)
    ensures Inv(Restore(s, id)) && Decorated(Restore(s, id))
  {
    hide Inv, Decorated, Windows.Focus, Wf, Scene.SetVisible;
    InvFocus(s);
    if HasWin(s, id) && WinOf(s, id).minimized {
      ShownInv(s, id);
      ShownFrames(s, id);
      SetWinAt(s, Shown(s, id), id, WinOf(s, id).(minimized := false), id);
      FocusDecorates(Shown(s, id), id);
      RestoreIs(s, id);
    }
  }

  lemma RestoreIs(s: Wm, id: int)
    requires HasWin(s, id) && WinOf(s, id).minimized && FontOk(s.look.font)
    ensures Restore(s, id) == Windows.Focus(Shown(s, id), id)
  {
  }

  lemma ShownInv(s: Wm, id: int)
    requires Inv(s) && HasWin(s, id) && WinOf(s, id).minimized
    ensures Inv(Shown(s, id))
  {
    hide Inv, Wf, Scene.SetVisible;
    InvFocus(s);
    ShowKeepsInv(s, id, true, s.focus);
  }

  lemma ShownFrames(s: Wm, id: int)
    requires Inv(s) && Decorated(s) && HasWin(s, id) && WinOf(s, id).minimized && Inv(Shown(s, id))
    ensures forall k :: 0 <= k < WM_MAX && Shown(s, id).wins[k].Win? && Shown(s, id).wins[k].id != id ==>
              FrameOk(Shown(s, id), k)
  {
    hide Wf, WinOk, Disjoint, Shows, Scene.SetVisible, After, PicKept;
    var w, s' := WinOf(s, id), Shown(s, id);
    ShowIsCalls(s.comp, w, true);
    forall k | 0 <= k < WM_MAX && s'.wins[k].Win? && s'.wins[k].id != id
      ensures FrameOk(s', k)
    {
      var v := s.wins[k];
      assert k != FindWin(s.wins, id) && s'.wins[k] == v && FrameOk(s, k);
      if !v.minimized {
        assert NoneTouches(ShowCalls(w, true), v.frame);
        AfterPic(s.comp, ShowCalls(w, true), v.frame);
        PicShows(s.comp, s'.comp, v, v.id == s.focus, s.look);
      }
    }
  }

  lemma OtherDecorates(s: Wm, o: Op)
    requires Inv(s) && Decorated(s) && Foreign(s, o) && HandsOff(s, DoOther(o))
    ensures Inv(s.(comp := Change(s.comp, o))) && Decorated(s.(comp := Change(s.comp, o)))
  {
    hide Wf, WinOk, Disjoint, Shows, FrameOk, Change, Touches;
    ForeignKeepsInv(s, o);
    UntouchedDecorated(s, DoOther(o));
  }

  lemma CompositeDecorates(s: Wm)
    requires Inv(s) && Decorated(s)
    ensures Inv(s.(comp := s.comp.(damage := Clean))) && Decorated(s.(comp := s.comp.(damage := Clean)))
  {
    hide Wf, WinOk, Disjoint, Shows, FrameOk;
    CompositeKeepsInv(s);
    UntouchedDecorated(s, DoComposite);
  }

  /** wm_refresh_frames redraws every frame. */
  lemma {:induction false} RefreshFrames(s: Wm, n: nat, k: nat)
    requires Inv(s) && k < n <= WM_MAX
    ensures Inv(RefreshTo(s, n)) && RefreshTo(s, n) == s.(comp := RefreshTo(s, n).comp) && FrameOk(RefreshTo(s, n), k)
  {
    hide RefreshTo, Inv, FrameOk;
    RefreshKeepsInv(s, n);
    RefreshKeepsInv(s, n - 1);
    InvFocus(s);
    RefreshOne(s, n);
    if k < n - 1 {
      RefreshFrames(s, n - 1, k);
      RefreshOther(RefreshTo(s, n - 1), n - 1, k);
    } else {
      RefreshLast(RefreshTo(s, n - 1), n - 1);
    }
  }

  /** Frame m redrawn. */
  function Redrawn(s: Wm, m: nat): Wm
    requires m < |s.wins| && FontOk(s.look.font)
  {
    if s.wins[m].NoWin? then s else s.(comp := DrawFrame(s.comp, s.wins[m], s.wins[m].id == s.focus, s.look))
  }

  lemma RefreshOne(s: Wm, n: nat)
    requires 0 < n <= |s.wins| && FontOk(s.look.font) && RefreshTo(s, n - 1) == s.(comp := RefreshTo(s, n - 1).comp)
    ensures RefreshTo(s, n) == Redrawn(RefreshTo(s, n - 1), n - 1)
  {
    hide DrawFrame;
  }

  lemma RefreshOther(before: Wm, m: nat, k: nat)
    requires Inv(before) && m < WM_MAX && k < WM_MAX && k != m && Inv(Redrawn(before, m)) && FrameOk(before, k)
    ensures FrameOk(Redrawn(before, m), k)
  {
    hide DrawFrame, Shows, Wf, PicKept, WinOk;
    var u, v := before.wins[m], before.wins[k];
    if u.Win? && v.Win? && !v.minimized {
      assert k < m ==> Disjoint(v, u);
      assert k > m ==> Disjoint(u, v);
      DrawFramePic(before.comp, u, u.id == before.focus, before.look, v.frame);
      PicShows(before.comp, Redrawn(before, m).comp, v, v.id == before.focus, before.look);
    }
  }

  lemma RefreshLast(before: Wm, m: nat)
    requires Inv(before) && m < WM_MAX && Inv(Redrawn(before, m))
    ensures FrameOk(Redrawn(before, m), m)
  {
    hide DrawFrame, Shows, Wf, WinOk, Disjoint;
    var v := before.wins[m];
    if v.Win? { LastDrawn(before.comp, v, v.id == before.focus, before.look); }
  }

  lemma ThemeDecorates(s: Wm, look: Look)
    requires Inv(s) && FontOk(look.font)
    ensures Inv(RefreshTo(s.(look := look), WM_MAX)) && Decorated(RefreshTo(s.(look := look), WM_MAX))
  {
    hide Inv, FrameOk, RefreshTo;
    LookKeepsInv(s, look);
    ThemeKeepsInv(s, look);
    forall k: nat | 0 <= k < WM_MAX
      ensures FrameOk(RefreshTo(s.(look := look), WM_MAX), k)
    {
      RefreshFrames(s.(look := look), WM_MAX, k);
    }
  }

  // wm_create and wm_resize draw the frame last.

  /** Nothing is drawn on an older frame. */
  lemma CreateTouches(s: Wm, title: seq<byte>, w: int, h: int, bg: Px, memF: bool, memC: bool, i: int)
    requires Inv(s) && i < s.comp.nextId
    ensures NoneTouches(CreateCalls(s, title, w, h, bg, memF, memC), i)
  {
    hide Scene.Create, Inv, Wf;
    InvFocus(s);
    if TITLE_H + 4 < w <= DIM_MAX && TITLE_H + 4 < h <= DIM_MAX && FreeWin(s.wins) < |s.wins| {
      var (c1, fid) := Scene.Create(s.comp, w, h, memF);
      var (c2, cid) := Scene.Create(c1, w - 2, h - TITLE_H, memC);
      CreatedId(s.comp, w, h, memF);
      CreatedId(c1, w - 2, h - TITLE_H, memC);
      if fid >= 0 && cid >= 0 {
        var win := Win(s.nextId, fid, cid, 0, 0, w, h, false, bg, if |title| > 23 then title[..23] else title);
        FrameTouches(win, false, s.look, i);
      }
    }
  }

  lemma CreatedId(c: Comp, w: nat, h: nat, mem: bool)
    requires 0 < c.nextId
    ensures Scene.Create(c, w, h, mem).1 >= 0 ==>
              Scene.Create(c, w, h, mem).1 == c.nextId && Scene.Create(c, w, h, mem).0.nextId == c.nextId + 1
    ensures Scene.Create(c, w, h, mem).1 < 0 ==> Scene.Create(c, w, h, mem).0 == c
  {
  }

  lemma CreateDecorates(s: Wm, title: seq<byte>, w: int, h: int, bg: Px, memF: bool, memC: bool)
    requires Inv(s) && Decorated(s)
    ensures var s' := CreateWin(s, title, w, h, bg, memF, memC).0; Inv(s') && Decorated(s')
  {
    hide Wf, WinOk, Disjoint, CreateWin, CreateCalls, Shows, DrawFrame;
    var op := DoCreate(title, w, h, bg, memF, memC);
    var s' := Apply(s, op);
    CreateKeepsInv(s, title, w, h, bg, memF, memC);
    NewAt(s, title, w, h, bg, memF, memC);
    InvFocus(s);
    forall k | 0 <= k < WM_MAX
      ensures FrameOk(s', k)
    {
      if s'.wins[k] != s.wins[k] {
        NewFrame(s, title, w, h, bg, memF, memC);
      } else if s.wins[k].Win? {
        assert FrameOk(s, k);
        WinIsOlder(s.comp, s.wins[k]);
        CreateTouches(s, title, w, h, bg, memF, memC, s.wins[k].frame);
        StaysOk(s, op, k);
      }
    }
  }

  /** Only the free entry is filled. */
  lemma NewAt(s: Wm, title: seq<byte>, w: int, h: int, bg: Px, memF: bool, memC: bool)
    requires FontOk(s.look.font)
    ensures var s' := CreateWin(s, title, w, h, bg, memF, memC).0;
      && s'.focus == s.focus && s'.look == s.look
      && (s'.wins != s.wins ==>
            FreeWin(s.wins) < |s.wins| && s'.wins == s.wins[FreeWin(s.wins) := s'.wins[FreeWin(s.wins)]])
  {
    hide Scene.Create, Scene.Destroy, Scene.Move, Scene.Fill, DrawFrame;
  }

  lemma NewFrame(s: Wm, title: seq<byte>, w: int, h: int, bg: Px, memF: bool, memC: bool)
    requires Inv(s) && Inv(CreateWin(s, title, w, h, bg, memF, memC).0)
    requires CreateWin(s, title, w, h, bg, memF, memC).0.wins != s.wins
    ensures FrameOk(CreateWin(s, title, w, h, bg, memF, memC).0, FreeWin(s.wins))
  {
    hide Scene.Create, Scene.Destroy, Scene.Move, Scene.Fill, DrawFrame, Wf, WinOk, Disjoint, Shows;
    var s', id := CreateWin(s, title, w, h, bg, memF, memC).0, CreateWin(s, title, w, h, bg, memF, memC).1;
    var (c1, fid) := Scene.Create(s.comp, w, h, memF);
    var (c2, cid) := Scene.Create(c1, w - 2, h - TITLE_H, memC);
    var win := s'.wins[FreeWin(s.wins)];
    CreatedWf(s.comp, w, h, memF);
    CreatedWf(c1, w - 2, h - TITLE_H, memC);
    PlacedWf(c2, cid, 1, TITLE_H, bg);
    LastDrawn(Scene.Fill(Scene.Move(c2, cid, 1, TITLE_H), cid, bg), win, false, s.look);
  }

  lemma CreatedWf(c: Comp, w: nat, h: nat, mem: bool)
    requires Wf(c)
    ensures Wf(Scene.Create(c, w, h, mem).0)
  {
    CreateIsLocal(c, w, h, mem);
  }

  lemma PlacedWf(c: Comp, id: int, x: int, y: int, bg: Px)
    requires Wf(c)
    ensures Wf(Scene.Fill(Scene.Move(c, id, x, y), id, bg))
  {
    MoveIsLocal(c, id, x, y);
    FillIsLocal(Scene.Move(c, id, x, y), id, bg);
  }

  lemma ResizeDecorates(s: Wm, id: int, w: int, h: int, memF: bool, memC: bool)
    requires Inv(s) && Decorated(s) && !ResizeTears(s, id, w, h, memF, memC)
    ensures var s' := ResizeWin(s, id, w, h, memF, memC).0; Inv(s') && Decorated(s')
  {
    hide Inv, Decorated, ResizeWin;
    ResizeKeepsInv(s, id, w, h, memF, memC);
    if HasWin(s, id) && TITLE_H + 4 < w <= DIM_MAX && TITLE_H + 4 < h <= DIM_MAX && w * h <= AREA_MAX && memF {
      if memC {
        ResizedWhole(s, id, w, h);
      } else {
        ResizeHalf(s, id, w, h);
        ResizedFrame(s, id, w, h);
      }
    } else {
      ResizeRefused(s, id, w, h, memF, memC);
    }
  }

  lemma ResizedWhole(s: Wm, id: int, w: int, h: int)
    requires Inv(s) && Decorated(s) && HasWin(s, id) && TITLE_H + 4 < w <= DIM_MAX && TITLE_H + 4 < h <= DIM_MAX
    requires w * h <= AREA_MAX && Inv(ResizeWin(s, id, w, h, true, true).0)
    ensures Decorated(ResizeWin(s, id, w, h, true, true).0)
  {
    hide Wf, WinOk, ResizeWin, ResizePair, ResizeCalls, DrawFrame, Shows;
    var s', win := ResizeWin(s, id, w, h, true, true).0, WinOf(s, id);
    var win' := win.(w := w, h := h);
    var op := DoResize(id, w, h, true, true);
    ResizeSucceeds(s, id, w, h);
    SetWinAt(s, s', id, win', id);
    assert Apply(s, op) == s';
    forall k | 0 <= k < WM_MAX
      ensures FrameOk(s', k)
    {
      if k == FindWin(s.wins, id) {
        ResizePairOk(s.comp, win, w, h);
        LastDrawn(ResizePair(s.comp, win, w, h), win', id == s.focus, s.look);
      } else if s.wins[k].Win? {
        assert FrameOk(s, k);
        assert k < FindWin(s.wins, id) ==> Disjoint(s.wins[k], win);
        assert k > FindWin(s.wins, id) ==> Disjoint(win, s.wins[k]);
        ResizeTouches(s, id, w, h, s.wins[k].frame);
        StaysOk(s, op, k);
      }
    }
  }

  lemma ResizeTouches(s: Wm, id: int, w: int, h: int, i: int)
    requires FontOk(s.look.font) && HasWin(s, id) && WinOf(s, id).frame != i && WinOf(s, id).client != i
    ensures NoneTouches(ResizeCalls(s, id, w, h, true, true), i)
  {
    hide Scene.Resize, FrameOps;
    FrameTouches(WinOf(s, id).(w := w, h := h), id == s.focus, s.look, i);
  }

  /** A frame resized to the size it has keeps its picture. */
  lemma ResizedFrame(s: Wm, id: int, w: int, h: int)
    requires Inv(s) && Decorated(s) && HasWin(s, id) && TITLE_H + 4 < w <= DIM_MAX && TITLE_H + 4 < h <= DIM_MAX
    requires w * h <= AREA_MAX && w == WinOf(s, id).w && h == WinOf(s, id).h
    requires Inv(s.(comp := Scene.Resize(s.comp, WinOf(s, id).frame, w, h, true).0))
    ensures Decorated(s.(comp := Scene.Resize(s.comp, WinOf(s, id).frame, w, h, true).0))
  {
    hide Wf, Scene.Resize, Find, FrameOk, Windows.Disjoint;
    var win := WinOf(s, id);
    var c := Scene.Resize(s.comp, win.frame, w, h, true).0;
    InvFocus(s);
    forall k | 0 <= k < WM_MAX
      ensures FrameOk(s.(comp := c), k)
    {
      ResizedFrameAt(s, id, w, h, k);
    }
  }

  lemma ResizedFrameAt(s: Wm, id: int, w: nat, h: nat, k: nat)
    requires Inv(s) && HasWin(s, id) && SizeOk(w, h) && w == WinOf(s, id).w && h == WinOf(s, id).h && k < WM_MAX
    requires Inv(s.(comp := Scene.Resize(s.comp, WinOf(s, id).frame, w, h, true).0)) && FrameOk(s, k)
    ensures FrameOk(s.(comp := Scene.Resize(s.comp, WinOf(s, id).frame, w, h, true).0), k)
  {
    hide Wf, Scene.Resize, Find, WinOk, FindWin;
    var v, win := s.wins[k], WinOf(s, id);
    var c := Scene.Resize(s.comp, win.frame, w, h, true).0;
    if v.Win? && !v.minimized {
      ResizeKeepsContent(s.comp, v.frame, w, h);
      Unminimized(s, id, k);
      if v.id == id {
        assert Shows(c, v, v.id == s.focus, s.look);
      } else {
        OnePic(s.comp, OpResize(win.frame, w, h, true), v.frame);
        PicShows(s.comp, c, v, v.id == s.focus, s.look);
      }
    }
  }

  /** Every operation keeps every frame as it should be. */
  lemma ApplyDecorates(s: Wm, op: WmOp)
    requires Inv(s) && Decorated(s) && Allowed(s, op) && HandsOff(s, op)
    ensures Inv(Apply(s, op)) && Decorated(Apply(s, op))
  {
    hide Inv, Decorated, CreateWin, DestroyWin, Windows.Focus, MoveWin, ResizeWin, Minimize, Restore, RefreshTo, Change,
         DragStart, HandsOff, MoveCalls;
    ApplyKeepsInv(s, op);
    match op
    case DoCreate(title, w, h, bg, memF, memC) => CreateDecorates(s, title, w, h, bg, memF, memC);
    case DoDestroy(id) => DestroyDecorates(s, id);
    case DoFocus(id) => FocusAny(s, id);
    case DoMove(id, x, y) => MoveDecorates(s, op, id, x, y);
    case DoDragStart(id, x, y) => DragStartDecorates(s, id, x, y);
    case DoDragTo(x, y) =>
      if s.drag >= 0 && HasWin(s, s.drag) { MoveDecorates(s, op, s.drag, x - s.dragDx, y - s.dragDy); }
      else { GrabDecorates(s, if s.drag >= 0 then -1 else s.drag, s.dragDx, s.dragDy); }
    case DoDragEnd => GrabDecorates(s, -1, s.dragDx, s.dragDy);
    case DoResize(id, w, h, memF, memC) => ResizeDecorates(s, id, w, h, memF, memC);
    case DoMinimize(id) => MinimizeDecorates(s, id);
    case DoRestore(id) => RestoreDecorates(s, id);
    case DoTheme(look) => ThemeDecorates(s, look);
    case DoOther(o) => OtherDecorates(s, o);
    case DoComposite => CompositeDecorates(s);
  }

  ghost predicate HandsOffRun(s: Wm, ops: seq<WmOp>)
    requires Inv(s) && AllowedRun(s, ops)
    decreases |ops|
  {
    ops == [] || (HandsOff(s, ops[0]) && (ApplyKeepsInv(s, ops[0]); HandsOffRun(Apply(s, ops[0]), ops[1..])))
  }

  /** In every state reachable from wm_init by calls of the window manager and anything other
      clients do that draws on no frame, every window that is not minimized shows its border,
      its title and its title bar, in the focus's colour exactly if it has the focus. */
  lemma FramesAlwaysShow(c: Comp, look: Look, ops: seq<WmOp>)
    requires Wf(c) && FontOk(look.font)
    ensures Inv(Start(c, look))
    ensures AllowedRun(Start(c, look), ops) && HandsOffRun(Start(c, look), ops) ==>
              Decorated(Windows.Run(Start(c, look), ops))
  {
    hide Wf, AllowedRun, HandsOffRun, Windows.Run;
    StartKeepsInv(c, look);
    if AllowedRun(Start(c, look), ops) && HandsOffRun(Start(c, look), ops) { RunDecorates(Start(c, look), ops); }
  }

  lemma {:induction false} RunDecorates(s: Wm, ops: seq<WmOp>)
    requires Inv(s) && Decorated(s) && AllowedRun(s, ops) && HandsOffRun(s, ops)
    ensures Decorated(Windows.Run(s, ops))
    decreases |ops|
  {
    hide Inv, Decorated, Allowed, HandsOff, Apply;
    if ops != [] {
      ApplyDecorates(s, ops[0]);
      RunDecorates(Apply(s, ops[0]), ops[1..]);
    }
  }
}

// kernel/drivers/wm.c as it runs: a table of eight records and a few statics.
// Every method is proved to do to State() what the function of the same name in
// Windows does, and to keep the invariant proved there.

module WindowManager {
  import opened Gfx
  import opened Scene
  import opened Windows
  import opened Words

  /** The ids of the used surfaces, bottom to top. */
  function Ids(slots: seq<Slot>): seq<int> {
    if slots == [] then []
    else
      var n := |slots| - 1;
      Ids(slots[..n]) + if slots[n].Surf? then [slots[n].id] else []
  }

  /** wm_list and the other statics of wm.c.  The compositor is its abstract state. */
  class WindowManager {
    const list: array<Win>
    var nextId: int
    var focusId: int
    var dragId: int
    var dragDx: int
    var dragDy: int
    var comp: Comp
    var look: Look

    function State(): Wm
      reads this, list
    {
      Wm(list[..], nextId, focusId, dragId, dragDx, dragDy, comp, look)
    }

    predicate Valid()
      reads this, list
    {
      Inv(State())
    }

    /** wm_init. */
    constructor (comp: Comp, look: Look)
      requires Wf(comp) && FontOk(look.font)
      ensures Valid() && State() == Start(comp, look)
    {
      list := new Win[WM_MAX](_ => NoWin);
      nextId, focusId, dragId, dragDx, dragDy := 1, -1, -1, 0, 0;
      this.comp, this.look := comp, look;
      new;
      assert list[..] == seq(WM_MAX, _ => NoWin);
    }

    /** wm_get: the index of a window, or -1. */
    method Get(id: int) returns (k: int)
      ensures k == if HasWin(State(), id) then FindWin(State().wins, id) else -1
      ensures k >= 0 ==> k < list.Length && list[k].Win? && list[k].id == id && list[k] == WinOf(State(), id)
    {
      for i := 0 to list.Length
        invariant forall m :: 0 <= m < i ==> !(list[m].Win? && list[m].id == id)
      {
        if list[i].Win? && list[i].id == id {
          return i;
        }
      }
      return -1;
    }

    method GetFree() returns (k: int)
      ensures k == if FreeWin(list[..]) < list.Length then FreeWin(list[..]) else -1
    {
      for i := 0 to list.Length
        invariant forall m :: 0 <= m < i ==> list[m].Win?
      {
        if list[i].NoWin? { return i; }
      }
      return -1;
    }

    method Create(title: seq<byte>, w: int, h: int, bg: Px, memF: bool, memC: bool) returns (id: int)
      requires Valid()
      modifies this, list
      ensures Valid() && (State(), id) == CreateWin(old(State()), title, w, h, bg, memF, memC)
    {
      CreateKeepsInv(State(), title, w, h, bg, memF, memC);
      id := CreateIt(title, w, h, bg, memF, memC);
    }

    method CreateIt(title: seq<byte>, w: int, h: int, bg: Px, memF: bool, memC: bool) returns (id: int)
      requires FontOk(look.font)
      modifies this, list
      ensures (State(), id) == CreateWin(old(State()), title, w, h, bg, memF, memC)
    {
      hide DrawFrame, Scene.Create, Scene.Fill, Scene.Move, Scene.Destroy;
      if w <= TITLE_H + 4 || h <= TITLE_H + 4 || w > DIM_MAX || h > DIM_MAX { return -1; }
      var k := GetFree();
      if k < 0 { return -1; }
      var frame := Scene.Create(comp, w, h, memF);
      comp := frame.0;
      if frame.1 < 0 { return -1; }
      var client := Scene.Create(comp, w - 2, h - TITLE_H, memC);
      comp := client.0;
      if client.1 < 0 {
        comp := Scene.Destroy(comp, frame.1);
        return -1;
      }
      id := nextId;
      Register(k, Win(id, frame.1, client.1, 0, 0, w, h, false, bg, if |title| > 23 then title[..23] else title));
    }

    /** The end of wm_create: the new record, and the first look of its surfaces. */
    method Register(k: nat, win: Win)
      requires k < list.Length && win.Win? && FontOk(look.font)
      modifies this, list
      ensures var s := old(State());
        var c := Scene.Fill(Scene.Move(s.comp, win.client, 1, TITLE_H), win.client, win.bg);
        State() == s.(wins := s.wins[k := win], nextId := s.nextId + 1, comp := DrawFrame(c, win, false, s.look))
    {
      hide DrawFrame, Scene.Fill, Scene.Move;
      nextId := nextId + 1;
      list[k] := win;
      comp := Scene.Fill(Scene.Move(comp, win.client, 1, TITLE_H), win.client, win.bg);
      comp := DrawFrame(comp, list[k], false, look);
    }

    method Destroy(id: int)
      requires Valid()
      modifies this, list
      ensures Valid() && State() == DestroyWin(old(State()), id)
    {
      DestroyKeepsInv(State(), id);
      var k := Get(id);
      if k < 0 { return; }
      comp := Scene.Destroy(Scene.Destroy(comp, list[k].frame), list[k].client);
      if focusId == id { focusId := -1; }
      if dragId == id { dragId := -1; }
      list[k] := NoWin;
    }

    method Focus(id: int)
      requires Valid()
      modifies this
      ensures Valid() && State() == Windows.Focus(old(State()), id)
    {
      FocusKeepsInv(State(), id);
      FocusIt(id);
    }

    method FocusIt(id: int)
      requires FontOk(look.font)
      modifies this
      ensures State() == Windows.Focus(old(State()), id)
    {
      var k := Get(id);
      if k >= 0 && !list[k].minimized && focusId != id {
        BringUp(k);
      }
    }

    /** wm_focus once the window is known to be focusable. */
    method BringUp(k: nat)
      requires k < list.Length && list[k].Win? && FontOk(look.font)
      modifies this
      ensures var s, w := old(State()), list[k];
        var c := if HasWin(s, s.focus) then DrawFrame(s.comp, WinOf(s, s.focus), false, s.look) else s.comp;
        State() == s.(focus := w.id, comp := DrawFrame(Scene.Raise(Scene.Raise(c, w.frame), w.client), w, true, s.look))
    {
      var was := Get(focusId);
      if was >= 0 { comp := DrawFrame(comp, list[was], false, look); }
      focusId := list[k].id;
      comp := Scene.Raise(comp, list[k].frame);
      comp := Scene.Raise(comp, list[k].client);
      comp := DrawFrame(comp, list[k], true, look);
    }

    method Move(id: int, x: int, y: int)
      requires Valid()
      modifies this, list
      ensures Valid() && State() == MoveWin(old(State()), id, x, y)
    {
      MoveKeepsInv(State(), id, x, y);
      var k := Get(id);
      if k < 0 { return; }
      list[k] := list[k].(x := x, y := y);
      comp := Scene.Move(comp, list[k].frame, x, y);
      comp := Scene.Move(comp, list[k].client, x + 1, y + TITLE_H);
    }

    method DragStart(id: int, x: int, y: int)
      requires Valid()
      modifies this
      ensures Valid() && State() == Windows.DragStart(old(State()), id, x, y)
    {
      DragStartKeepsInv(State(), id, x, y);
      DragIt(id, x, y);
    }

    method DragIt(id: int, x: int, y: int)
      requires FontOk(look.font)
      modifies this
      ensures State() == Windows.DragStart(old(State()), id, x, y)
    {
      var k := Get(id);
      if k < 0 || list[k].minimized {
        dragId := -1;
        return;
      }
      dragId, dragDx, dragDy := id, x - list[k].x, y - list[k].y;
      FocusIt(id);
    }

    method DragTo(x: int, y: int)
      requires Valid()
      modifies this, list
      ensures Valid() && State() == Windows.DragTo(old(State()), x, y)
    {
      DragToKeepsInv(State(), x, y);
      hide Inv;
      if dragId < 0 { return; }
      var k := Get(dragId);
      if k < 0 {
        dragId := -1;
        return;
      }
      Move(dragId, x - dragDx, y - dragDy);
    }

    method DragEnd()
      requires Valid()
      modifies this
      ensures Valid() && State() == Windows.DragEnd(old(State()))
    {
      GrabKeepsInv(State(), -1, dragDx, dragDy);
      dragId := -1;
    }

    /** wm_resize.  When the client's allocation fails after the frame has taken a
        new size, the window is left torn; otherwise it stays in order. */
    method Resize(id: int, w: int, h: int, memF: bool, memC: bool) returns (r: int)
      requires Valid()
      modifies this, list
      ensures Valid() <==> !ResizeTears(old(State()), id, w, h, memF, memC)
      ensures (State(), r) == ResizeWin(old(State()), id, w, h, memF, memC)
    {
      ResizeKeepsInv(State(), id, w, h, memF, memC);
      r := ResizeSurfaces(id, w, h, memF, memC);
    }

    method ResizeSurfaces(id: int, w: int, h: int, memF: bool, memC: bool) returns (r: int)
      requires FontOk(look.font)
      modifies this, list
      ensures (State(), r) == ResizeWin(old(State()), id, w, h, memF, memC)
    {
      hide DrawFrame, Scene.Resize, Scene.Move;
      var k := Get(id);
      if k < 0 || w <= TITLE_H + 4 || h <= TITLE_H + 4 || w > DIM_MAX || h > DIM_MAX { return -1; }
      var frame := Scene.Resize(comp, list[k].frame, w, h, memF);
      comp := frame.0;
      if frame.1 != 0 { return -1; }
      var client := Scene.Resize(comp, list[k].client, w - 2, h - TITLE_H, memC);
      comp := client.0;
      if client.1 != 0 { return -1; }
      TakeSize(k, w, h);
      return 0;
    }

    /** The end of wm_resize, both surfaces having their new size. */
    method TakeSize(k: nat, w: int, h: int)
      requires k < list.Length && list[k].Win? && FontOk(look.font)
      modifies this, list
      ensures var s, win := old(State()), old(list[k]).(w := w, h := h);
        State() == s.(wins := s.wins[k := win],
                      comp := DrawFrame(Scene.Move(s.comp, win.client, win.x + 1, win.y + TITLE_H), win,
                                        win.id == s.focus, s.look))
    {
      list[k] := list[k].(w := w, h := h);
      comp := Scene.Move(comp, list[k].client, list[k].x + 1, list[k].y + TITLE_H);
      comp := DrawFrame(comp, list[k], list[k].id == focusId, look);
    }

    /** Shows or hides both surfaces of a window. */
    method Show(k: nat, v: bool)
      requires k < list.Length && list[k].Win?
      modifies this, list
      ensures var s, w := old(State()), old(list[k]);
        State() == s.(wins := s.wins[k := w.(minimized := !v)],
                      comp := Scene.SetVisible(Scene.SetVisible(s.comp, w.frame, v), w.client, v))
    {
      hide Scene.SetVisible;
      list[k] := list[k].(minimized := !v);
      comp := Scene.SetVisible(comp, list[k].frame, v);
      comp := Scene.SetVisible(comp, list[k].client, v);
    }

    method Minimize(id: int)
      requires Valid()
      modifies this, list
      ensures Valid() && State() == Windows.Minimize(old(State()), id)
    {
      hide Scene.SetVisible, WinOk, Disjoint, Wf;
      MinimizeKeepsInv(State(), id);
      var k := Get(id);
      if k < 0 || list[k].minimized { return; }
      Show(k, false);
      if focusId == id { focusId := -1; }
    }

    method Restore(id: int)
      requires Valid()
      modifies this, list
      ensures Valid() && State() == Windows.Restore(old(State()), id)
    {
      RestoreKeepsInv(State(), id);
      hide Inv, Scene.SetVisible, Windows.Focus;
      var k := Get(id);
      if k < 0 || !list[k].minimized { return; }
      ShowKeepsInv(State(), id, true, focusId);
      Show(k, true);
      Focus(id);
    }

    /** comp_zlist. */
    method ZList() returns (ids: seq<int>)
      ensures ids == Ids(comp.slots)
    {
      ids := [];
      for i := 0 to |comp.slots|
        invariant ids == Ids(comp.slots[..i])
      {
        assert comp.slots[..i + 1][..i] == comp.slots[..i];
        if comp.slots[i].Surf? { ids := ids + [comp.slots[i].id]; }
      }
      assert comp.slots[..|comp.slots|] == comp.slots;
    }

    /** wm_from_comp. */
    method FromSurface(cid: int) returns (id: int)
      ensures id == FromComp(list[..], cid)
    {
      for i := 0 to list.Length
        invariant FromComp(list[..], cid) == FromComp(list[i..], cid)
      {
        assert list[i..][1..] == list[i + 1..];
        if list[i].Win? && (list[i].frame == cid || list[i].client == cid) {
          return list[i].id;
        }
      }
      return -1;
    }

    /** wm_hit_test: from the top of the z-order down. */
    method HitTest(x: int, y: int) returns (id: int)
      requires Valid()
      ensures id == Windows.HitTest(State(), x, y)
      ensures id == -1 <==> forall j :: !Hittable(State(), j, x, y)
      ensures id != -1 ==> exists j :: IsTopHit(State(), j, x, y) && id == State().wins[j].id
    {
      HitTestIsTop(State(), x, y);
      var ids := ZList();
      HitBelowIds(State(), |comp.slots|, x, y);
      assert comp.slots[..|comp.slots|] == comp.slots;
      id := Scan(ids, x, y);
    }

    /** The loop of wm_hit_test. */
    method Scan(ids: seq<int>, x: int, y: int) returns (id: int)
      ensures id == HitIds(State(), ids, |ids|, x, y)
    {
      hide FromComp;
      ghost var s := State();
      var k := |ids|;
      while k > 0
        invariant 0 <= k <= |ids|
        invariant HitIds(s, ids, |ids|, x, y) == HitIds(s, ids, k, x, y)
      {
        k := k - 1;
        var wid := FromSurface(ids[k]);
        if wid < 0 { continue; }
        var w := Get(wid);
        if w < 0 || list[w].minimized { continue; }
        if list[w].x <= x < list[w].x + list[w].w && list[w].y <= y < list[w].y + list[w].h {
          return wid;
        }
      }
      return -1;
    }
  }

  /** The window that surface cid belongs to can be hit. */
  predicate SurfaceHit(s: Wm, cid: int, x: int, y: int) {
    var id := FromComp(s.wins, cid);
    id >= 0 && HasWin(s, id) && !WinOf(s, id).minimized && Contains(WinOf(s, id), x, y)
  }

  /** wm_hit_test over the first n ids of the z-list. */
  function HitIds(s: Wm, ids: seq<int>, n: nat, x: int, y: int): int
    requires n <= |ids|
  {
    if n == 0 then -1
    else if SurfaceHit(s, ids[n - 1], x, y) then FromComp(s.wins, ids[n - 1])
    else HitIds(s, ids, n - 1, x, y)
  }

  lemma {:induction false} HitIdsPrefix(s: Wm, ids: seq<int>, more: seq<int>, n: nat, x: int, y: int)
    requires n <= |ids|
    ensures HitIds(s, ids + more, n, x, y) == HitIds(s, ids, n, x, y)
  {
    if n > 0 { HitIdsPrefix(s, ids, more, n - 1, x, y); }
  }

  /** Going down the z-list is going down the slots. */
  lemma {:induction false} HitBelowIds(s: Wm, n: nat, x: int, y: int)
    requires n <= |s.comp.slots|
    ensures HitBelow(s, n, x, y) == HitIds(s, Ids(s.comp.slots[..n]), |Ids(s.comp.slots[..n])|, x, y)
  {
    if n > 0 {
      HitBelowIds(s, n - 1, x, y);
      assert s.comp.slots[..n][..n - 1] == s.comp.slots[..n - 1];
      var before := Ids(s.comp.slots[..n - 1]);
      if s.comp.slots[n - 1].Surf? {
        HitIdsPrefix(s, before, [s.comp.slots[n - 1].id], |before|, x, y);
      } else {
        assert before + [] == before;
      }
    }
  }
}

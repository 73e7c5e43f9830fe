// kernel/drivers/wm.c: windows made of two compositor surfaces each.  The
// window manager is modelled on the compositor's abstract state: each comp_*
// call is the Scene function of that name.
//
// The main results: the invariant Inv holds in every reachable state, whatever
// other surfaces do in between (RunFromStart), and in every such state
// wm_hit_test finds exactly the topmost window under the point (HitTestIsTop).

module Windows {
  import opened Gfx
  import opened Damage
  import opened Scene
  import opened Words

  const WM_MAX := 8
  const TITLE_H := 11

  datatype Win =
    | NoWin
    | Win(id: int, frame: int, client: int, x: int, y: int, w: int, h: int, minimized: bool, bg: Px, title: seq<byte>)

  /** Theme colours and glyphs; their values do not matter here. */
  datatype Look = Look(border: Px, titleFocus: Px, titleUnfocus: Px, titleFg: Px, font: Font)

  datatype Wm = Wm(wins: seq<Win>, nextId: int, focus: int, drag: int, dragDx: int, dragDy: int, comp: Comp, look: Look)

  // ----- What the window manager sees of the compositor ----------------------------------

  datatype Geom = Geom(x: int, y: int, w: int, h: int, visible: bool, still: bool)

  function GeomOf(c: Comp, id: int): Geom
    requires Known(c, id)
  {
    var s := c.slots[Find(c.slots, id)];
    Geom(s.x, s.y, s.w, s.h, s.visible, s.anim.Still?)
  }

  /** The place of a surface in the z-order. */
  function Z(c: Comp, id: int): nat {
    Find(c.slots, id)
  }

  /** Slots differ in their pictures only. */
  predicate SameSlot(s: Slot, t: Slot) {
    && s.Surf? == t.Surf?
    && (s.Surf? ==>
          && s.id == t.id && s.x == t.x && s.y == t.y && s.w == t.w && s.h == t.h
          && s.visible == t.visible && s.anim == t.anim)
  }

  predicate SameLayout(c: Comp, c': Comp) {
    && |c.slots| == |c'.slots| && c.nextId == c'.nextId
    && forall k :: 0 <= k < |c.slots| ==> SameSlot(c.slots[k], c'.slots[k])
  }

  lemma {:induction false} FindInLayout(a: seq<Slot>, b: seq<Slot>, id: int)
    requires |a| == |b|
    requires forall k :: 0 <= k < |a| ==> a[k].Surf? == b[k].Surf? && (a[k].Surf? ==> a[k].id == b[k].id)
    ensures Find(a, id) == Find(b, id)
  {
    if a != [] && !(a[0].Surf? && a[0].id == id) {
      FindInLayout(a[1..], b[1..], id);
    }
  }

  lemma LayoutKept(c: Comp, c': Comp, id: int)
    requires SameLayout(c, c')
    ensures Z(c, id) == Z(c', id) && Known(c, id) == Known(c', id)
    ensures Known(c, id) ==> GeomOf(c, id) == GeomOf(c', id)
  {
    FindInLayout(c.slots, c'.slots, id);
  }

  /** With distinct ids, a surface is found where it is. */
  lemma FoundAt(slots: seq<Slot>, k: nat)
    requires DistinctIds(slots) && k < |slots| && slots[k].Surf?
    ensures Find(slots, slots[k].id) == k
  {
    var m := Find(slots, slots[k].id);
  }

  /** Surface i keeps its place on the screen; a and b keep their order. */
  predicate GeomKept(c: Comp, c': Comp, i: int) {
    Known(c', i) == Known(c, i) && (Known(c, i) ==> GeomOf(c', i) == GeomOf(c, i))
  }

  predicate OrderKept(c: Comp, c': Comp, a: int, b: int) {
    Known(c, a) && Known(c, b) ==> (Z(c, a) < Z(c, b) <==> Z(c', a) < Z(c', b))
  }

  /** Replacing slot k by one with the same id disturbs no other surface and no order. */
  lemma SetSlotLayout(c: Comp, k: nat, s: Slot, a: int, b: int)
    requires Wf(c) && k < COMP_MAX && c.slots[k].Surf? && s.Surf? && s.id == c.slots[k].id
    ensures var c' := SetSlot(c, k, s);
      && Z(c', a) == Z(c, a) && Known(c', a) == Known(c, a) && OrderKept(c, c', a, b)
      && (a != s.id ==> GeomKept(c, c', a))
      && Known(c', s.id) && GeomOf(c', s.id) == Geom(s.x, s.y, s.w, s.h, s.visible, s.anim.Still?)
  {
    var c' := SetSlot(c, k, s);
    FindInLayout(c.slots, c'.slots, a);
    FindInLayout(c.slots, c'.slots, b);
    FindInLayout(c.slots, c'.slots, s.id);
    FoundAt(c.slots, k);
  }

  lemma DamageLayout(c: Comp, c': Comp, i: int)
    requires c'.slots == c.slots
    ensures Known(c', i) == Known(c, i) && Z(c', i) == Z(c, i) && GeomKept(c, c', i)
  {
  }

  lemma MoveLayout(c: Comp, id: int, x: int, y: int, a: int, b: int)
    requires Wf(c) && Known(c, id)
    ensures var c' := Move(c, id, x, y);
      && Wf(c') && Known(c', a) == Known(c, a) && OrderKept(c, c', a, b) && (a != id ==> GeomKept(c, c', a))
      && Known(c', id) && GeomOf(c', id) == GeomOf(c, id).(x := x, y := y)
  {
    MoveIsLocal(c, id, x, y);
    var k := Find(c.slots, id);
    SetSlotLayout(c, k, c.slots[k].(x := x, y := y), a, b);
  }

  lemma SetVisibleLayout(c: Comp, id: int, v: bool, a: int, b: int)
    requires Wf(c) && Known(c, id)
    ensures var c' := SetVisible(c, id, v);
      && Wf(c') && Known(c', a) == Known(c, a) && OrderKept(c, c', a, b) && (a != id ==> GeomKept(c, c', a))
      && Known(c', id) && GeomOf(c', id) == GeomOf(c, id).(visible := v)
  {
    SetVisibleIsLocal(c, id, v);
    var k := Find(c.slots, id);
    SetSlotLayout(c, k, c.slots[k].(visible := v), a, b);
  }

  lemma ResizeLayout(c: Comp, id: int, w: nat, h: nat, a: int, b: int)
    requires Wf(c) && Known(c, id) && SizeOk(w, h)
    ensures var c' := Resize(c, id, w, h, true).0;
      && Wf(c') && Known(c', a) == Known(c, a) && OrderKept(c, c', a, b) && (a != id ==> GeomKept(c, c', a))
      && Known(c', id) && GeomOf(c', id) == GeomOf(c, id).(w := w, h := h)
  {
    ResizeIsLocal(c, id, w, h, true);
    var k := Find(c.slots, id);
    var s := c.slots[k];
    SetSlotLayout(c, k, s.(w := w, h := h, img := Compose(Blank(w, h), 0, 0, s.img, 0, 0, w, h, CopyWord)), a, b);
  }

  lemma CreateLayout(c: Comp, w: nat, h: nat, a: int, b: int)
    requires Wf(c) && Create(c, w, h, true).1 >= 0
    ensures var (c', id) := Create(c, w, h, true);
      && Wf(c') && id == c.nextId && c'.nextId == id + 1 && !Known(c, id)
      && Known(c', id) && GeomOf(c', id) == Geom(0, 0, w, h, true, true) && Z(c', id) == FirstFree(c.slots)
      && (a != id ==> GeomKept(c, c', a) && (b != id ==> OrderKept(c, c', a, b)))
      && (a != id && Known(c, a) ==> Z(c', a) == Z(c, a))
  {
    CreateIsLocal(c, w, h, true);
    var (c', id) := Create(c, w, h, true);
    FoundAt(c'.slots, FirstFree(c.slots));
    if a != id { NewSlotFind(c.slots, FirstFree(c.slots), c'.slots[FirstFree(c.slots)], a); }
    if b != id { NewSlotFind(c.slots, FirstFree(c.slots), c'.slots[FirstFree(c.slots)], b); }
  }

  /** Filling or freeing a slot of another id leaves every other search alone. */
  lemma {:induction false} NewSlotFind(slots: seq<Slot>, k: nat, s: Slot, id: int)
    requires k < |slots| && (s.Surf? ==> s.id != id) && (slots[k].Surf? ==> slots[k].id != id)
    ensures Find(slots[k := s], id) == Find(slots, id)
  {
    if k == 0 {
      assert slots[0 := s][1..] == slots[1..];
    } else if !(slots[0].Surf? && slots[0].id == id) {
      assert slots[k := s][1..] == slots[1..][k - 1 := s];
      NewSlotFind(slots[1..], k - 1, s, id);
    }
  }

  lemma DestroyLayout(c: Comp, id: int, a: int, b: int)
    requires Wf(c) && Known(c, id)
    ensures var c' := Destroy(c, id);
      && Wf(c') && (a != id && b != id ==> GeomKept(c, c', a) && OrderKept(c, c', a, b))
  {
    DestroyIsLocal(c, id);
    var k := Find(c.slots, id);
    if a != id && b != id {
      NewSlotFind(c.slots, k, Free, a);
      NewSlotFind(c.slots, k, Free, b);
    }
  }

  /** Drawing on a surface changes no layout. */
  lemma DrawLayout(c: Comp, c': Comp, k: nat, pts: set<Point>, color: Px)
    requires k < |c.slots| && c.slots[k].Surf? && c'.nextId == c.nextId
    requires c'.slots == c.slots[k := c.slots[k].(img := Stamp(c.slots[k].img, pts, color))]
    ensures SameLayout(c, c')
  {
  }

  /** How many used entries precede index i. */
  function UsedBefore(slots: seq<Slot>, i: nat): nat
    requires i <= |slots|
  {
    |UsedOnly(slots[..i])|
  }

  lemma {:induction false} UsedOnlyAt(slots: seq<Slot>, i: nat)
    requires i < |slots| && slots[i].Surf?
    ensures UsedBefore(slots, i) < |UsedOnly(slots)| && UsedOnly(slots)[UsedBefore(slots, i)] == slots[i]
  {
    var n := |slots| - 1;
    assert slots[..n][..i] == slots[..i];
    if i < n {
      UsedOnlyAt(slots[..n], i);
    }
  }

  lemma {:induction false} UsedBeforeGrows(slots: seq<Slot>, i: nat, j: nat)
    requires i < j <= |slots| && slots[i].Surf?
    ensures UsedBefore(slots, i) < UsedBefore(slots, j)
  {
    assert slots[..j][..j - 1] == slots[..j - 1];
    if i + 1 < j {
      UsedBeforeGrows(slots, i, j - 1);
    }
  }

  /** Where a surface other than the raised one ends up. */
  lemma RaisedPlace(slots: seq<Slot>, k: nat, p: nat)
    requires DistinctIds(slots) && k < |slots| && slots[k].Surf? && p < |slots| && p != k && slots[p].Surf?
    ensures var r := RaiseSlots(slots, k);
      var q := UsedBefore(Without(slots, k), Closed(p, k));
      q < |UsedOnly(Without(slots, k))| < |r| && r[q] == slots[p] && Find(r, slots[p].id) == q
  {
    WithoutAt(slots, k, Closed(p, k));
    UsedOnlyAt(Without(slots, k), Closed(p, k));
    RaisedDistinct(slots, k);
    FoundAt(RaiseSlots(slots, k), UsedBefore(Without(slots, k), Closed(p, k)));
  }

  /** Raising brings in no new surface. */
  lemma RaiseOnlyKnown(slots: seq<Slot>, k: nat, a: int)
    requires DistinctIds(slots) && k < |slots| && slots[k].Surf? && Find(RaiseSlots(slots, k), a) < |slots|
    ensures Find(slots, a) < |slots|
  {
    RaisedDistinct(slots, k);
    var q, used := Find(RaiseSlots(slots, k), a), UsedOnly(Without(slots, k));
    if q < |used| {
      WithoutDistinct(slots, k);
      assert used[q] in UsedOnly(Without(slots, k));
      var m :| 0 <= m < |slots| && slots[m] == used[q];
    } else {
      assert q == |used|;
    }
  }

  lemma RaiseSlotsOrder(slots: seq<Slot>, k: nat, a: nat, b: nat)
    requires DistinctIds(slots) && k < |slots| && slots[k].Surf?
    requires a < b < |slots| && a != k && b != k && slots[a].Surf? && slots[b].Surf?
    ensures Find(RaiseSlots(slots, k), slots[a].id) < Find(RaiseSlots(slots, k), slots[b].id)
  {
    RaisedPlace(slots, k, a);
    RaisedPlace(slots, k, b);
    WithoutAt(slots, k, Closed(a, k));
    UsedBeforeGrows(Without(slots, k), Closed(a, k), Closed(b, k));
  }

  lemma RaiseLayout(c: Comp, id: int, a: int, b: int)
    requires Wf(c) && Known(c, id)
    ensures var c' := Raise(c, id);
      && Wf(c') && c'.nextId == c.nextId && GeomKept(c, c', a) && (a != id && b != id ==> OrderKept(c, c', a, b))
      && Known(c', id) && GeomOf(c', id) == GeomOf(c, id)
      && (a != id && Known(c, a) ==> Z(c', a) < Z(c', id))
  {
    hide RaiseSlots, UsedOnly, Without;
    RaiseIsLocal(c, id);
    var k := Z(c, id);
    var r := RaiseSlots(c.slots, k);
    assert Raise(c, id).slots == r;
    RaisedDistinct(c.slots, k);
    FoundAt(r, |UsedOnly(Without(c.slots, k))|);
    if a != id && Known(c, a) { RaisedPlace(c.slots, k, Z(c, a)); }
    if Find(r, a) < |r| { RaiseOnlyKnown(c.slots, k, a); }
    if a != id && b != id && Known(c, a) && Known(c, b) {
      if Z(c, a) < Z(c, b) { RaiseSlotsOrder(c.slots, k, Z(c, a), Z(c, b)); }
      if Z(c, b) < Z(c, a) { RaiseSlotsOrder(c.slots, k, Z(c, b), Z(c, a)); }
    }
  }

  // ----- Operations ----------------------------------------------------------------------------

  /** wm_get: the index of a window, or |wins| when there is none. */
  function FindWin(wins: seq<Win>, id: int): (k: nat)
    ensures k <= |wins|
    ensures k < |wins| ==> wins[k].Win? && wins[k].id == id
    ensures forall m :: 0 <= m < k ==> !(wins[m].Win? && wins[m].id == id)
  {
    if wins == [] then 0
    else if wins[0].Win? && wins[0].id == id then 0
    else 1 + FindWin(wins[1..], id)
  }

  function FreeWin(wins: seq<Win>): (k: nat)
    ensures k <= |wins| && (k < |wins| ==> wins[k].NoWin?)
    ensures forall m :: 0 <= m < k ==> wins[m].Win?
  {
    if wins == [] then 0
    else if wins[0].NoWin? then 0
    else 1 + FreeWin(wins[1..])
  }

  predicate HasWin(s: Wm, id: int) {
    FindWin(s.wins, id) < |s.wins|
  }

  function WinOf(s: Wm, id: int): (w: Win)
    requires HasWin(s, id)
    ensures w.Win? && w.id == id && w in s.wins
  {
    s.wins[FindWin(s.wins, id)]
  }

  function SetWin(s: Wm, id: int, w: Win): Wm
    requires HasWin(s, id)
  {
    s.(wins := s.wins[FindWin(s.wins, id) := w])
  }

  predicate Draws(op: Op) {
    OpOk(op) && (op.OpFill? || op.OpRect? || op.OpFillRect? || op.OpText?)
  }

  /** Drawing operations, one after the other. */
  function DrawAll(c: Comp, ops: seq<Op>): Comp
    requires forall op :: op in ops ==> Draws(op)
  {
    if ops == [] then c
    else
      assert ops[|ops| - 1] in ops;
      DrawOne(DrawAll(c, ops[..|ops| - 1]), ops[|ops| - 1])
  }

  function DrawOne(c: Comp, op: Op): Comp
    requires Draws(op)
  {
    if op.OpFill? then Scene.Fill(c, op.id, op.color)
    else if op.OpRect? then Scene.Outline(c, op.id, op.x, op.y, op.w, op.h, op.color)
    else if op.OpFillRect? then Scene.FillRect(c, op.id, op.x, op.y, op.w, op.h, op.color)
    else Scene.Text(c, op.font, op.id, op.x, op.y, op.str, op.color)
  }

  /** What wm_draw_frame draws: border, title bar and title, all on the frame surface. */
  function FrameOps(w: Win, focused: bool, look: Look): (ops: seq<Op>)
    requires w.Win? && FontOk(look.font)
    ensures forall op :: op in ops ==> Draws(op) && op.id == w.frame
  {
    [ OpFill(w.frame, w.bg),
      OpRect(w.frame, 0, 0, w.w, w.h, look.border),
      OpFillRect(w.frame, 1, 1, w.w - 2, TITLE_H - 1, if focused then look.titleFocus else look.titleUnfocus),
      OpText(look.font, w.frame, 3, 2, w.title, look.titleFg) ]
  }

  function DrawFrame(c: Comp, w: Win, focused: bool, look: Look): Comp
    requires w.Win? && FontOk(look.font)
  {
    DrawAll(c, FrameOps(w, focused, look))
  }

  /** wm_create; memF and memC say whether the two allocations succeed. */
  function CreateWin(s: Wm, title: seq<byte>, w: int, h: int, bg: Px, memF: bool, memC: bool): (Wm, int)
    requires FontOk(s.look.font)
  {
    var k := FreeWin(s.wins);
    if w <= TITLE_H + 4 || h <= TITLE_H + 4 || w > DIM_MAX || h > DIM_MAX || k == |s.wins| then (s, -1) else
    var (c1, fid) := Scene.Create(s.comp, w, h, memF);
    if fid < 0 then (s.(comp := c1), -1) else
    var (c2, cid) := Scene.Create(c1, w - 2, h - TITLE_H, memC);
    if cid < 0 then (s.(comp := Scene.Destroy(c2, fid)), -1) else
    var win := Win(s.nextId, fid, cid, 0, 0, w, h, false, bg, if |title| > 23 then title[..23] else title);
    var c3 := Scene.Fill(Scene.Move(c2, cid, 1, TITLE_H), cid, bg);
    (s.(wins := s.wins[k := win], nextId := s.nextId + 1, comp := DrawFrame(c3, win, false, s.look)), s.nextId)
  }

  function DestroyWin(s: Wm, id: int): Wm {
    if !HasWin(s, id) then s else
    var w := WinOf(s, id);
    SetWin(s, id, NoWin).(comp := Scene.Destroy(Scene.Destroy(s.comp, w.frame), w.client),
                          focus := if s.focus == id then -1 else s.focus,
                          drag := if s.drag == id then -1 else s.drag)
  }

  function Focus(s: Wm, id: int): Wm
    requires FontOk(s.look.font)
  {
    if !HasWin(s, id) || WinOf(s, id).minimized || s.focus == id then s else
    var w := WinOf(s, id);
    var c1 := if HasWin(s, s.focus) then DrawFrame(s.comp, WinOf(s, s.focus), false, s.look) else s.comp;
    s.(focus := id, comp := DrawFrame(Scene.Raise(Scene.Raise(c1, w.frame), w.client), w, true, s.look))
  }

  function MoveWin(s: Wm, id: int, x: int, y: int): Wm {
    if !HasWin(s, id) then s else
    var w := WinOf(s, id);
    SetWin(s, id, w.(x := x, y := y)).(comp := MovePair(s.comp, w, x, y))
  }

  function Grab(s: Wm, drag: int, dx: int, dy: int): Wm {
    s.(drag := drag, dragDx := dx, dragDy := dy)
  }

  function DragStart(s: Wm, id: int, x: int, y: int): Wm
    requires FontOk(s.look.font)
  {
    if !HasWin(s, id) || WinOf(s, id).minimized then Grab(s, -1, s.dragDx, s.dragDy) else
    Focus(Grab(s, id, x - WinOf(s, id).x, y - WinOf(s, id).y), id)
  }

  function DragTo(s: Wm, x: int, y: int): Wm {
    if s.drag < 0 then s
    else if !HasWin(s, s.drag) then s.(drag := -1)
    else MoveWin(s, s.drag, x - s.dragDx, y - s.dragDy)
  }

  function DragEnd(s: Wm): Wm {
    s.(drag := -1)
  }

  /** wm_resize: the frame first, then the client. */
  function ResizeWin(s: Wm, id: int, w: int, h: int, memF: bool, memC: bool): (Wm, int)
    requires FontOk(s.look.font)
  {
    if !HasWin(s, id) || w <= TITLE_H + 4 || h <= TITLE_H + 4 || w > DIM_MAX || h > DIM_MAX then (s, -1) else
    var win := WinOf(s, id);
    var (c1, r1) := Scene.Resize(s.comp, win.frame, w, h, memF);
    if r1 != 0 then (s.(comp := c1), -1) else
    var (c2, r2) := Scene.Resize(c1, win.client, w - 2, h - TITLE_H, memC);
    if r2 != 0 then (s.(comp := c2), -1) else
    var win' := win.(w := w, h := h);
    var c3 := Scene.Move(c2, win.client, win.x + 1, win.y + TITLE_H);
    (SetWin(s, id, win').(comp := DrawFrame(c3, win', id == s.focus, s.look)), 0)
  }

  function Minimize(s: Wm, id: int): Wm {
    if !HasWin(s, id) || WinOf(s, id).minimized then s else
    var w := WinOf(s, id);
    SetWin(s, id, w.(minimized := true)).(
      comp := Scene.SetVisible(Scene.SetVisible(s.comp, w.frame, false), w.client, false),
      focus := if s.focus == id then -1 else s.focus)
  }

  function Restore(s: Wm, id: int): Wm
    requires FontOk(s.look.font)
  {
    if !HasWin(s, id) || !WinOf(s, id).minimized then s else
    var w := WinOf(s, id);
    Focus(SetWin(s, id, w.(minimized := false)).(
            comp := Scene.SetVisible(Scene.SetVisible(s.comp, w.frame, true), w.client, true)), id)
  }

  // ----- The invariant ---------------------------------------------------------------------------

  /** A window's two surfaces are where, as large and as visible as they should
      be, and the client is above its frame. */
  predicate WinOk(c: Comp, w: Win)
    requires w.Win?
  {
    && Known(c, w.frame) && Known(c, w.client) && w.frame != w.client
    && GeomOf(c, w.frame) == Geom(w.x, w.y, w.w, w.h, !w.minimized, true)
    && GeomOf(c, w.client) == Geom(w.x + 1, w.y + TITLE_H, w.w - 2, w.h - TITLE_H, !w.minimized, true)
    && Z(c, w.frame) < Z(c, w.client)
    && TITLE_H + 4 < w.w <= DIM_MAX && TITLE_H + 4 < w.h <= DIM_MAX
  }

  predicate Disjoint(v: Win, w: Win)
    requires v.Win? && w.Win?
  {
    v.id != w.id && v.frame != w.frame && v.frame != w.client && v.client != w.frame && v.client != w.client
  }

  predicate Inv(s: Wm) {
    && |s.wins| == WM_MAX && Wf(s.comp) && FontOk(s.look.font) && 0 < s.nextId
    && (forall k :: 0 <= k < WM_MAX && s.wins[k].Win? ==> WinOk(s.comp, s.wins[k]) && 0 < s.wins[k].id < s.nextId)
    && (forall k, m :: 0 <= k < m < WM_MAX && s.wins[k].Win? && s.wins[m].Win? ==> Disjoint(s.wins[k], s.wins[m]))
    && (s.focus == -1 || (HasWin(s, s.focus) && !WinOf(s, s.focus).minimized))
  }

  /** A window whose surfaces and their order are kept stays in order. */
  lemma WinKept(c: Comp, c': Comp, w: Win)
    requires w.Win? && WinOk(c, w) && GeomKept(c, c', w.frame) && GeomKept(c, c', w.client)
    requires OrderKept(c, c', w.frame, w.client)
    ensures WinOk(c', w)
  {
  }

  lemma LayoutKeepsWin(c: Comp, c': Comp, w: Win)
    requires w.Win? && WinOk(c, w) && SameLayout(c, c')
    ensures WinOk(c', w)
  {
    LayoutKept(c, c', w.frame);
    LayoutKept(c, c', w.client);
  }

  lemma LayoutTrans(a: Comp, b: Comp, c: Comp)
    requires SameLayout(a, b) && SameLayout(b, c)
    ensures SameLayout(a, c)
  {
  }

  lemma DrawOneLayout(c: Comp, op: Op)
    requires Wf(c) && Draws(op)
    ensures Wf(DrawOne(c, op)) && SameLayout(c, DrawOne(c, op))
  {
    hide Wf, SameLayout, Scene.Fill, Scene.FillRect, Scene.Outline, Scene.Text;
    ChangeKeepsWf(c, op);
    assert Change(c, op) == DrawOne(c, op);
    DrawOpLayout(c, op);
  }

  lemma {:induction false} DrawAllLayout(c: Comp, ops: seq<Op>)
    requires Wf(c) && forall op :: op in ops ==> Draws(op)
    ensures Wf(DrawAll(c, ops)) && SameLayout(c, DrawAll(c, ops))
  {
    if ops != [] {
      var n := |ops| - 1;
      var before := DrawAll(c, ops[..n]);
      DrawAllLayout(c, ops[..n]);
      assert ops[n] in ops;
      DrawOneLayout(before, ops[n]);
      LayoutTrans(c, before, DrawOne(before, ops[n]));
    }
  }

  lemma DrawFrameLayout(c: Comp, w: Win, focused: bool, look: Look)
    requires Wf(c) && w.Win? && FontOk(look.font)
    ensures Wf(DrawFrame(c, w, focused, look)) && SameLayout(c, DrawFrame(c, w, focused, look))
  {
    DrawAllLayout(c, FrameOps(w, focused, look));
  }

  lemma DrawOpLayout(c: Comp, op: Op)
    requires Wf(c) && Draws(op)
    ensures SameLayout(c, Change(c, op))
  {
    var k := Find(c.slots, op.id);
    if Known(c, op.id) {
      match op
      case OpFill(id, color) => DrawLayout(c, Change(c, op), k, RectPts(0, 0, c.slots[k].w, c.slots[k].h), color);
      case OpFillRect(id, x, y, w, h, color) => DrawLayout(c, Change(c, op), k, RectPts(x, y, w, h), color);
      case OpRect(id, x, y, w, h, color) =>
        DrawLayout(c, Change(c, op), k, if w <= 0 || h <= 0 then {} else BorderPts(x, y, w, h), color);
      case OpText(font, id, x, y, str, color) => DrawLayout(c, Change(c, op), k, TextPts(font, x, y, str), color);
    }
  }

  lemma RedrawLayout(c: Comp, op: Op)
    requires Wf(c) && Redraws(op)
    ensures SameLayout(c, Change(c, op))
  {
    hide Stamp, Clip, Hull, Wf;
    if Draws(op) { DrawOpLayout(c, op); } else { DamageOpLayout(c, op); }
  }

  lemma DamageOpLayout(c: Comp, op: Op)
    requires Wf(c) && (op.OpDamage? || op.OpDamageAll? || op.OpPaint?)
    ensures SameLayout(c, Change(c, op))
  {
    hide Clip, Hull, Wf;
  }

  // ----- Each operation keeps the invariant ------------------------------------------------------

  /** Replacing the compositor by one in which every window is still in order. */
  lemma CompKeepsInv(s: Wm, c: Comp)
    requires Inv(s) && Wf(c)
    requires forall k :: 0 <= k < WM_MAX && s.wins[k].Win? ==> WinOk(c, s.wins[k])
    ensures Inv(s.(comp := c))
  {
  }

  lemma DrawFrameKeepsInv(s: Wm, w: Win, focused: bool)
    requires Inv(s) && w.Win?
    ensures Inv(s.(comp := DrawFrame(s.comp, w, focused, s.look)))
  {
    var c := DrawFrame(s.comp, w, focused, s.look);
    DrawFrameLayout(s.comp, w, focused, s.look);
    forall k | 0 <= k < WM_MAX && s.wins[k].Win?
      ensures WinOk(c, s.wins[k])
    {
      LayoutKeepsWin(s.comp, c, s.wins[k]);
    }
  }

  lemma MoveKeepsInv(s: Wm, id: int, x: int, y: int)
    requires Inv(s)
    ensures Inv(MoveWin(s, id, x, y))
  {
    hide WinOk, Wf, Scene.Move;
    if HasWin(s, id) {
      var j, w := FindWin(s.wins, id), WinOf(s, id);
      var c := MovePair(s.comp, w, x, y);
      MovePairOk(s.comp, w, x, y);
      forall k | 0 <= k < WM_MAX && s.wins[k].Win? && k != j
        ensures WinOk(c, s.wins[k])
      {
        assert Disjoint(s.wins[k], w);
        MovePairKeeps(s.comp, w, x, y, s.wins[k]);
      }
      WinsInv(s, MoveWin(s, id, x, y), j);
    }
  }

  /** Both surfaces of a window moved. */
  function MovePair(c: Comp, w: Win, x: int, y: int): Comp
    requires w.Win?
  {
    Scene.Move(Scene.Move(c, w.frame, x, y), w.client, x + 1, y + TITLE_H)
  }

  lemma MovePairOk(c: Comp, w: Win, x: int, y: int)
    requires Wf(c) && w.Win? && WinOk(c, w)
    ensures Wf(MovePair(c, w, x, y)) && WinOk(MovePair(c, w, x, y), w.(x := x, y := y))
  {
    hide Wf, Scene.Move;
    MoveLayout(c, w.frame, x, y, w.client, w.frame);
    MoveLayout(Scene.Move(c, w.frame, x, y), w.client, x + 1, y + TITLE_H, w.frame, w.client);
  }

  lemma MovePairKeeps(c: Comp, w: Win, x: int, y: int, v: Win)
    requires Wf(c) && w.Win? && WinOk(c, w) && v.Win? && WinOk(c, v) && Disjoint(v, w)
    ensures WinOk(MovePair(c, w, x, y), v)
  {
    hide Wf, Scene.Move;
    MoveLayout(c, w.frame, x, y, w.client, w.frame);
    MoveKeepsOther(c, w.frame, x, y, v);
    MoveKeepsOther(Scene.Move(c, w.frame, x, y), w.client, x + 1, y + TITLE_H, v);
  }

  /** Only window j and the compositor change. */
  lemma WinsInv(s: Wm, s': Wm, j: nat)
    requires Inv(s) && j < WM_MAX && s.wins[j].Win? && |s'.wins| == WM_MAX && Wf(s'.comp)
    requires s'.wins == s.wins[j := s'.wins[j]] && s'.look == s.look && s'.nextId == s.nextId
    requires s'.wins[j].Win? ==> s'.wins[j].id == s.wins[j].id && s'.wins[j].frame == s.wins[j].frame
    requires s'.wins[j].Win? ==> s'.wins[j].client == s.wins[j].client
    requires s'.wins[j].Win? ==> WinOk(s'.comp, s'.wins[j])
    requires forall k :: 0 <= k < WM_MAX && k != j && s.wins[k].Win? ==> WinOk(s'.comp, s.wins[k])
    requires s'.focus == -1
          || (s'.focus == s.focus && (s.focus != s.wins[j].id || (s'.wins[j].Win? && !s'.wins[j].minimized)))
    ensures Inv(s')
  {
    hide WinOk, Wf;
    forall k, m | 0 <= k < m < WM_MAX && s'.wins[k].Win? && s'.wins[m].Win?
      ensures Disjoint(s'.wins[k], s'.wins[m])
    {
      assert Disjoint(s.wins[k], s.wins[m]);
    }
    if s'.focus != -1 {
      var f := FindWin(s.wins, s.focus);
      FindWinAt(s', f);
    }
  }

  lemma FindWinAt(s: Wm, k: nat)
    requires k < |s.wins| && s.wins[k].Win?
    requires forall a, b :: 0 <= a < b < |s.wins| && s.wins[a].Win? && s.wins[b].Win? ==> Disjoint(s.wins[a], s.wins[b])
    ensures FindWin(s.wins, s.wins[k].id) == k
  {
    var m := FindWin(s.wins, s.wins[k].id);
    assert m < k ==> Disjoint(s.wins[m], s.wins[k]);
  }

  lemma MinimizeKeepsInv(s: Wm, id: int)
    requires Inv(s)
    ensures Inv(Minimize(s, id))
  {
    if HasWin(s, id) && !WinOf(s, id).minimized {
      ShowKeepsInv(s, id, false, if s.focus == id then -1 else s.focus);
    }
  }

  /** Both surfaces of a window shown or hidden. */
  lemma ShowKeepsInv(s: Wm, id: int, v: bool, focus: int)
    requires Inv(s) && HasWin(s, id) && (focus == -1 || (focus == s.focus && (v || focus != id)))
    ensures var w := WinOf(s, id);
      Inv(SetWin(s, id, w.(minimized := !v)).(
            comp := Scene.SetVisible(Scene.SetVisible(s.comp, w.frame, v), w.client, v), focus := focus))
  {
    hide GeomOf, Find, Known, Wf, SetVisible;
    var j, w := FindWin(s.wins, id), WinOf(s, id);
    var c1 := Scene.SetVisible(s.comp, w.frame, v);
    SetVisibleLayout(s.comp, w.frame, v, w.client, w.frame);
    var c2 := Scene.SetVisible(c1, w.client, v);
    SetVisibleLayout(c1, w.client, v, w.frame, w.client);
    forall k | 0 <= k < WM_MAX && s.wins[k].Win? && k != j
      ensures WinOk(c2, s.wins[k])
    {
      var u := s.wins[k];
      assert Disjoint(u, w);
      SetVisibleLayout(s.comp, w.frame, v, u.frame, u.client);
      SetVisibleLayout(s.comp, w.frame, v, u.client, u.frame);
      SetVisibleLayout(c1, w.client, v, u.frame, u.client);
      SetVisibleLayout(c1, w.client, v, u.client, u.frame);
    }
    WinsInv(s, SetWin(s, id, w.(minimized := !v)).(comp := c2, focus := focus), j);
  }

  /** Raising a window's frame, then its client. */
  lemma RaiseWinKeepsInv(s: Wm, id: int)
    requires Inv(s) && HasWin(s, id)
    ensures var w := WinOf(s, id);
      var c := Scene.Raise(Scene.Raise(s.comp, w.frame), w.client);
      Inv(s.(comp := c)) && forall a :: a != w.client && Known(c, a) ==> Z(c, a) < Z(c, w.client)
  {
    hide Scene.Raise, Wf, FindWin;
    var j, w := FindWin(s.wins, id), WinOf(s, id);
    var c1 := Scene.Raise(s.comp, w.frame);
    RaiseLayout(s.comp, w.frame, w.client, w.frame);
    var c2 := Scene.Raise(c1, w.client);
    RaiseLayout(c1, w.client, w.frame, w.client);
    forall k | 0 <= k < WM_MAX && s.wins[k].Win?
      ensures WinOk(c2, s.wins[k])
    {
      if k != j {
        assert Disjoint(s.wins[k], w);
        RaiseKeepsOther(s.comp, w.frame, s.wins[k]);
        RaiseKeepsOther(c1, w.client, s.wins[k]);
      }
    }
    forall a | a != w.client && Known(c2, a)
      ensures Z(c2, a) < Z(c2, w.client)
    {
      RaiseLayout(c1, w.client, a, a);
    }
  }

  /** Fields the invariant does not speak of, and a valid new focus. */
  lemma FieldsKeepInv(s: Wm, focus: int, drag: int, dx: int, dy: int)
    requires Inv(s) && (focus == s.focus || (HasWin(s, focus) && !WinOf(s, focus).minimized))
    ensures Inv(s.(focus := focus, drag := drag, dragDx := dx, dragDy := dy))
  {
  }

  /** The two raises of wm_focus and the redrawn frame around them. */
  lemma BringUpKeepsInv(s: Wm, id: int)
    requires Inv(s) && HasWin(s, id)
    ensures var w := WinOf(s, id);
      Inv(s.(comp := DrawFrame(Scene.Raise(Scene.Raise(s.comp, w.frame), w.client), w, true, s.look)))
  {
    var w := WinOf(s, id);
    RaiseWinKeepsInv(s, id);
    DrawFrameKeepsInv(s.(comp := Scene.Raise(Scene.Raise(s.comp, w.frame), w.client)), w, true);
  }

  /** wm_focus keeps the invariant and leaves the window focused. */
  lemma FocusKeepsInv(s: Wm, id: int)
    requires Inv(s)
    ensures Inv(Focus(s, id)) && Focus(s, id).wins == s.wins
    ensures HasWin(s, id) && !WinOf(s, id).minimized ==> Focus(s, id).focus == id
  {
    if HasWin(s, id) && !WinOf(s, id).minimized && s.focus != id {
      var w := WinOf(s, id);
      var s1 := s;
      if HasWin(s, s.focus) {
        DrawFrameKeepsInv(s, WinOf(s, s.focus), false);
        s1 := s.(comp := DrawFrame(s.comp, WinOf(s, s.focus), false, s.look));
      }
      BringUpKeepsInv(s1, id);
      FieldsKeepInv(s1.(comp := DrawFrame(Scene.Raise(Scene.Raise(s1.comp, w.frame), w.client), w, true, s.look)),
                    id, s.drag, s.dragDx, s.dragDy);
    }
  }

  lemma GrabAndFocus(s: Wm, d: Wm, id: int, dx: int, dy: int)
    requires Inv(s) && HasWin(s, id) && d == Focus(Grab(s, id, dx, dy), id)
    ensures Inv(d)
  {
    GrabKeepsInv(s, id, dx, dy);
    FocusKeepsInv(Grab(s, id, dx, dy), id);
  }

  lemma DragStartGrabs(s: Wm, id: int, x: int, y: int)
    requires Inv(s) && HasWin(s, id) && !WinOf(s, id).minimized
    ensures Inv(DragStart(s, id, x, y))
  {
    hide WinOk, Disjoint, Wf, Focus;
    GrabAndFocus(s, DragStart(s, id, x, y), id, x - WinOf(s, id).x, y - WinOf(s, id).y);
  }

  lemma DragStartMisses(s: Wm, id: int, x: int, y: int)
    requires Inv(s) && (!HasWin(s, id) || WinOf(s, id).minimized)
    ensures Inv(DragStart(s, id, x, y))
  {
    GrabKeepsInv(s, -1, s.dragDx, s.dragDy);
  }

  lemma DragStartKeepsInv(s: Wm, id: int, x: int, y: int)
    requires Inv(s)
    ensures Inv(DragStart(s, id, x, y))
  {
    if HasWin(s, id) && !WinOf(s, id).minimized {
      DragStartGrabs(s, id, x, y);
    } else {
      DragStartMisses(s, id, x, y);
    }
  }

  lemma GrabKeepsInv(s: Wm, drag: int, dx: int, dy: int)
    requires Inv(s)
    ensures Inv(Grab(s, drag, dx, dy))
  {
    FieldsKeepInv(s, s.focus, drag, dx, dy);
  }

  lemma RestoreKeepsInv(s: Wm, id: int)
    requires Inv(s)
    ensures Inv(Restore(s, id))
  {
    if HasWin(s, id) && WinOf(s, id).minimized {
      ShowKeepsInv(s, id, true, s.focus);
      var w := WinOf(s, id);
      FocusKeepsInv(SetWin(s, id, w.(minimized := false)).(
        comp := Scene.SetVisible(Scene.SetVisible(s.comp, w.frame, true), w.client, true)), id);
    }
  }

  lemma DestroyKeepsInv(s: Wm, id: int)
    requires Inv(s)
    ensures Inv(DestroyWin(s, id))
  {
    if HasWin(s, id) {
      var j, w := FindWin(s.wins, id), WinOf(s, id);
      var c1 := Scene.Destroy(s.comp, w.frame);
      DestroyLayout(s.comp, w.frame, w.client, w.client);
      var c2 := Scene.Destroy(c1, w.client);
      DestroyLayout(c1, w.client, w.client, w.client);
      forall k | 0 <= k < WM_MAX && s.wins[k].Win? && k != j
        ensures WinOk(c2, s.wins[k])
      {
        var u := s.wins[k];
        assert Disjoint(u, w);
        DestroyLayout(s.comp, w.frame, u.frame, u.client);
        DestroyLayout(s.comp, w.frame, u.client, u.frame);
        DestroyLayout(c1, w.client, u.frame, u.client);
        DestroyLayout(c1, w.client, u.client, u.frame);
      }
      WinsInv(s, DestroyWin(s, id), j);
    }
  }

  lemma DragToKeepsInv(s: Wm, x: int, y: int)
    requires Inv(s)
    ensures Inv(DragTo(s, x, y))
  {
    hide Inv, MoveWin;
    if s.drag >= 0 {
      MoveKeepsInv(s, s.drag, x - s.dragDx, y - s.dragDy);
      GrabKeepsInv(s, -1, s.dragDx, s.dragDy);
    }
  }

  /** Two surfaces created one after the other: the second is above the first. */
  lemma NewPair(c: Comp, c1: Comp, fid: int, c2: Comp, cid: int, w: int, h: int)
    requires Wf(c) && TITLE_H + 4 < w <= DIM_MAX && TITLE_H + 4 < h <= DIM_MAX
    requires (c1, fid) == Scene.Create(c, w, h, true) && fid >= 0
    requires (c2, cid) == Scene.Create(c1, w - 2, h - TITLE_H, true) && cid >= 0
    ensures Wf(c2) && fid == c.nextId && cid == fid + 1 && c2.nextId == cid + 1
    ensures Known(c2, fid) && GeomOf(c2, fid) == Geom(0, 0, w, h, true, true)
    ensures Known(c2, cid) && GeomOf(c2, cid) == Geom(0, 0, w - 2, h - TITLE_H, true, true)
    ensures Z(c2, fid) < Z(c2, cid)
  {
    hide Create, Wf, GeomOf, Find, FirstFree;
    CreateLayout(c, w, h, fid, fid);
    CreateLayout(c1, w - 2, h - TITLE_H, fid, cid);
    NextFree(c, w, h);
  }

  lemma NextFree(c: Comp, w: nat, h: nat)
    requires Wf(c) && Create(c, w, h, true).1 >= 0
    ensures FirstFree(c.slots) < FirstFree(Create(c, w, h, true).0.slots)
  {
    var slots := Create(c, w, h, true).0.slots;
    assert forall m :: 0 <= m <= FirstFree(c.slots) ==> slots[m].Surf?;
  }

  lemma WinIsOlder(c: Comp, v: Win)
    requires Wf(c) && v.Win? && WinOk(c, v)
    ensures v.frame < c.nextId && v.client < c.nextId
  {
  }

  /** ... and neither disturbs another window. */
  lemma NewPairKeeps(c: Comp, c1: Comp, fid: int, c2: Comp, cid: int, w: int, h: int, v: Win)
    requires Wf(c) && TITLE_H + 4 < w <= DIM_MAX && TITLE_H + 4 < h <= DIM_MAX
    requires (c1, fid) == Scene.Create(c, w, h, true) && fid >= 0
    requires (c2, cid) == Scene.Create(c1, w - 2, h - TITLE_H, true) && cid >= 0
    requires v.Win? && WinOk(c, v)
    ensures WinOk(c2, v) && v.frame < fid && v.client < fid
  {
    hide Create, Wf, WinOk, GeomKept, OrderKept, Known;
    WinIsOlder(c, v);
    CreateLayout(c, w, h, v.frame, v.client);
    CreateLayout(c, w, h, v.client, v.frame);
    WinKept(c, c1, v);
    CreateLayout(c1, w - 2, h - TITLE_H, v.frame, v.client);
    CreateLayout(c1, w - 2, h - TITLE_H, v.client, v.frame);
    WinKept(c1, c2, v);
  }

  /** A frame created and, the client having failed, destroyed again. */
  lemma AbandonedFrameKeeps(c: Comp, c1: Comp, fid: int, w: nat, h: nat, v: Win)
    requires Wf(c) && (c1, fid) == Scene.Create(c, w, h, true) && fid >= 0
    requires v.Win? && WinOk(c, v)
    ensures Wf(c1) && Known(c1, fid) && WinOk(c1, v) && v.frame < fid && v.client < fid
    ensures WinOk(Scene.Destroy(c1, fid), v)
  {
    CreateLayout(c, w, h, v.frame, v.client);
    CreateLayout(c, w, h, v.client, v.frame);
    WinKept(c, c1, v);
    DestroyLayout(c1, fid, v.frame, v.client);
    DestroyLayout(c1, fid, v.client, v.frame);
  }

  lemma AbandonedFrameKeepsInv(s: Wm, c1: Comp, fid: int, w: nat, h: nat)
    requires Inv(s) && (c1, fid) == Scene.Create(s.comp, w, h, true) && fid >= 0
    ensures Inv(s.(comp := Scene.Destroy(c1, fid)))
  {
    CreateLayout(s.comp, w, h, fid, fid);
    DestroyLayout(c1, fid, fid, fid);
    forall k | 0 <= k < WM_MAX && s.wins[k].Win?
      ensures WinOk(Scene.Destroy(c1, fid), s.wins[k])
    {
      AbandonedFrameKeeps(s.comp, c1, fid, w, h, s.wins[k]);
    }
    CompKeepsInv(s, Scene.Destroy(c1, fid));
  }

  /** A new window in slot k whose surfaces are newer than all others. */
  lemma AddWinKeepsInv(s: Wm, c: Comp, k: nat, win: Win)
    requires Inv(s) && k < WM_MAX && s.wins[k].NoWin? && Wf(c)
    requires win.Win? && win.id == s.nextId && WinOk(c, win)
    requires forall m :: 0 <= m < WM_MAX && s.wins[m].Win? ==>
               WinOk(c, s.wins[m]) && s.wins[m].frame < win.frame && s.wins[m].client < win.frame
    requires win.frame < win.client
    ensures Inv(s.(wins := s.wins[k := win], nextId := s.nextId + 1, comp := c))
  {
    hide WinOk, Wf;
    var s' := s.(wins := s.wins[k := win], nextId := s.nextId + 1, comp := c);
    forall a, b | 0 <= a < b < WM_MAX && s'.wins[a].Win? && s'.wins[b].Win?
      ensures Disjoint(s'.wins[a], s'.wins[b])
    {
      if a != k && b != k { assert Disjoint(s.wins[a], s.wins[b]); }
    }
    if s.focus != -1 {
      FindWinAt(s', FindWin(s.wins, s.focus));
    }
  }

  /** The new window's client filled and its frame drawn. */
  function Decorate(c: Comp, win: Win, look: Look): Comp
    requires win.Win? && FontOk(look.font)
  {
    DrawFrame(Scene.Fill(c, win.client, win.bg), win, false, look)
  }

  lemma DecorateLayout(c: Comp, win: Win, look: Look)
    requires Wf(c) && win.Win? && FontOk(look.font)
    ensures Wf(Decorate(c, win, look)) && SameLayout(c, Decorate(c, win, look))
  {
    var c1 := Scene.Fill(c, win.client, win.bg);
    DrawOneLayout(c, OpFill(win.client, win.bg));
    DrawFrameLayout(c1, win, false, look);
    LayoutTrans(c, c1, Decorate(c, win, look));
  }

  lemma NewWinOk(c: Comp, c1: Comp, c2: Comp, win: Win)
    requires Wf(c) && win.Win?
    requires TITLE_H + 4 < win.w <= DIM_MAX && TITLE_H + 4 < win.h <= DIM_MAX && win.x == win.y == 0 && !win.minimized
    requires (c1, win.frame) == Scene.Create(c, win.w, win.h, true) && win.frame >= 0
    requires (c2, win.client) == Scene.Create(c1, win.w - 2, win.h - TITLE_H, true) && win.client >= 0
    ensures Wf(Scene.Move(c2, win.client, 1, TITLE_H)) && win.frame < win.client
    ensures WinOk(Scene.Move(c2, win.client, 1, TITLE_H), win)
  {
    hide Create, Scene.Move, Wf, Find;
    NewPair(c, c1, win.frame, c2, win.client, win.w, win.h);
    MoveLayout(c2, win.client, 1, TITLE_H, win.frame, win.client);
  }

  lemma NewWinKeepsOther(c: Comp, c1: Comp, c2: Comp, win: Win, v: Win)
    requires Wf(c) && win.Win? && TITLE_H + 4 < win.w <= DIM_MAX && TITLE_H + 4 < win.h <= DIM_MAX
    requires (c1, win.frame) == Scene.Create(c, win.w, win.h, true) && win.frame >= 0
    requires (c2, win.client) == Scene.Create(c1, win.w - 2, win.h - TITLE_H, true) && win.client >= 0
    requires v.Win? && WinOk(c, v)
    ensures WinOk(Scene.Move(c2, win.client, 1, TITLE_H), v) && v.frame < win.frame && v.client < win.frame
  {
    hide Create, Scene.Move, Wf, WinOk, Known;
    NewPair(c, c1, win.frame, c2, win.client, win.w, win.h);
    NewPairKeeps(c, c1, win.frame, c2, win.client, win.w, win.h, v);
    MoveKeepsOther(c2, win.client, 1, TITLE_H, v);
  }

  lemma NewWinKeepsInv(s: Wm, c1: Comp, c2: Comp, k: nat, win: Win)
    requires Inv(s) && k < WM_MAX && s.wins[k].NoWin? && win.Win? && win.id == s.nextId
    requires TITLE_H + 4 < win.w <= DIM_MAX && TITLE_H + 4 < win.h <= DIM_MAX && win.x == win.y == 0 && !win.minimized
    requires (c1, win.frame) == Scene.Create(s.comp, win.w, win.h, true) && win.frame >= 0
    requires (c2, win.client) == Scene.Create(c1, win.w - 2, win.h - TITLE_H, true) && win.client >= 0
    ensures Inv(s.(wins := s.wins[k := win], nextId := s.nextId + 1,
                   comp := Decorate(Scene.Move(c2, win.client, 1, TITLE_H), win, s.look)))
  {
    var c3 := Scene.Move(c2, win.client, 1, TITLE_H);
    NewWinOk(s.comp, c1, c2, win);
    DecorateLayout(c3, win, s.look);
    var c := Decorate(c3, win, s.look);
    LayoutKeepsWin(c3, c, win);
    forall m | 0 <= m < WM_MAX && s.wins[m].Win?
      ensures WinOk(c, s.wins[m]) && s.wins[m].frame < win.frame && s.wins[m].client < win.frame
    {
      NewWinKeepsOther(s.comp, c1, c2, win, s.wins[m]);
      LayoutKeepsWin(c3, c, s.wins[m]);
    }
    AddWinKeepsInv(s, c, k, win);
  }

  /** A surface that could not be made leaves the compositor alone. */
  lemma NoSurface(c: Comp, w: nat, h: nat, mem: bool)
    requires Wf(c) && Scene.Create(c, w, h, mem).1 < 0
    ensures Scene.Create(c, w, h, mem).0 == c
  {
  }

  /** One that could be made is made with memory. */
  lemma CreatedMem(c: Comp, w: nat, h: nat, mem: bool)
    requires Scene.Create(c, w, h, mem).1 >= 0
    ensures Scene.Create(c, w, h, true) == Scene.Create(c, w, h, mem)
  {
  }

  lemma CreateKeepsInv(s: Wm, title: seq<byte>, w: int, h: int, bg: Px, memF: bool, memC: bool)
    requires Inv(s)
    ensures Inv(CreateWin(s, title, w, h, bg, memF, memC).0)
  {
    hide WinOk, Disjoint, Wf, Scene.Create, Scene.Destroy, Scene.Move, Scene.Fill, DrawFrame;
    var k := FreeWin(s.wins);
    if TITLE_H + 4 < w <= DIM_MAX && TITLE_H + 4 < h <= DIM_MAX && k < |s.wins| {
      var (c1, fid) := Scene.Create(s.comp, w, h, memF);
      if fid < 0 {
        NoSurface(s.comp, w, h, memF);
      } else {
        CreatedMem(s.comp, w, h, memF);
        CreateLayout(s.comp, w, h, fid, fid);
        var (c2, cid) := Scene.Create(c1, w - 2, h - TITLE_H, memC);
        if cid < 0 {
          NoSurface(c1, w - 2, h - TITLE_H, memC);
          AbandonedFrameKeepsInv(s, c1, fid, w, h);
        } else {
          CreatedMem(c1, w - 2, h - TITLE_H, memC);
          var win := Win(s.nextId, fid, cid, 0, 0, w, h, false, bg, if |title| > 23 then title[..23] else title);
          NewWinKeepsInv(s, c1, c2, k, win);
        }
      }
    }
  }

  // ----- Resizing, and what an allocation failure does --------------------------------------------

  lemma ResizeKeepsOther(c: Comp, id: int, w: nat, h: nat, v: Win)
    requires Wf(c) && Known(c, id) && SizeOk(w, h) && v.Win? && WinOk(c, v) && v.frame != id && v.client != id
    ensures WinOk(Scene.Resize(c, id, w, h, true).0, v)
  {
    ResizeLayout(c, id, w, h, v.frame, v.client);
    ResizeLayout(c, id, w, h, v.client, v.frame);
  }

  lemma AreaShrinks(w: int, h: int)
    requires TITLE_H + 4 < w && TITLE_H + 4 < h && w * h <= AREA_MAX
    ensures 0 <= (w - 2) * (h - TITLE_H) <= AREA_MAX
  {
    assert (w - 2) * (h - TITLE_H) == w * h - TITLE_H * w - 2 * (h - TITLE_H);
    assert (w - 2) * (h - TITLE_H) >= 0;
  }

  function ResizeTwo(c: Comp, win: Win, w: int, h: int): Comp
    requires win.Win? && TITLE_H + 4 < w && TITLE_H + 4 < h
  {
    Scene.Resize(Scene.Resize(c, win.frame, w, h, true).0, win.client, w - 2, h - TITLE_H, true).0
  }

  /** Both surfaces resized and the client moved. */
  function ResizePair(c: Comp, win: Win, w: int, h: int): Comp
    requires win.Win? && TITLE_H + 4 < w && TITLE_H + 4 < h
  {
    Scene.Move(ResizeTwo(c, win, w, h), win.client, win.x + 1, win.y + TITLE_H)
  }

  lemma ResizePairOk(c: Comp, win: Win, w: int, h: int)
    requires Wf(c) && win.Win? && WinOk(c, win)
    requires TITLE_H + 4 < w <= DIM_MAX && TITLE_H + 4 < h <= DIM_MAX && w * h <= AREA_MAX
    ensures Wf(ResizePair(c, win, w, h)) && WinOk(ResizePair(c, win, w, h), win.(w := w, h := h))
  {
    hide Resize, Move, Wf, Find, Known;
    AreaShrinks(w, h);
    var c1 := Scene.Resize(c, win.frame, w, h, true).0;
    ResizeLayout(c, win.frame, w, h, win.client, win.frame);
    var c2 := Scene.Resize(c1, win.client, w - 2, h - TITLE_H, true).0;
    ResizeLayout(c1, win.client, w - 2, h - TITLE_H, win.frame, win.client);
    MoveLayout(c2, win.client, win.x + 1, win.y + TITLE_H, win.frame, win.client);
  }

  lemma ResizeTwoKeeps(c: Comp, win: Win, w: int, h: int, v: Win)
    requires Wf(c) && win.Win? && WinOk(c, win) && v.Win? && WinOk(c, v) && Disjoint(v, win)
    requires TITLE_H + 4 < w <= DIM_MAX && TITLE_H + 4 < h <= DIM_MAX && w * h <= AREA_MAX
    ensures Wf(ResizeTwo(c, win, w, h)) && Known(ResizeTwo(c, win, w, h), win.client)
            && WinOk(ResizeTwo(c, win, w, h), v)
  {
    hide Resize, Wf, GeomOf, Find, Known;
    AreaShrinks(w, h);
    var c1 := Scene.Resize(c, win.frame, w, h, true).0;
    ResizeLayout(c, win.frame, w, h, win.client, win.frame);
    ResizeKeepsOther(c, win.frame, w, h, v);
    ResizeLayout(c1, win.client, w - 2, h - TITLE_H, win.frame, win.client);
    ResizeKeepsOther(c1, win.client, w - 2, h - TITLE_H, v);
  }

  lemma ResizePairKeeps(c: Comp, win: Win, w: int, h: int, v: Win)
    requires Wf(c) && win.Win? && WinOk(c, win) && v.Win? && WinOk(c, v) && Disjoint(v, win)
    requires TITLE_H + 4 < w <= DIM_MAX && TITLE_H + 4 < h <= DIM_MAX && w * h <= AREA_MAX
    ensures WinOk(ResizePair(c, win, w, h), v)
  {
    hide Wf, WinOk, GeomOf, Find, Known, Resize, Move;
    ResizeTwoKeeps(c, win, w, h, v);
    MoveKeepsOther(ResizeTwo(c, win, w, h), win.client, win.x + 1, win.y + TITLE_H, v);
  }

  lemma MoveKeepsOther(c: Comp, id: int, x: int, y: int, v: Win)
    requires Wf(c) && Known(c, id) && v.Win? && WinOk(c, v) && v.frame != id && v.client != id
    ensures WinOk(Scene.Move(c, id, x, y), v)
  {
    MoveLayout(c, id, x, y, v.frame, v.client);
    MoveLayout(c, id, x, y, v.client, v.frame);
  }

  lemma ResizePairKeepsInv(s: Wm, id: int, w: int, h: int)
    requires Inv(s) && HasWin(s, id) && TITLE_H + 4 < w <= DIM_MAX && TITLE_H + 4 < h <= DIM_MAX && w * h <= AREA_MAX
    ensures var win := WinOf(s, id);
      Inv(SetWin(s, id, win.(w := w, h := h)).(comp := ResizePair(s.comp, win, w, h)))
  {
    var j, win := FindWin(s.wins, id), WinOf(s, id);
    var c := ResizePair(s.comp, win, w, h);
    ResizePairOk(s.comp, win, w, h);
    forall k | 0 <= k < WM_MAX && s.wins[k].Win? && k != j
      ensures WinOk(c, s.wins[k])
    {
      assert Disjoint(s.wins[k], win);
      ResizePairKeeps(s.comp, win, w, h, s.wins[k]);
    }
    WinsInv(s, SetWin(s, id, win.(w := w, h := h)).(comp := c), j);
  }

  /** Only the frame resized: harmless exactly when its size stays the same. */
  lemma ResizeFrameOnly(s: Wm, id: int, w: nat, h: nat)
    requires Inv(s) && HasWin(s, id) && SizeOk(w, h)
    ensures var win := WinOf(s, id);
      Inv(s.(comp := Scene.Resize(s.comp, win.frame, w, h, true).0)) <==> w == win.w && h == win.h
  {
    var j, win := FindWin(s.wins, id), WinOf(s, id);
    var c1 := Scene.Resize(s.comp, win.frame, w, h, true).0;
    ResizeLayout(s.comp, win.frame, w, h, win.client, win.frame);
    if w == win.w && h == win.h {
      forall k | 0 <= k < WM_MAX && s.wins[k].Win?
        ensures WinOk(c1, s.wins[k])
      {
        if k != j {
          assert Disjoint(s.wins[k], win);
          ResizeKeepsOther(s.comp, win.frame, w, h, s.wins[k]);
        } else {
          ResizeLayout(s.comp, win.frame, w, h, win.frame, win.client);
        }
      }
      CompKeepsInv(s, c1);
    } else {
      assert !WinOk(c1, s.wins[j]);
    }
  }

  /** The one way wm_resize can leave the window and its surfaces at odds: the
      frame was resized to a new size, then the client's allocation failed. */
  predicate ResizeTears(s: Wm, id: int, w: int, h: int, memF: bool, memC: bool) {
    && HasWin(s, id) && TITLE_H + 4 < w <= DIM_MAX && TITLE_H + 4 < h <= DIM_MAX && w * h <= AREA_MAX
    && memF && !memC && (w != WinOf(s, id).w || h != WinOf(s, id).h)
  }

  /** wm_resize keeps the invariant exactly when it does not tear the window. */
  lemma ResizeKeepsInv(s: Wm, id: int, w: int, h: int, memF: bool, memC: bool)
    requires Inv(s)
    ensures Inv(ResizeWin(s, id, w, h, memF, memC).0) <==> !ResizeTears(s, id, w, h, memF, memC)
  {
    hide Inv, DrawFrame;
    if HasWin(s, id) && TITLE_H + 4 < w <= DIM_MAX && TITLE_H + 4 < h <= DIM_MAX && w * h <= AREA_MAX && memF {
      if memC {
        ResizeWhole(s, id, w, h);
      } else {
        ResizeFrameOnly(s, id, w, h);
        ResizeHalf(s, id, w, h);
      }
    } else {
      ResizeRefused(s, id, w, h, memF, memC);
    }
  }

  lemma ResizeWhole(s: Wm, id: int, w: int, h: int)
    requires Inv(s) && HasWin(s, id) && TITLE_H + 4 < w <= DIM_MAX && TITLE_H + 4 < h <= DIM_MAX && w * h <= AREA_MAX
    ensures Inv(ResizeWin(s, id, w, h, true, true).0)
  {
    hide DrawFrame, ResizePair, WinOk, Disjoint, Wf;
    var win := WinOf(s, id);
    ResizePairKeepsInv(s, id, w, h);
    ResizeSucceeds(s, id, w, h);
    DrawFrameKeepsInv(SetWin(s, id, win.(w := w, h := h)).(comp := ResizePair(s.comp, win, w, h)),
                      win.(w := w, h := h), id == s.focus);
  }

  /** Without memory for the client only the frame's surface changes. */
  lemma ResizeHalf(s: Wm, id: int, w: int, h: int)
    requires Inv(s) && HasWin(s, id) && TITLE_H + 4 < w <= DIM_MAX && TITLE_H + 4 < h <= DIM_MAX && w * h <= AREA_MAX
    ensures ResizeWin(s, id, w, h, true, false).0 == s.(comp := Scene.Resize(s.comp, WinOf(s, id).frame, w, h, true).0)
  {
    hide DrawFrame, Compose, DmgSlot;
  }

  lemma ResizeRefused(s: Wm, id: int, w: int, h: int, memF: bool, memC: bool)
    requires Inv(s)
    requires !(HasWin(s, id) && TITLE_H + 4 < w <= DIM_MAX && TITLE_H + 4 < h <= DIM_MAX && w * h <= AREA_MAX && memF)
    ensures ResizeWin(s, id, w, h, memF, memC).0 == s
  {
    hide DrawFrame, Compose, DmgSlot;
  }

  lemma ResizeSucceeds(s: Wm, id: int, w: int, h: int)
    requires Inv(s) && HasWin(s, id) && TITLE_H + 4 < w <= DIM_MAX && TITLE_H + 4 < h <= DIM_MAX && w * h <= AREA_MAX
    ensures var win := WinOf(s, id);
      var win' := win.(w := w, h := h);
      var c := DrawFrame(ResizePair(s.comp, win, w, h), win', id == s.focus, s.look);
      ResizeWin(s, id, w, h, true, true) == (SetWin(s, id, win').(comp := c), 0)
  {
    hide DrawFrame, Scene.Move, Scene.Resize;
    AreaShrinks(w, h);
    var win := WinOf(s, id);
    ResizeLayout(s.comp, win.frame, w, h, win.client, win.frame);
    ResizeWorks(s.comp, win.frame, w, h);
    ResizeWorks(Scene.Resize(s.comp, win.frame, w, h, true).0, win.client, w - 2, h - TITLE_H);
  }

  lemma ResizeWorks(c: Comp, id: int, w: nat, h: nat)
    requires Known(c, id) && SizeOk(w, h)
    ensures Scene.Resize(c, id, w, h, true).1 == 0
  {
  }

  // ----- Theme changes and other surfaces ------------------------------------------------------------

  /** wm_refresh_frames on the first n windows. */
  function RefreshTo(s: Wm, n: nat): Wm
    requires n <= |s.wins| && FontOk(s.look.font)
  {
    if n == 0 then s
    else
      var before := RefreshTo(s, n - 1);
      if s.wins[n - 1].NoWin? then before
      else before.(comp := DrawFrame(before.comp, s.wins[n - 1], s.wins[n - 1].id == s.focus, s.look))
  }

  lemma {:induction false} RefreshKeepsInv(s: Wm, n: nat)
    requires Inv(s) && n <= WM_MAX
    ensures Inv(RefreshTo(s, n)) && RefreshTo(s, n) == s.(comp := RefreshTo(s, n).comp)
  {
    hide DrawFrame, WinOk, Disjoint, Wf, HasWin;
    if n > 0 {
      RefreshKeepsInv(s, n - 1);
      var before := RefreshTo(s, n - 1);
      if s.wins[n - 1].Win? {
        DrawFrameKeepsInv(before, s.wins[n - 1], s.wins[n - 1].id == s.focus);
      }
    }
  }

  /** The operation names this surface. */
  predicate Targets(op: Op, id: int) {
    match op
    case OpCreate(_, _, _) => false
    case OpAnimTicks => false
    case OpCursorShow(_, _) => false
    case OpCursorMove(_, _) => false
    case OpCursorHide => false
    case OpSetBg(_) => false
    case OpComposite => false
    case _ => op.id == id
  }

  /** The operation draws on a surface or damages it, and does no more. */
  predicate Redraws(op: Op) {
    Draws(op) || op.OpDamage? || op.OpDamageAll? || op.OpPaint?
  }

  /** An operation by somebody else: one that redraws, whatever surface, a window's own
      included, or any on a surface that is no window's. */
  predicate Foreign(s: Wm, op: Op) {
    && OpOk(op) && !op.OpComposite?
    && (Redraws(op) || forall k :: 0 <= k < |s.wins| && s.wins[k].Win? ==>
       !Targets(op, s.wins[k].frame) && !Targets(op, s.wins[k].client))
  }

  /** A tick changes no surface that is not fading, and no order. */
  lemma TickLayout(c: Comp, k: nat, i: int)
    requires Wf(c) && k < COMP_MAX
    ensures Z(Scene.Tick(c, k), i) == Z(c, i) && Known(Scene.Tick(c, k), i) == Known(c, i)
    ensures Known(c, i) && GeomOf(c, i).still ==> GeomOf(Scene.Tick(c, k), i) == GeomOf(c, i)
  {
    var s := c.slots[k];
    if s.Surf? && !s.anim.Still? {
      SetSlotLayout(c, k, TickSlot(s), i, i);
      FoundAt(c.slots, k);
    }
  }

  lemma {:induction false} TickToLayout(c: Comp, n: nat, i: int)
    requires Wf(c) && n <= COMP_MAX
    ensures Z(TickTo(c, n), i) == Z(c, i) && Known(TickTo(c, n), i) == Known(c, i)
    ensures Known(c, i) && GeomOf(c, i).still ==> GeomOf(TickTo(c, n), i) == GeomOf(c, i)
  {
    hide GeomOf, Z, Find, Known, Wf, Scene.Tick;
    if n > 0 {
      TickToLayout(c, n - 1, i);
      TickLayout(TickTo(c, n - 1), n - 1, i);
    }
  }

  /** Retouching a surface that is not a window's. */
  lemma RetouchKeepsOther(c: Comp, c': Comp, id: int, t: Slot, v: Win)
    requires Wf(c) && Known(c, id) && v.Win? && WinOk(c, v) && v.frame != id && v.client != id
    requires t.Surf? && t.id == id && c'.slots == c.slots[Find(c.slots, id) := t]
    ensures WinOk(c', v)
  {
    var k := Find(c.slots, id);
    SetSlotLayout(c, k, t, v.frame, v.client);
    SetSlotLayout(c, k, t, v.client, v.frame);
    DamageLayout(SetSlot(c, k, t), c', v.frame);
    DamageLayout(SetSlot(c, k, t), c', v.client);
  }

  predicate Retouches(op: Op) {
    op.OpSetVisible? || op.OpFadeIn? || op.OpFadeOut? || op.OpSlideIn?
  }

  lemma RetouchKeepsWin(c: Comp, op: Op, v: Win)
    requires Wf(c) && OpOk(op) && Retouches(op) && v.Win? && WinOk(c, v)
    requires !Targets(op, v.frame) && !Targets(op, v.client)
    ensures WinOk(Change(c, op), v)
  {
    hide WinOk, GeomOf, Hull, Clip, SlotOk;
    hide Create, Destroy, Move, Raise, Scene.Fill, Scene.FillRect, Outline, Scene.Text, Resize, Local, TickTo;
    var c' := Change(c, op);
    if c' != c {
      var s := c.slots[Find(c.slots, op.id)];
      match op
      case OpSetVisible(id, b) => RetouchKeepsOther(c, c', id, s.(visible := b), v);
      case OpFadeIn(id, frames) =>
        RetouchKeepsOther(c, c', id, s.(visible := true, alpha := 0, anim := FadeIn(frames, frames)), v);
      case OpFadeOut(id, frames) => RetouchKeepsOther(c, c', id, s.(anim := FadeOut(frames, frames)), v);
      case OpSlideIn(id, x, y, frames) => RetouchKeepsOther(c, c', id, c'.slots[Find(c.slots, id)], v);
    }
  }

  lemma TicksKeepWin(c: Comp, v: Win)
    requires Wf(c) && v.Win? && WinOk(c, v)
    ensures WinOk(TickTo(c, COMP_MAX), v)
  {
    TickToLayout(c, COMP_MAX, v.frame);
    TickToLayout(c, COMP_MAX, v.client);
  }

  lemma RaiseKeepsOther(c: Comp, id: int, v: Win)
    requires Wf(c) && Known(c, id) && v.Win? && WinOk(c, v) && v.frame != id && v.client != id
    ensures WinOk(Scene.Raise(c, id), v)
  {
    hide Raise, Wf;
    RaiseLayout(c, id, v.frame, v.client);
    RaiseLayout(c, id, v.client, v.frame);
  }

  lemma DestroyKeepsOther(c: Comp, id: int, v: Win)
    requires Wf(c) && Known(c, id) && v.Win? && WinOk(c, v) && v.frame != id && v.client != id
    ensures WinOk(Scene.Destroy(c, id), v)
  {
    DestroyLayout(c, id, v.frame, v.client);
    DestroyLayout(c, id, v.client, v.frame);
  }

  lemma CreateKeepsWin(c: Comp, w: nat, h: nat, mem: bool, v: Win)
    requires Wf(c) && v.Win? && WinOk(c, v)
    ensures WinOk(Scene.Create(c, w, h, mem).0, v)
  {
    if Scene.Create(c, w, h, mem).1 >= 0 {
      assert Scene.Create(c, w, h, mem) == Scene.Create(c, w, h, true);
      CreateLayout(c, w, h, v.frame, v.client);
      CreateLayout(c, w, h, v.client, v.frame);
    } else {
      assert Scene.Create(c, w, h, mem).0 == c;
    }
  }

  lemma ForeignKeepsWin(c: Comp, op: Op, v: Win)
    requires Wf(c) && OpOk(op) && !op.OpComposite? && v.Win? && WinOk(c, v)
    requires Redraws(op) || (!Targets(op, v.frame) && !Targets(op, v.client))
    ensures WinOk(Change(c, op), v)
  {
    hide WinOk, Wf;
    if Redraws(op) {
      RedrawLayout(c, op);
      LayoutKeepsWin(c, Change(c, op), v);
    } else if Retouches(op) {
      RetouchKeepsWin(c, op, v);
    } else {
      match op
      case OpCreate(w, h, mem) => CreateKeepsWin(c, w, h, mem, v);
      case OpDestroy(id) => if Known(c, id) { DestroyKeepsOther(c, id, v); }
      case OpMove(id, x, y) => if Known(c, id) { MoveKeepsOther(c, id, x, y, v); }
      case OpRaise(id) => if Known(c, id) { RaiseKeepsOther(c, id, v); }
      case OpResize(id, w, h, mem) => if Known(c, id) && SizeOk(w, h) && mem { ResizeKeepsOther(c, id, w, h, v); }
      case OpAnimTicks => TicksKeepWin(c, v);
      case OpCursorShow(x, y) => LayoutKeepsWin(c, Change(c, op), v);
      case OpCursorMove(x, y) => LayoutKeepsWin(c, Change(c, op), v);
      case OpCursorHide => LayoutKeepsWin(c, Change(c, op), v);
      case OpSetBg(color) => LayoutKeepsWin(c, Change(c, op), v);
    }
  }

  lemma ForeignKeepsInv(s: Wm, op: Op)
    requires Inv(s) && Foreign(s, op)
    ensures Inv(s.(comp := Change(s.comp, op)))
  {
    ChangeKeepsWf(s.comp, op);
    forall k | 0 <= k < WM_MAX && s.wins[k].Win?
      ensures WinOk(Change(s.comp, op), s.wins[k])
    {
      ForeignKeepsWin(s.comp, op, s.wins[k]);
    }
    CompKeepsInv(s, Change(s.comp, op));
  }

  // ----- Runs ---------------------------------------------------------------------------------------

  datatype WmOp =
    | DoCreate(title: seq<byte>, w: int, h: int, bg: Px, memF: bool, memC: bool)
    | DoDestroy(id: int)
    | DoFocus(id: int)
    | DoMove(id: int, x: int, y: int)
    | DoDragStart(id: int, x: int, y: int)
    | DoDragTo(x: int, y: int)
    | DoDragEnd
    | DoResize(id: int, w: int, h: int, memF: bool, memC: bool)
    | DoMinimize(id: int)
    | DoRestore(id: int)
    | DoTheme(look: Look)
    | DoOther(op: Op)
    | DoComposite

  /** What callers may do: no foreign hands on window surfaces, and no
      allocation failure in the middle of a resize. */
  predicate Allowed(s: Wm, op: WmOp) {
    match op
    case DoResize(id, w, h, memF, memC) => !ResizeTears(s, id, w, h, memF, memC)
    case DoTheme(look) => FontOk(look.font)
    case DoOther(o) => Foreign(s, o)
    case _ => true
  }

  function Apply(s: Wm, op: WmOp): Wm
    requires Inv(s) && Allowed(s, op)
  {
    match op
    case DoCreate(title, w, h, bg, memF, memC) => CreateWin(s, title, w, h, bg, memF, memC).0
    case DoDestroy(id) => DestroyWin(s, id)
    case DoFocus(id) => Focus(s, id)
    case DoMove(id, x, y) => MoveWin(s, id, x, y)
    case DoDragStart(id, x, y) => DragStart(s, id, x, y)
    case DoDragTo(x, y) => DragTo(s, x, y)
    case DoDragEnd => DragEnd(s)
    case DoResize(id, w, h, memF, memC) => ResizeWin(s, id, w, h, memF, memC).0
    case DoMinimize(id) => Minimize(s, id)
    case DoRestore(id) => Restore(s, id)
    case DoTheme(look) => RefreshTo(s.(look := look), WM_MAX)
    case DoOther(o) => s.(comp := Change(s.comp, o))
    case DoComposite => s.(comp := s.comp.(damage := Clean))
  }

  lemma ApplyKeepsInv(s: Wm, op: WmOp)
    requires Inv(s) && Allowed(s, op)
    ensures Inv(Apply(s, op))
  {
    match op
    case DoCreate(title, w, h, bg, memF, memC) => CreateKeepsInv(s, title, w, h, bg, memF, memC);
    case DoDestroy(id) => DestroyKeepsInv(s, id);
    case DoFocus(id) => FocusKeepsInv(s, id);
    case DoMove(id, x, y) => MoveKeepsInv(s, id, x, y);
    case DoDragStart(id, x, y) => DragStartKeepsInv(s, id, x, y);
    case DoDragTo(x, y) => DragToKeepsInv(s, x, y);
    case DoDragEnd => GrabKeepsInv(s, -1, s.dragDx, s.dragDy);
    case DoResize(id, w, h, memF, memC) => ResizeKeepsInv(s, id, w, h, memF, memC);
    case DoMinimize(id) => MinimizeKeepsInv(s, id);
    case DoRestore(id) => RestoreKeepsInv(s, id);
    case DoTheme(look) => ThemeKeepsInv(s, look);
    case DoOther(o) => ForeignKeepsInv(s, o);
    case DoComposite => CompositeKeepsInv(s);
  }

  lemma ThemeKeepsInv(s: Wm, look: Look)
    requires Inv(s) && FontOk(look.font)
    ensures Inv(RefreshTo(s.(look := look), WM_MAX))
  {
    LookKeepsInv(s, look);
    RefreshKeepsInv(s.(look := look), WM_MAX);
  }

  lemma CompositeKeepsInv(s: Wm)
    requires Inv(s)
    ensures Inv(s.(comp := s.comp.(damage := Clean)))
  {
    forall k | 0 <= k < WM_MAX && s.wins[k].Win?
      ensures WinOk(s.comp.(damage := Clean), s.wins[k])
    {
      LayoutKeepsWin(s.comp, s.comp.(damage := Clean), s.wins[k]);
    }
    CompKeepsInv(s, s.comp.(damage := Clean));
  }

  ghost predicate AllowedRun(s: Wm, ops: seq<WmOp>)
    requires Inv(s)
    decreases |ops|
  {
    ops == [] ||
    (Allowed(s, ops[0]) && (ApplyKeepsInv(s, ops[0]); AllowedRun(Apply(s, ops[0]), ops[1..])))
  }

  /** The invariant holds after every run of allowed operations. */
  ghost function Run(s: Wm, ops: seq<WmOp>): (r: Wm)
    requires Inv(s) && AllowedRun(s, ops)
    ensures Inv(r)
    decreases |ops|
  {
    if ops == [] then s
    else
      ApplyKeepsInv(s, ops[0]);
      Run(Apply(s, ops[0]), ops[1..])
  }

  /** wm_init over a compositor that may already hold other surfaces. */
  function Start(c: Comp, look: Look): Wm {
    Wm(seq(WM_MAX, _ => NoWin), 1, -1, -1, 0, 0, c, look)
  }

  lemma StartKeepsInv(c: Comp, look: Look)
    requires Wf(c) && FontOk(look.font)
    ensures Inv(Start(c, look))
  {
  }

  /** So it holds in every state reachable from wm_init. */
  lemma RunFromStart(c: Comp, look: Look, ops: seq<WmOp>)
    requires Wf(c) && FontOk(look.font)
    ensures Inv(Start(c, look)) && (AllowedRun(Start(c, look), ops) ==> Inv(Run(Start(c, look), ops)))
  {
    StartKeepsInv(c, look);
  }

  // ----- Bounds --------------------------------------------------------------------------------------------

  const NEAR_MAX := 0x400_0000

  predicate Within(v: int, bound: int) {
    -bound <= v <= bound
  }

  /** The arguments of a compositor call are ones its int sums are exact for. */
  predicate CallFits(op: Op) {
    match op
    case OpMove(_, x, y) => Pos(x) && Pos(y)
    case OpRect(_, x, y, w, h, _) => Coord(x) && Coord(y) && Coord(w) && Coord(h)
    case OpFillRect(_, x, y, w, h, _) => Coord(x) && Coord(y) && Coord(w) && Coord(h)
    case OpText(_, _, x, y, str, _) => Coord(x) && Coord(y) && Coord(8 * |str|)
    case OpDamage(_, x, y, w, h) => Coord(x) && Coord(y) && Coord(w) && Coord(h)
    case OpCursorShow(x, y) => Pos(x) && Pos(y)
    case OpCursorMove(x, y) => Pos(x) && Pos(y)
    case OpSlideIn(_, x, y, _) => Pos(x) && Pos(y)
    case _ => true
  }

  predicate NearWin(w: Win) {
    w.Win? ==> Within(w.x, 2 * NEAR_MAX) && Within(w.y, 2 * NEAR_MAX) && |w.title| <= 23
  }

  predicate NearWins(wins: seq<Win>) {
    forall k :: 0 <= k < |wins| ==> NearWin(wins[k])
  }

  /** Windows and the dragging offset are near enough to the screen. */
  predicate Near(s: Wm) {
    NearWins(s.wins) && Within(s.dragDx, NEAR_MAX) && Within(s.dragDy, NEAR_MAX)
  }

  /** Callers move windows, and start and continue drags, not too far away. */
  predicate NearOp(s: Wm, op: WmOp) {
    match op
    case DoMove(_, x, y) => Within(x, 2 * NEAR_MAX) && Within(y, 2 * NEAR_MAX)
    case DoDragStart(id, x, y) =>
      HasWin(s, id) ==> Within(x - WinOf(s, id).x, NEAR_MAX) && Within(y - WinOf(s, id).y, NEAR_MAX)
    case DoDragTo(x, y) => Within(x, NEAR_MAX) && Within(y, NEAR_MAX)
    case DoOther(o) => CallFits(o)
    case _ => true
  }

  lemma NearSet(wins: seq<Win>, k: nat, w: Win)
    requires NearWins(wins) && k < |wins| && NearWin(w)
    ensures NearWins(wins[k := w])
  {
  }

  lemma NearOf(wins: seq<Win>, k: nat)
    requires NearWins(wins) && k < |wins|
    ensures NearWin(wins[k])
  {
  }

  /** Then windows stay near ... */
  lemma NearKept(s: Wm, op: WmOp)
    requires Inv(s) && Allowed(s, op) && Near(s) && NearOp(s, op)
    ensures Near(Apply(s, op))
  {
    hide NearWins, DrawFrame, CreateWin, MoveWin, DragStart, ResizeWin, Minimize, Restore, Focus, Scene.Destroy;
    match op
    case DoCreate(title, w, h, bg, memF, memC) => NearCreated(s, title, w, h, bg, memF, memC);
    case DoDestroy(id) => NearChanged(s, id, NoWin);
    case DoFocus(id) => FocusFields(s, id);
    case DoMove(id, x, y) => NearMoved(s, id, x, y);
    case DoDragStart(id, x, y) => NearDragged(s, id, x, y);
    case DoDragTo(x, y) => NearMoved(s, s.drag, x - s.dragDx, y - s.dragDy);
    case DoResize(id, w, h, memF, memC) => NearResized(s, id, w, h, memF, memC);
    case DoMinimize(id) => NearMinimized(s, id);
    case DoRestore(id) => NearRestored(s, id);
    case DoTheme(look) =>
      LookKeepsInv(s, look);
      RefreshKeepsInv(s.(look := look), WM_MAX);
    case _ =>
  }

  lemma LookKeepsInv(s: Wm, look: Look)
    requires Inv(s) && FontOk(look.font)
    ensures Inv(s.(look := look))
  {
  }

  lemma NearChanged(s: Wm, id: int, w: Win)
    requires NearWins(s.wins) && NearWin(w)
    ensures HasWin(s, id) ==> NearWins(SetWin(s, id, w).wins) && NearWin(WinOf(s, id))
  {
    hide NearWins, NearWin;
    if HasWin(s, id) {
      NearSet(s.wins, FindWin(s.wins, id), w);
      NearOf(s.wins, FindWin(s.wins, id));
    }
  }

  lemma FocusFields(s: Wm, id: int)
    requires FontOk(s.look.font)
    ensures var s' := Focus(s, id); s'.wins == s.wins && s'.dragDx == s.dragDx && s'.dragDy == s.dragDy
  {
  }

  lemma NearCreated(s: Wm, title: seq<byte>, w: int, h: int, bg: Px, memF: bool, memC: bool)
    requires Near(s) && FontOk(s.look.font)
    ensures Near(CreateWin(s, title, w, h, bg, memF, memC).0)
  {
    hide NearWins, DrawFrame, Scene.Create, Scene.Fill, Scene.Move, Scene.Destroy;
    var s', k := CreateWin(s, title, w, h, bg, memF, memC).0, FreeWin(s.wins);
    if s'.wins != s.wins { NearSet(s.wins, k, s'.wins[k]); }
  }

  lemma NearMoved(s: Wm, id: int, x: int, y: int)
    requires Near(s) && (HasWin(s, id) ==> Within(x, 2 * NEAR_MAX) && Within(y, 2 * NEAR_MAX))
    ensures Near(MoveWin(s, id, x, y))
  {
    hide NearWins, Scene.Move;
    if HasWin(s, id) {
      var w := WinOf(s, id);
      NearOf(s.wins, FindWin(s.wins, id));
      NearChanged(s, id, w.(x := x, y := y));
    }
  }

  lemma NearDragged(s: Wm, id: int, x: int, y: int)
    requires Near(s) && NearOp(s, DoDragStart(id, x, y)) && FontOk(s.look.font)
    ensures Near(DragStart(s, id, x, y))
  {
    hide NearWins, Focus;
    if HasWin(s, id) { FocusFields(Grab(s, id, x - WinOf(s, id).x, y - WinOf(s, id).y), id); }
  }

  lemma NearResized(s: Wm, id: int, w: int, h: int, memF: bool, memC: bool)
    requires Near(s) && FontOk(s.look.font)
    ensures Near(ResizeWin(s, id, w, h, memF, memC).0)
  {
    hide NearWins, DrawFrame, Scene.Resize, Scene.Move;
    if HasWin(s, id) {
      var win := WinOf(s, id);
      NearOf(s.wins, FindWin(s.wins, id));
      NearChanged(s, id, win.(w := w, h := h));
    }
  }

  lemma NearMinimized(s: Wm, id: int)
    requires Near(s)
    ensures Near(Minimize(s, id))
  {
    hide NearWins, Scene.SetVisible;
    if HasWin(s, id) {
      var w := WinOf(s, id);
      NearOf(s.wins, FindWin(s.wins, id));
      NearChanged(s, id, w.(minimized := true));
    }
  }

  lemma NearRestored(s: Wm, id: int)
    requires Near(s) && FontOk(s.look.font)
    ensures Near(Restore(s, id))
  {
    hide NearWins, Scene.SetVisible, Focus;
    if HasWin(s, id) {
      var w := WinOf(s, id);
      NearOf(s.wins, FindWin(s.wins, id));
      NearChanged(s, id, w.(minimized := false));
      FocusFields(SetWin(s, id, w.(minimized := false)).(
                    comp := Scene.SetVisible(Scene.SetVisible(s.comp, w.frame, true), w.client, true)), id);
    }
  }

  /** ... and every redrawing of a frame is within the compositor's bounds. */
  lemma FrameCallsFit(w: Win, focused: bool, look: Look)
    requires w.Win? && 0 <= w.w <= DIM_MAX && 0 <= w.h <= DIM_MAX && FontOk(look.font) && |w.title| <= 23
    ensures forall op :: op in FrameOps(w, focused, look) ==> CallFits(op)
  {
  }

  // ----- Hit testing ------------------------------------------------------------------------------------

  predicate Contains(w: Win, x: int, y: int)
    requires w.Win?
  {
    w.x <= x < w.x + w.w && w.y <= y < w.y + w.h
  }

  /** A window that can be hit. */
  predicate Hittable(s: Wm, k: int, x: int, y: int) {
    0 <= k < |s.wins| && s.wins[k].Win? && !s.wins[k].minimized && Contains(s.wins[k], x, y)
  }

  /** wm_from_comp: the window a surface belongs to, or -1. */
  function FromComp(wins: seq<Win>, cid: int): (id: int)
  {
    if wins == [] then -1
    else if wins[0].Win? && (wins[0].frame == cid || wins[0].client == cid) then wins[0].id
    else FromComp(wins[1..], cid)
  }

  lemma {:induction false} FromCompIs(wins: seq<Win>, k: nat, cid: int)
    requires k < |wins| && wins[k].Win? && (wins[k].frame == cid || wins[k].client == cid)
    requires forall a, b :: 0 <= a < b < |wins| && wins[a].Win? && wins[b].Win? ==> Disjoint(wins[a], wins[b])
    ensures FromComp(wins, cid) == wins[k].id
  {
    if k > 0 {
      assert wins[0].Win? ==> Disjoint(wins[0], wins[k]);
      forall a, b | 0 <= a < b < |wins[1..]| && wins[1..][a].Win? && wins[1..][b].Win?
        ensures Disjoint(wins[1..][a], wins[1..][b])
      {
        assert Disjoint(wins[a + 1], wins[b + 1]);
      }
      FromCompIs(wins[1..], k - 1, cid);
    }
  }

  lemma {:induction false} FromCompFound(wins: seq<Win>, cid: int)
    requires FromComp(wins, cid) >= 0
    ensures exists k :: 0 <= k < |wins| && wins[k].Win? && wins[k].id == FromComp(wins, cid)
                        && (wins[k].frame == cid || wins[k].client == cid)
  {
    if wins[0].Win? && (wins[0].frame == cid || wins[0].client == cid) {
    } else {
      FromCompFound(wins[1..], cid);
      var k :| 0 <= k < |wins[1..]| && wins[1..][k].Win? && wins[1..][k].id == FromComp(wins, cid)
               && (wins[1..][k].frame == cid || wins[1..][k].client == cid);
      assert wins[k + 1].Win?;
    }
  }

  /** The surface in slot k belongs to a window that can be hit. */
  predicate SlotHit(s: Wm, k: int, x: int, y: int)
    requires 0 <= k < |s.comp.slots|
  {
    var t := s.comp.slots[k];
    t.Surf? && FromComp(s.wins, t.id) >= 0
    && HasWin(s, FromComp(s.wins, t.id)) && !WinOf(s, FromComp(s.wins, t.id)).minimized
    && Contains(WinOf(s, FromComp(s.wins, t.id)), x, y)
  }

  /** wm_hit_test over the first n slots, from the top down. */
  function HitBelow(s: Wm, n: nat, x: int, y: int): int
    requires n <= |s.comp.slots|
  {
    if n == 0 then -1
    else if SlotHit(s, n - 1, x, y) then FromComp(s.wins, s.comp.slots[n - 1].id)
    else HitBelow(s, n - 1, x, y)
  }

  function HitTest(s: Wm, x: int, y: int): int {
    HitBelow(s, |s.comp.slots|, x, y)
  }

  lemma {:induction false} HitNone(s: Wm, n: nat, x: int, y: int)
    requires n <= |s.comp.slots| && forall m :: 0 <= m < n ==> !SlotHit(s, m, x, y)
    ensures HitBelow(s, n, x, y) == -1
  {
    if n > 0 { HitNone(s, n - 1, x, y); }
  }

  lemma {:induction false} HitAt(s: Wm, n: nat, k: nat, x: int, y: int)
    requires k < n <= |s.comp.slots| && SlotHit(s, k, x, y)
    requires forall m :: k < m < n ==> !SlotHit(s, m, x, y)
    ensures HitBelow(s, n, x, y) == FromComp(s.wins, s.comp.slots[k].id)
  {
    if k < n - 1 { HitAt(s, n - 1, k, x, y); }
  }

  /** A slot is hit exactly when it is the frame or client of a hittable window. */
  lemma SlotHitIs(s: Wm, k: nat, x: int, y: int)
    requires Inv(s) && k < COMP_MAX
    ensures SlotHit(s, k, x, y) <==>
      exists j :: Hittable(s, j, x, y) && (k == Z(s.comp, s.wins[j].frame) || k == Z(s.comp, s.wins[j].client))
    ensures forall j ::
              Hittable(s, j, x, y) && (k == Z(s.comp, s.wins[j].frame) || k == Z(s.comp, s.wins[j].client)) ==>
      FromComp(s.wins, s.comp.slots[k].id) == s.wins[j].id
  {
    forall j | Hittable(s, j, x, y) && (k == Z(s.comp, s.wins[j].frame) || k == Z(s.comp, s.wins[j].client))
      ensures FromComp(s.wins, s.comp.slots[k].id) == s.wins[j].id && SlotHit(s, k, x, y)
    {
      FromCompIs(s.wins, j, s.comp.slots[k].id);
      FindWinAt(s, j);
    }
    if SlotHit(s, k, x, y) {
      var id := s.comp.slots[k].id;
      FromCompFound(s.wins, id);
      var j :| 0 <= j < |s.wins| && s.wins[j].Win? && s.wins[j].id == FromComp(s.wins, id)
               && (s.wins[j].frame == id || s.wins[j].client == id);
      FindWinAt(s, j);
      FoundAt(s.comp.slots, k);
      assert Hittable(s, j, x, y);
    }
  }

  /** The hittable window whose client is highest. */
  ghost predicate IsTopHit(s: Wm, j: int, x: int, y: int) {
    Hittable(s, j, x, y)
    && forall m :: Hittable(s, m, x, y) ==> Z(s.comp, s.wins[m].client) <= Z(s.comp, s.wins[j].client)
  }

  lemma HitTestMisses(s: Wm, x: int, y: int)
    requires Inv(s) && forall j :: !Hittable(s, j, x, y)
    ensures HitTest(s, x, y) == -1
  {
    forall k | 0 <= k < COMP_MAX
      ensures !SlotHit(s, k, x, y)
    {
      SlotHitIs(s, k, x, y);
    }
    HitNone(s, COMP_MAX, x, y);
  }

  lemma HitTestHits(s: Wm, j: int, x: int, y: int)
    requires Inv(s) && IsTopHit(s, j, x, y)
    ensures HitTest(s, x, y) == s.wins[j].id
  {
    var top := Z(s.comp, s.wins[j].client);
    SlotHitIs(s, top, x, y);
    forall k | top < k < COMP_MAX
      ensures !SlotHit(s, k, x, y)
    {
      SlotHitIs(s, k, x, y);
    }
    HitAt(s, COMP_MAX, top, x, y);
  }

  /** In every state satisfying the invariant wm_hit_test returns the containing,
      non-minimised window whose client is highest; -1 exactly when there is none. */
  lemma HitTestIsTop(s: Wm, x: int, y: int)
    requires Inv(s)
    ensures HitTest(s, x, y) == -1 <==> forall j :: !Hittable(s, j, x, y)
    ensures HitTest(s, x, y) != -1 ==> exists j :: IsTopHit(s, j, x, y) && HitTest(s, x, y) == s.wins[j].id
  {
    if exists j :: Hittable(s, j, x, y) {
      var j := TopHit(s, x, y);
      HitTestHits(s, j, x, y);
    } else {
      HitTestMisses(s, x, y);
    }
  }

  lemma TopHit(s: Wm, x: int, y: int) returns (j: int)
    requires Inv(s) && exists j :: Hittable(s, j, x, y)
    ensures IsTopHit(s, j, x, y)
  {
    hide Z, WinOk, Disjoint, Contains, Wf, HasWin;
    j :| Hittable(s, j, x, y);
    var n := 0;
    while n < WM_MAX
      invariant 0 <= n <= WM_MAX && Hittable(s, j, x, y)
      invariant forall m :: 0 <= m < n && Hittable(s, m, x, y) ==>
                Z(s.comp, s.wins[m].client) <= Z(s.comp, s.wins[j].client)
    {
      if Hittable(s, n, x, y) && Z(s.comp, s.wins[n].client) > Z(s.comp, s.wins[j].client) {
        j := n;
      }
      n := n + 1;
    }
  }

  /** wm_focus on a window that did not have the focus puts it in front: every
      point inside it now hits it. */
  lemma FocusedIsInFront(s: Wm, id: int, x: int, y: int)
    requires Inv(s) && HasWin(s, id) && !WinOf(s, id).minimized && s.focus != id && Contains(WinOf(s, id), x, y)
    ensures HitTest(Focus(s, id), x, y) == id
  {
    var j, w := FindWin(s.wins, id), WinOf(s, id);
    FocusKeepsInv(s, id);
    var s' := Focus(s, id);
    FocusTop(s, id);
    forall m | Hittable(s', m, x, y)
      ensures Z(s'.comp, s'.wins[m].client) <= Z(s'.comp, w.client)
    {
    }
    assert IsTopHit(s', j, x, y);
    HitTestHits(s', j, x, y);
  }

  lemma FocusTop(s: Wm, id: int)
    requires Inv(s) && HasWin(s, id) && !WinOf(s, id).minimized && s.focus != id
    ensures forall a :: Known(Focus(s, id).comp, a) ==>
            Z(Focus(s, id).comp, a) <= Z(Focus(s, id).comp, WinOf(s, id).client)
  {
    var w := WinOf(s, id);
    var s1 := s;
    if HasWin(s, s.focus) {
      DrawFrameKeepsInv(s, WinOf(s, s.focus), false);
      s1 := s.(comp := DrawFrame(s.comp, WinOf(s, s.focus), false, s.look));
    }
    RaiseWinKeepsInv(s1, id);
    var c2 := Scene.Raise(Scene.Raise(s1.comp, w.frame), w.client);
    DrawFrameLayout(c2, w, true, s.look);
    var c3 := DrawFrame(c2, w, true, s.look);
    assert Focus(s, id).comp == c3;
    LayoutKept(c2, c3, w.client);
    forall a | Known(c3, a)
      ensures Z(c3, a) <= Z(c3, w.client)
    {
      LayoutKept(c2, c3, a);
    }
  }
}

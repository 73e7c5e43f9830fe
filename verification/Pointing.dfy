// What wm_hit_test finds and what the user sees: when the window whose surface shows
// under the pointer is the window that is hit.

module Pointing {
  import opened Gfx
  import opened Damage
  import opened Scene
  import opened Windows
  import opened Desktop
  import opened Words

  // ----- Seen and hit ------------------------------------------------------------------------

  /** Slot k is a shown surface of a window, over the point. */
  predicate Shows(s: Wm, k: int, x: int, y: int) {
    0 <= k < |s.comp.slots| &&
    var t := s.comp.slots[k];
    t.Surf? && t.visible && Covers(t, x, y) && FromComp(s.wins, t.id) >= 0
  }

  /** Of all such surfaces slot k is the highest. */
  ghost predicate Seen(s: Wm, k: int, x: int, y: int) {
    Shows(s, k, x, y) && forall m :: k < m ==> !Shows(s, m, x, y)
  }

  /** Windows other than number n do not interleave. */
  predicate InOrderBut(s: Wm, n: int) {
    forall i, j :: 0 <= i < |s.wins| && 0 <= j < |s.wins| && i != j && i != n && j != n
                   && s.wins[i].Win? && s.wins[j].Win? ==>
      Apart(s.comp, s.wins[i], s.wins[j])
  }

  /** No window's client is between the frame and the client of another. */
  predicate InOrder(s: Wm) {
    InOrderBut(s, -1)
  }

  /** If v's client is below w's, it is below w's frame as well. */
  predicate Apart(c: Comp, v: Win, w: Win)
    requires v.Win? && w.Win?
  {
    Z(c, v.client) < Z(c, w.client) ==> Z(c, v.client) < Z(c, w.frame)
  }

  /** A window's surface over a point lies inside the window. */
  lemma ShownInside(s: Wm, k: int, x: int, y: int) returns (j: int)
    requires Inv(s) && Shows(s, k, x, y)
    ensures Hittable(s, j, x, y) && s.wins[j].id == FromComp(s.wins, s.comp.slots[k].id)
    ensures k == Z(s.comp, s.wins[j].frame) || k == Z(s.comp, s.wins[j].client)
  {
    var id := s.comp.slots[k].id;
    FromCompFound(s.wins, id);
    j :| 0 <= j < |s.wins| && s.wins[j].Win? && s.wins[j].id == FromComp(s.wins, id)
         && (s.wins[j].frame == id || s.wins[j].client == id);
    FoundAt(s.comp.slots, k);
    InsideWin(s.comp, s.wins[j], k, x, y);
  }

  lemma InsideWin(c: Comp, w: Win, k: nat, x: int, y: int)
    requires Wf(c) && w.Win? && WinOk(c, w) && k < COMP_MAX && c.slots[k].Surf? && Covers(c.slots[k], x, y)
    requires (k == Z(c, w.frame) || k == Z(c, w.client)) && c.slots[k].visible
    ensures Contains(w, x, y) && !w.minimized
  {
    var t := c.slots[k];
    assert SlotOk(t) && HasSize(t.img, t.w, t.h);
  }

  /** A hittable window's frame shows at the point. */
  lemma FrameShows(s: Wm, j: int, x: int, y: int)
    requires Inv(s) && Hittable(s, j, x, y)
    ensures Shows(s, Z(s.comp, s.wins[j].frame), x, y)
  {
    var w := s.wins[j];
    assert WinOk(s.comp, w);
    FromCompIs(s.wins, j, w.frame);
    assert 0 < w.id;
  }

  /** Where windows are in order, the window seen at a point is the one hit there. */
  lemma HitIsSeen(s: Wm, k: int, x: int, y: int)
    requires Inv(s) && InOrder(s) && Seen(s, k, x, y)
    ensures HitTest(s, x, y) == FromComp(s.wins, s.comp.slots[k].id)
  {
    hide Inv, Covers;
    var j := ShownInside(s, k, x, y);
    forall m | Hittable(s, m, x, y)
      ensures Z(s.comp, s.wins[m].client) <= Z(s.comp, s.wins[j].client)
    {
      FrameShows(s, m, x, y);
      SeenAbove(s, k, j, m);
    }
    HitTestHits(s, j, x, y);
  }

  lemma SeenAbove(s: Wm, k: int, j: int, m: int)
    requires Inv(s) && InOrder(s) && 0 <= j < |s.wins| && 0 <= m < |s.wins| && s.wins[j].Win? && s.wins[m].Win?
    requires k == Z(s.comp, s.wins[j].frame) || k == Z(s.comp, s.wins[j].client)
    requires Z(s.comp, s.wins[m].frame) <= k
    ensures Z(s.comp, s.wins[m].client) <= Z(s.comp, s.wins[j].client)
  {
    assert WinOk(s.comp, s.wins[j]) && WinOk(s.comp, s.wins[m]);
    if j != m { assert Apart(s.comp, s.wins[j], s.wins[m]); }
  }

  /** Where no window shows, none is hit. */
  lemma NoneIsHit(s: Wm, x: int, y: int)
    requires Inv(s)
    ensures HitTest(s, x, y) == -1 <==> forall k :: !Shows(s, k, x, y)
  {
    hide Inv, Covers;
    HitTestIsTop(s, x, y);
    if j :| Hittable(s, j, x, y) { FrameShows(s, j, x, y); }
    if k :| Shows(s, k, x, y) { var j := ShownInside(s, k, x, y); }
  }

  // ----- The order of two surfaces ----------------------------------------------------------------

  /** Both are still there, and the same one is above the other. */
  predicate Ordered(c: Comp, c': Comp, a: int, b: int) {
    Known(c', a) && Known(c', b) && (Z(c, a) < Z(c, b) <==> Z(c', a) < Z(c', b))
  }

  /** The call raises or destroys one of the two. */
  predicate Disturbs(op: Op, a: int, b: int) {
    (op.OpRaise? || op.OpDestroy?) && (op.id == a || op.id == b)
  }

  lemma LayoutOrdered(c: Comp, c': Comp, a: int, b: int)
    requires SameLayout(c, c') && Known(c, a) && Known(c, b)
    ensures Ordered(c, c', a, b)
  {
    LayoutKept(c, c', a);
    LayoutKept(c, c', b);
  }

  lemma CreateOrdered(c: Comp, w: nat, h: nat, mem: bool, a: int, b: int)
    requires Wf(c) && Known(c, a) && Known(c, b)
    ensures Ordered(c, Scene.Create(c, w, h, mem).0, a, b)
  {
    if Scene.Create(c, w, h, mem).1 >= 0 {
      assert Scene.Create(c, w, h, mem) == Scene.Create(c, w, h, true);
      CreateLayout(c, w, h, a, b);
      CreateLayout(c, w, h, b, a);
    } else {
      assert Scene.Create(c, w, h, mem).0 == c;
    }
  }

  lemma DestroyOrdered(c: Comp, id: int, a: int, b: int)
    requires Wf(c) && Known(c, a) && Known(c, b) && a != id && b != id
    ensures Ordered(c, Scene.Destroy(c, id), a, b)
  {
    if Known(c, id) {
      DestroyLayout(c, id, a, b);
      DestroyLayout(c, id, b, a);
    }
  }

  lemma RaiseOrdered(c: Comp, id: int, a: int, b: int)
    requires Wf(c) && Known(c, a) && Known(c, b) && a != id && b != id
    ensures Ordered(c, Scene.Raise(c, id), a, b)
  {
    hide Wf;
    if Known(c, id) {
      RaiseLayout(c, id, a, b);
      RaiseLayout(c, id, b, a);
    }
  }

  /** One slot replaced by one of the same surface. */
  lemma SetSlotOrdered(c: Comp, c': Comp, k: nat, s: Slot, a: int, b: int)
    requires Wf(c) && k < COMP_MAX && c.slots[k].Surf? && s.Surf? && s.id == c.slots[k].id
    requires c'.slots == c.slots[k := s] && Known(c, a) && Known(c, b)
    ensures Ordered(c, c', a, b)
  {
    SetSlotLayout(c, k, s, a, b);
    SetSlotLayout(c, k, s, b, a);
    DamageLayout(SetSlot(c, k, s), c', a);
    DamageLayout(SetSlot(c, k, s), c', b);
  }

  lemma RetouchOrdered(c: Comp, op: Op, a: int, b: int)
    requires Wf(c) && OpOk(op) && Retouches(op) && Known(c, a) && Known(c, b)
    ensures Ordered(c, Change(c, op), a, b)
  {
    var c' := Change(c, op);
    if c' != c {
      var k := Find(c.slots, op.id);
      SetSlotOrdered(c, c', k, c'.slots[k], a, b);
    }
  }

  lemma MoveOrdered(c: Comp, id: int, x: int, y: int, a: int, b: int)
    requires Wf(c) && Known(c, a) && Known(c, b)
    ensures Ordered(c, Scene.Move(c, id, x, y), a, b)
  {
    if Known(c, id) {
      var k := Find(c.slots, id);
      SetSlotOrdered(c, Scene.Move(c, id, x, y), k, c.slots[k].(x := x, y := y), a, b);
    }
  }

  lemma ResizeOrdered(c: Comp, id: int, w: nat, h: nat, mem: bool, a: int, b: int)
    requires Wf(c) && Known(c, a) && Known(c, b)
    ensures Ordered(c, Scene.Resize(c, id, w, h, mem).0, a, b)
  {
    var c' := Scene.Resize(c, id, w, h, mem).0;
    if c' != c {
      var k := Find(c.slots, id);
      SetSlotOrdered(c, c', k, c'.slots[k], a, b);
    }
  }

  lemma TicksOrdered(c: Comp, a: int, b: int)
    requires Wf(c) && Known(c, a) && Known(c, b)
    ensures Ordered(c, TickTo(c, COMP_MAX), a, b)
  {
    TickToLayout(c, COMP_MAX, a);
    TickToLayout(c, COMP_MAX, b);
  }

  /** No call changes the order of two surfaces that it neither raises nor destroys. */
  lemma OneOrdered(c: Comp, op: Op, a: int, b: int)
    requires Wf(c) && OpOk(op) && Known(c, a) && Known(c, b) && !Disturbs(op, a, b)
    ensures Ordered(c, One(c, op), a, b)
  {
    hide Wf, Ordered, Known, Z, Scene.Create, Scene.Destroy, Scene.Move, Scene.Raise, Scene.Resize, TickTo;
    if op.OpComposite? {
      LayoutOrdered(c, c.(damage := Clean), a, b);
    } else if Redraws(op) {
      RedrawLayout(c, op);
      LayoutOrdered(c, Change(c, op), a, b);
    } else if Retouches(op) {
      RetouchOrdered(c, op, a, b);
    } else {
      match op
      case OpCreate(w, h, mem) => CreateOrdered(c, w, h, mem, a, b);
      case OpDestroy(id) => DestroyOrdered(c, id, a, b);
      case OpMove(id, x, y) => MoveOrdered(c, id, x, y, a, b);
      case OpRaise(id) => RaiseOrdered(c, id, a, b);
      case OpResize(id, w, h, mem) => ResizeOrdered(c, id, w, h, mem, a, b);
      case OpAnimTicks => TicksOrdered(c, a, b);
      case OpCursorShow(x, y) => LayoutOrdered(c, Change(c, op), a, b);
      case OpCursorMove(x, y) => LayoutOrdered(c, Change(c, op), a, b);
      case OpCursorHide => LayoutOrdered(c, Change(c, op), a, b);
      case OpSetBg(color) => LayoutOrdered(c, Change(c, op), a, b);
    }
  }

  lemma {:induction false} AfterOrdered(c: Comp, ops: seq<Op>, a: int, b: int)
    requires Wf(c) && Known(c, a) && Known(c, b) && forall op :: op in ops ==> OpOk(op) && !Disturbs(op, a, b)
    ensures Ordered(c, After(c, ops), a, b)
  {
    hide Wf, OpOk, Known, Z, One, Disturbs;
    if ops != [] {
      var n := |ops| - 1;
      AfterOrdered(c, ops[..n], a, b);
      assert ops[n] in ops;
      OneOrdered(After(c, ops[..n]), ops[n], a, b);
    }
  }

  // ----- Windows stay in order ----------------------------------------------------------------------

  /** s' has no other windows than s, with the same surfaces. */
  predicate SameOrFewer(s: Wm, s': Wm) {
    |s'.wins| == |s.wins| && forall k :: 0 <= k < |s.wins| && s'.wins[k].Win? ==>
      s.wins[k].Win? && s'.wins[k].frame == s.wins[k].frame && s'.wins[k].client == s.wins[k].client
  }

  /** The call raises and destroys no surface of the windows. */
  predicate Calm(op: Op, wins: seq<Win>) {
    op.OpRaise? || op.OpDestroy? ==>
      forall k :: 0 <= k < |wins| && wins[k].Win? ==> op.id != wins[k].frame && op.id != wins[k].client
  }

  lemma CalmKeepsOrder(s: Wm, s': Wm, ops: seq<Op>, n: int)
    requires Inv(s) && InOrderBut(s, n) && SameOrFewer(s, s')
    requires forall op :: op in ops ==> OpOk(op) && Calm(op, s'.wins)
    requires s'.comp == After(s.comp, ops)
    ensures InOrderBut(s', n)
  {
    hide Wf, Known, Z, After, OpOk;
    forall i, j | 0 <= i < |s.wins| && 0 <= j < |s.wins| && i != j && i != n && j != n
                  && s'.wins[i].Win? && s'.wins[j].Win?
      ensures Apart(s'.comp, s'.wins[i], s'.wins[j])
    {
      var v, w := s.wins[i], s.wins[j];
      assert WinOk(s.comp, v) && WinOk(s.comp, w) && Apart(s.comp, v, w);
      CalmApart(s.comp, ops, s'.wins, i, j);
    }
  }

  lemma CalmApart(c: Comp, ops: seq<Op>, wins: seq<Win>, i: int, j: int)
    requires Wf(c) && 0 <= i < |wins| && 0 <= j < |wins| && wins[i].Win? && wins[j].Win?
    requires Known(c, wins[i].client) && Known(c, wins[j].client) && Known(c, wins[j].frame)
    requires forall op :: op in ops ==> OpOk(op) && Calm(op, wins)
    ensures Apart(After(c, ops), wins[i], wins[j]) <==> Apart(c, wins[i], wins[j])
  {
    hide Wf, Known, Z, After, OpOk;
    var v, w := wins[i], wins[j];
    forall op | op in ops
      ensures !Disturbs(op, v.client, w.client) && !Disturbs(op, v.client, w.frame)
    {
      assert Calm(op, wins);
    }
    AfterOrdered(c, ops, v.client, w.client);
    AfterOrdered(c, ops, v.client, w.frame);
  }

  lemma FrameIsCalm(w: Win, focused: bool, look: Look, wins: seq<Win>)
    requires w.Win? && FontOk(look.font)
    ensures forall op :: op in FrameOps(w, focused, look) ==> OpOk(op) && Calm(op, wins)
  {
    hide FrameOps;
  }

  /** The two raises put the window's surfaces on top, and leave the others as they were. */
  lemma RaisesMakeOrder(s: Wm, id: int)
    requires Inv(s) && HasWin(s, id) && InOrderBut(s, FindWin(s.wins, id))
    ensures var w := WinOf(s, id); InOrder(s.(comp := Scene.Raise(Scene.Raise(s.comp, w.frame), w.client)))
  {
    hide Wf, Scene.Raise, FindWin;
    var n, top := FindWin(s.wins, id), WinOf(s, id);
    var c1 := Scene.Raise(s.comp, top.frame);
    var c2 := Scene.Raise(c1, top.client);
    forall i, j | 0 <= i < |s.wins| && 0 <= j < |s.wins| && i != j && s.wins[i].Win? && s.wins[j].Win?
      ensures Apart(c2, s.wins[i], s.wins[j])
    {
      var v, w := s.wins[i], s.wins[j];
      assert WinOk(s.comp, v) && WinOk(s.comp, w);
      if i == n {
        RaisedLast(s.comp, top, w);
      } else {
        assert Disjoint(v, top);
        if j == n {
          RaisedFirst(s.comp, top, v);
        } else {
          assert Disjoint(w, top) && Apart(s.comp, v, w);
          RaisedBoth(s.comp, top, v, w);
        }
      }
    }
  }

  /** Nothing is above the raised client. */
  lemma RaisedLast(c: Comp, top: Win, w: Win)
    requires Wf(c) && top.Win? && w.Win? && WinOk(c, top) && WinOk(c, w) && Disjoint(top, w)
    ensures Apart(Scene.Raise(Scene.Raise(c, top.frame), top.client), top, w)
  {
    hide Wf, Scene.Raise, Z, GeomOf;
    RaiseLayout(c, top.frame, top.client, w.client);
    RaiseLayout(c, top.frame, w.client, top.client);
    RaiseLayout(Scene.Raise(c, top.frame), top.client, w.client, w.client);
  }

  /** Every other client is below the raised frame. */
  lemma RaisedFirst(c: Comp, top: Win, v: Win)
    requires Wf(c) && top.Win? && v.Win? && WinOk(c, top) && WinOk(c, v) && Disjoint(v, top)
    ensures Apart(Scene.Raise(Scene.Raise(c, top.frame), top.client), v, top)
  {
    hide Wf, Scene.Raise, Z, GeomOf;
    var c1 := Scene.Raise(c, top.frame);
    RaiseLayout(c, top.frame, v.client, v.client);
    RaiseLayout(c, top.frame, top.client, top.client);
    RaiseOrdered(c1, top.client, v.client, top.frame);
  }

  lemma RaisedBoth(c: Comp, top: Win, v: Win, w: Win)
    requires Wf(c) && top.Win? && v.Win? && w.Win? && WinOk(c, top) && WinOk(c, v) && WinOk(c, w)
    requires Disjoint(v, top) && Disjoint(w, top) && Apart(c, v, w)
    ensures Apart(Scene.Raise(Scene.Raise(c, top.frame), top.client), v, w)
  {
    hide Wf, Scene.Raise, Z, GeomOf;
    var c1 := Scene.Raise(c, top.frame);
    RaiseLayout(c, top.frame, top.client, top.client);
    RaiseOrdered(c, top.frame, v.client, w.client);
    RaiseOrdered(c, top.frame, v.client, w.frame);
    RaiseOrdered(c1, top.client, v.client, w.client);
    RaiseOrdered(c1, top.client, v.client, w.frame);
  }

  lemma FrameKeepsOrder(s: Wm, w: Win, focused: bool, n: int)
    requires Inv(s) && InOrderBut(s, n) && w.Win?
    ensures InOrderBut(s.(comp := DrawFrame(s.comp, w, focused, s.look)), n)
  {
    hide WinOk, Wf, Disjoint, DrawFrame, FrameOps, InOrderBut;
    FrameIsAfter(s.comp, w, focused, s.look);
    FrameIsCalm(w, focused, s.look, s.wins);
    CalmKeepsOrder(s, s.(comp := DrawFrame(s.comp, w, focused, s.look)), FrameOps(w, focused, s.look), n);
  }

  lemma FieldsKeepOrder(s: Wm, s': Wm, n: int)
    requires InOrderBut(s, n) && s'.wins == s.wins && s'.comp == s.comp
    ensures InOrderBut(s', n)
  {
  }

  /** A window that takes the focus is in order with all others afterwards, however it was
      before. */
  lemma FocusMakesOrder(s: Wm, id: int)
    requires Inv(s) && HasWin(s, id) && !WinOf(s, id).minimized && s.focus != id
    requires InOrderBut(s, FindWin(s.wins, id))
    ensures InOrder(Windows.Focus(s, id))
  {
    hide WinOk, Wf, Disjoint, DrawFrame, InOrderBut, Scene.Raise;
    var n, w := FindWin(s.wins, id), WinOf(s, id);
    var s1 := s;
    if HasWin(s, s.focus) {
      DrawFrameKeepsInv(s, WinOf(s, s.focus), false);
      FrameKeepsOrder(s, WinOf(s, s.focus), false, n);
      s1 := s.(comp := DrawFrame(s.comp, WinOf(s, s.focus), false, s.look));
    }
    RaiseWinKeepsInv(s1, id);
    RaisesMakeOrder(s1, id);
    var s2 := s1.(comp := Scene.Raise(Scene.Raise(s1.comp, w.frame), w.client));
    FrameKeepsOrder(s2, w, true, -1);
    FieldsKeepOrder(s2.(comp := DrawFrame(s2.comp, w, true, s.look)), Windows.Focus(s, id), -1);
  }

  lemma FewerInOrder(s: Wm, n: int)
    requires InOrder(s)
    ensures InOrderBut(s, n)
  {
  }

  lemma FocusKeepsOrder(s: Wm, id: int)
    requires Inv(s) && InOrder(s)
    ensures InOrder(Windows.Focus(s, id))
  {
    hide Inv, InOrder;
    if HasWin(s, id) && !WinOf(s, id).minimized && s.focus != id {
      FewerInOrder(s, FindWin(s.wins, id));
      FocusMakesOrder(s, id);
    } else {
      InvFacts(s);
    }
  }

  // ----- Each operation ----------------------------------------------------------------------------

  lemma MoveKeepsOrder(s: Wm, id: int, x: int, y: int)
    requires Inv(s) && InOrder(s)
    ensures InOrder(MoveWin(s, id, x, y))
  {
    hide WinOk, Wf, Disjoint, InOrderBut, Scene.Move, After, MovePair;
    MoveIsCalls(s, id, x, y);
    CalmKeepsOrder(s, MoveWin(s, id, x, y), MoveCalls(s, id, x, y), -1);
  }

  lemma ResizeKeepsOrder(s: Wm, id: int, w: int, h: int, memF: bool, memC: bool)
    requires Inv(s) && InOrder(s)
    ensures InOrder(ResizeWin(s, id, w, h, memF, memC).0)
  {
    hide WinOk, Wf, Disjoint, InOrderBut, Scene.Resize, Scene.Move, DrawFrame, After, FrameOps;
    ResizeIsCalls(s, id, w, h, memF, memC);
    if HasWin(s, id) {
      var win := WinOf(s, id);
      FrameIsCalm(win.(w := w, h := h), id == s.focus, s.look, ResizeWin(s, id, w, h, memF, memC).0.wins);
    }
    var s' := ResizeWin(s, id, w, h, memF, memC).0;
    assert SameOrFewer(s, s');
    CalmKeepsOrder(s, s', ResizeCalls(s, id, w, h, memF, memC), -1);
  }

  lemma ShowKeepsOrder(s: Wm, s': Wm, id: int, v: bool)
    requires Inv(s) && InOrder(s) && HasWin(s, id)
    requires var w := WinOf(s, id);
      && s'.wins == SetWin(s, id, w.(minimized := !v)).wins
      && s'.comp == Scene.SetVisible(Scene.SetVisible(s.comp, w.frame, v), w.client, v)
    ensures InOrder(s')
  {
    hide WinOk, Wf, Disjoint, InOrderBut, Scene.SetVisible, After;
    ShowIsCalls(s.comp, WinOf(s, id), v);
    CalmKeepsOrder(s, s', ShowCalls(WinOf(s, id), v), -1);
  }

  lemma RestoreKeepsOrder(s: Wm, id: int)
    requires Inv(s) && InOrder(s)
    ensures InOrder(Restore(s, id))
  {
    hide WinOk, Wf, Disjoint, InOrder, Scene.SetVisible, Windows.Focus;
    if HasWin(s, id) && WinOf(s, id).minimized {
      ShowKeepsInv(s, id, true, s.focus);
      ShowKeepsOrder(s, Shown(s, id), id, true);
      FocusKeepsOrder(Shown(s, id), id);
    }
  }

  lemma DragStartKeepsOrder(s: Wm, id: int, x: int, y: int)
    requires Inv(s) && InOrder(s)
    ensures InOrder(DragStart(s, id, x, y))
  {
    hide Inv, InOrderBut, Windows.Focus;
    InvFacts(s);
    var d := if HasWin(s, id) && !WinOf(s, id).minimized
             then Grab(s, id, x - WinOf(s, id).x, y - WinOf(s, id).y) else Grab(s, -1, s.dragDx, s.dragDy);
    GrabKeepsInv(s, d.drag, d.dragDx, d.dragDy);
    FieldsKeepOrder(s, d, -1);
    FocusKeepsOrder(d, id);
  }

  lemma DestroyKeepsOrder(s: Wm, id: int)
    requires Inv(s) && InOrder(s) && HasWin(s, id)
    ensures InOrder(DestroyWin(s, id))
  {
    hide WinOk, Wf, InOrderBut, Scene.Destroy, After;
    var w := WinOf(s, id);
    DestroyIsCalls(s, id);
    var s' := DestroyWin(s, id);
    forall k | 0 <= k < |s'.wins| && s'.wins[k].Win?
      ensures s'.wins[k].frame != w.frame && s'.wins[k].client != w.client
      ensures s'.wins[k].frame != w.client && s'.wins[k].client != w.frame
    {
      assert Disjoint(s.wins[k], w);
    }
    CalmKeepsOrder(s, s', [OpDestroy(w.frame), OpDestroy(w.client)], -1);
  }

  lemma {:induction false} RefreshIsCalm(s: Wm, n: nat, wins: seq<Win>)
    requires n <= |s.wins| && FontOk(s.look.font)
    ensures forall op :: op in RefreshCalls(s, n) ==> OpOk(op) && Calm(op, wins)
  {
    hide FrameOps, Calm, OpOk;
    if n > 0 {
      RefreshIsCalm(s, n - 1, wins);
      if s.wins[n - 1].Win? { FrameIsCalm(s.wins[n - 1], s.wins[n - 1].id == s.focus, s.look, wins); }
    }
  }

  lemma ThemeKeepsOrder(s: Wm, look: Look)
    requires Inv(s) && InOrder(s) && FontOk(look.font)
    ensures InOrder(RefreshTo(s.(look := look), WM_MAX))
  {
    hide Inv, InOrderBut, RefreshTo, RefreshCalls, After;
    InvFacts(s);
    var t := s.(look := look);
    LookKeepsInv(s, look);
    FieldsKeepOrder(s, t, -1);
    RefreshKeepsInv(t, WM_MAX);
    RefreshIsCalls(t, WM_MAX);
    RefreshIsCalm(t, WM_MAX, t.wins);
    CalmKeepsOrder(t, RefreshTo(t, WM_MAX), RefreshCalls(t, WM_MAX), -1);
  }

  lemma OtherKeepsOrder(s: Wm, op: Op)
    requires Inv(s) && InOrder(s) && Foreign(s, op)
    ensures InOrder(s.(comp := Change(s.comp, op)))
  {
    hide WinOk, Wf, Disjoint, InOrderBut, Change;
    AfterOne(s.comp, op);
    CalmKeepsOrder(s, s.(comp := Change(s.comp, op)), [op], -1);
  }

  lemma CompositeKeepsOrder(s: Wm)
    requires Inv(s) && InOrder(s)
    ensures InOrder(s.(comp := s.comp.(damage := Clean)))
  {
    hide WinOk, Wf, Disjoint, InOrderBut;
    AfterOne(s.comp, OpComposite);
    CalmKeepsOrder(s, s.(comp := s.comp.(damage := Clean)), [OpComposite], -1);
  }

  // ----- Creating a window ---------------------------------------------------------------------------

  /** The first free slot from k on. */
  function FreeFrom(slots: seq<Slot>, k: nat): (r: nat)
    requires k <= |slots|
    ensures k <= r <= |slots| && (r < |slots| ==> slots[r].Free?)
    ensures forall m :: k <= m < r ==> slots[m].Surf?
    decreases |slots| - k
  {
    if k == |slots| || slots[k].Free? then k else FreeFrom(slots, k + 1)
  }

  /** No window's client lies between the two slots a new window will get, and the second
      of them does not lie between the frame and the client of any window. */
  predicate GapFree(s: Wm) {
    var first := FirstFree(s.comp.slots);
    first < |s.comp.slots| &&
    var second := FreeFrom(s.comp.slots, first + 1);
    forall k :: 0 <= k < |s.wins| && s.wins[k].Win? ==>
      && !(first < Z(s.comp, s.wins[k].client) < second)
      && !(Z(s.comp, s.wins[k].frame) < second < Z(s.comp, s.wins[k].client))
  }

  /** The slots of a new window, and those of a surface that was there before. */
  lemma NewPlaces(c: Comp, c1: Comp, fid: int, c2: Comp, cid: int, w: int, h: int)
    requires Wf(c) && TITLE_H + 4 < w <= DIM_MAX && TITLE_H + 4 < h <= DIM_MAX
    requires (c1, fid) == Scene.Create(c, w, h, true) && fid >= 0
    requires (c2, cid) == Scene.Create(c1, w - 2, h - TITLE_H, true) && cid >= 0
    ensures Wf(c2) && Known(c2, fid) && Known(c2, cid) && FirstFree(c.slots) < COMP_MAX
    ensures Z(c2, fid) == FirstFree(c.slots) && Z(c2, cid) == FreeFrom(c.slots, FirstFree(c.slots) + 1) < COMP_MAX
  {
    hide Scene.Create, Wf, GeomOf, Find, FirstFree;
    CreateLayout(c, w, h, fid, fid);
    CreateLayout(c1, w - 2, h - TITLE_H, fid, cid);
    SecondFree(c, w, h);
    SlotsFull(c1, w - 2, h - TITLE_H);
  }

  lemma SecondFree(c: Comp, w: nat, h: nat)
    requires Wf(c) && Scene.Create(c, w, h, true).1 >= 0
    ensures FirstFree(c.slots) < COMP_MAX
    ensures FirstFree(Scene.Create(c, w, h, true).0.slots) == FreeFrom(c.slots, FirstFree(c.slots) + 1)
  {
    hide Blank;
    var f, slots := FirstFree(c.slots), Scene.Create(c, w, h, true).0.slots;
    assert slots == c.slots[f := slots[f]] && slots[f].Surf?;
    var a, b := FirstFree(slots), FreeFrom(c.slots, f + 1);
    assert forall m :: 0 <= m < f ==> slots[m] == c.slots[m];
    assert forall m :: f < m < COMP_MAX ==> slots[m] == c.slots[m];
    assert a >= f + 1;
  }

  lemma SlotsFull(c: Comp, w: nat, h: nat)
    requires Wf(c) && Scene.Create(c, w, h, true).1 >= 0
    ensures FirstFree(c.slots) < COMP_MAX
  {
  }

  lemma OldPlace(c: Comp, c1: Comp, fid: int, c2: Comp, cid: int, w: int, h: int, a: int)
    requires Wf(c) && TITLE_H + 4 < w <= DIM_MAX && TITLE_H + 4 < h <= DIM_MAX
    requires (c1, fid) == Scene.Create(c, w, h, true) && fid >= 0
    requires (c2, cid) == Scene.Create(c1, w - 2, h - TITLE_H, true) && cid >= 0
    requires Known(c, a)
    ensures Known(c2, a) && Z(c2, a) == Z(c, a) && a != fid && a != cid
    ensures FirstFree(c.slots) < COMP_MAX
    ensures Z(c, a) != FirstFree(c.slots) && Z(c, a) != FreeFrom(c.slots, FirstFree(c.slots) + 1)
  {
    hide Scene.Create, Wf, GeomOf;
    SecondFree(c, w, h);
    Older(c, a);
    CreateLayout(c, w, h, a, a);
    CreateLayout(c1, w - 2, h - TITLE_H, a, a);
  }

  lemma Older(c: Comp, a: int)
    requires Wf(c) && Known(c, a)
    ensures a < c.nextId && Z(c, a) < |c.slots| == COMP_MAX && c.slots[Z(c, a)].Surf?
  {
  }

  lemma NewAndOld(c: Comp, c1: Comp, c2: Comp, win: Win, v: Win)
    requires Wf(c) && win.Win? && v.Win? && WinOk(c, v)
    requires TITLE_H + 4 < win.w <= DIM_MAX && TITLE_H + 4 < win.h <= DIM_MAX
    requires (c1, win.frame) == Scene.Create(c, win.w, win.h, true) && win.frame >= 0
    requires (c2, win.client) == Scene.Create(c1, win.w - 2, win.h - TITLE_H, true) && win.client >= 0
    ensures Z(c2, v.frame) == Z(c, v.frame) && Z(c2, v.client) == Z(c, v.client) && FirstFree(c.slots) < COMP_MAX
    ensures Apart(c2, v, win) && Apart(c2, win, v) <==>
      var first, second := FirstFree(c.slots), FreeFrom(c.slots, FirstFree(c.slots) + 1);
      !(first < Z(c, v.client) < second) && !(Z(c, v.frame) < second < Z(c, v.client))
  {
    hide Wf, Scene.Create, Z, GeomOf, FirstFree, FreeFrom;
    NewPlaces(c, c1, win.frame, c2, win.client, win.w, win.h);
    OldPlace(c, c1, win.frame, c2, win.client, win.w, win.h, v.frame);
    OldPlace(c, c1, win.frame, c2, win.client, win.w, win.h, v.client);
  }

  /** The order after the two surfaces are made. */
  lemma PairInOrder(s: Wm, c1: Comp, c2: Comp, n: nat, win: Win)
    requires Inv(s) && InOrder(s) && n < WM_MAX && s.wins[n].NoWin? && win.Win?
    requires TITLE_H + 4 < win.w <= DIM_MAX && TITLE_H + 4 < win.h <= DIM_MAX
    requires (c1, win.frame) == Scene.Create(s.comp, win.w, win.h, true) && win.frame >= 0
    requires (c2, win.client) == Scene.Create(c1, win.w - 2, win.h - TITLE_H, true) && win.client >= 0
    ensures var t := s.(wins := s.wins[n := win], comp := c2); InOrderBut(t, n) && (InOrder(t) <==> GapFree(s))
  {
    hide Wf, WinOk, Scene.Create, Z, Disjoint, FirstFree, FreeFrom;
    var t := s.(wins := s.wins[n := win], comp := c2);
    SecondFree(s.comp, win.w, win.h);
    forall k | 0 <= k < WM_MAX && s.wins[k].Win?
      ensures Z(c2, s.wins[k].frame) == Z(s.comp, s.wins[k].frame)
      ensures Z(c2, s.wins[k].client) == Z(s.comp, s.wins[k].client)
      ensures Apart(c2, s.wins[k], win) && Apart(c2, win, s.wins[k]) <==>
        var first, second := FirstFree(s.comp.slots), FreeFrom(s.comp.slots, FirstFree(s.comp.slots) + 1);
        && !(first < Z(s.comp, s.wins[k].client) < second)
        && !(Z(s.comp, s.wins[k].frame) < second < Z(s.comp, s.wins[k].client))
    {
      NewAndOld(s.comp, c1, c2, win, s.wins[k]);
    }
    forall i, j | 0 <= i < WM_MAX && 0 <= j < WM_MAX && i != j && i != n && j != n && s.wins[i].Win? && s.wins[j].Win?
      ensures Apart(c2, s.wins[i], s.wins[j])
    {
      assert Apart(s.comp, s.wins[i], s.wins[j]);
    }
    OrderOfNew(s, t, n);
  }

  /** In order but for window n: then only its own order with the others counts. */
  lemma OrderOfNew(s: Wm, t: Wm, n: nat)
    requires n < |t.wins| == |s.wins| && t.wins[n].Win? && s.wins[n].NoWin? && t.wins == s.wins[n := t.wins[n]]
    requires InOrderBut(t, n)
    ensures InOrder(t) <==> forall k :: 0 <= k < |s.wins| && s.wins[k].Win? ==>
      Apart(t.comp, s.wins[k], t.wins[n]) && Apart(t.comp, t.wins[n], s.wins[k])
  {
    hide Apart;
    forall k | 0 <= k < |s.wins| && s.wins[k].Win?
      ensures t.wins[k] == s.wins[k] && k != n
    {
    }
    if InOrder(t) {
      forall k | 0 <= k < |s.wins| && s.wins[k].Win?
        ensures Apart(t.comp, s.wins[k], t.wins[n]) && Apart(t.comp, t.wins[n], s.wins[k])
      {
        assert t.wins[k].Win? && k != n;
      }
    }
  }

  /** After wm_create only the new window can be out of order, and it is in order exactly
      when its slots were found without a gap. */
  lemma CreateOrder(s: Wm, title: seq<byte>, w: int, h: int, bg: Px, memF: bool, memC: bool)
    requires Inv(s) && InOrder(s) && CreateWin(s, title, w, h, bg, memF, memC).1 >= 0
    ensures var s' := CreateWin(s, title, w, h, bg, memF, memC).0;
      && FreeWin(s.wins) < WM_MAX && InOrderBut(s', FreeWin(s.wins)) && (InOrder(s') <==> GapFree(s))
  {
    hide Wf, WinOk, Disjoint, Scene.Create, Scene.Destroy, Scene.Move, Scene.Fill, DrawFrame, FrameOps;
    hide InOrderBut, GapFree, After;
    var s' := CreateWin(s, title, w, h, bg, memF, memC).0;
    var c1, fid := Scene.Create(s.comp, w, h, memF).0, Scene.Create(s.comp, w, h, memF).1;
    CreatedMem(s.comp, w, h, memF);
    var c2, cid := Scene.Create(c1, w - 2, h - TITLE_H, memC).0, Scene.Create(c1, w - 2, h - TITLE_H, memC).1;
    CreatedMem(c1, w - 2, h - TITLE_H, memC);
    var n := FreeWin(s.wins);
    var win := Win(s.nextId, fid, cid, 0, 0, w, h, false, bg, if |title| > 23 then title[..23] else title);
    PairInOrder(s, c1, c2, n, win);
    DressKeepsOrder(s, c1, c2, n, win, s');
  }

  /** Placing, filling and framing the new window changes no order. */
  lemma DressKeepsOrder(s: Wm, c1: Comp, c2: Comp, n: nat, win: Win, s': Wm)
    requires Inv(s) && n < WM_MAX && s.wins[n].NoWin? && win.Win?
    requires TITLE_H + 4 < win.w <= DIM_MAX && TITLE_H + 4 < win.h <= DIM_MAX
    requires (c1, win.frame) == Scene.Create(s.comp, win.w, win.h, true) && win.frame >= 0
    requires (c2, win.client) == Scene.Create(c1, win.w - 2, win.h - TITLE_H, true) && win.client >= 0
    requires s'.wins == s.wins[n := win]
    requires s'.comp ==
             DrawFrame(Scene.Fill(Scene.Move(c2, win.client, 1, TITLE_H), win.client, win.bg), win, false, s.look)
    ensures var t := s.(wins := s.wins[n := win], comp := c2);
      && (InOrder(t) <==> InOrder(s')) && (InOrderBut(t, n) <==> InOrderBut(s', n))
  {
    hide Wf, WinOk, Disjoint, Scene.Create, Scene.Move, Scene.Fill, DrawFrame, FrameOps, After, Apart, Known;
    var place: seq<Op> := [OpMove(win.client, 1, TITLE_H), OpFill(win.client, win.bg)];
    var ops := place + FrameOps(win, false, s.look);
    var wins := s.wins[n := win];
    NewPlaces(s.comp, c1, win.frame, c2, win.client, win.w, win.h);
    AfterTwo(c2, place[0], place[1]);
    AfterConcat(c2, place, FrameOps(win, false, s.look));
    FrameIsAfter(After(c2, place), win, false, s.look);
    FrameIsCalm(win, false, s.look, wins);
    forall i, j | 0 <= i < WM_MAX && 0 <= j < WM_MAX && wins[i].Win? && wins[j].Win?
      ensures Apart(s'.comp, wins[i], wins[j]) <==> Apart(c2, wins[i], wins[j])
    {
      if i != n { StillKnown(s, c1, c2, win, i); }
      if j != n { StillKnown(s, c1, c2, win, j); }
      CalmApart(c2, ops, wins, i, j);
    }
  }

  lemma StillKnown(s: Wm, c1: Comp, c2: Comp, win: Win, k: nat)
    requires Inv(s) && win.Win? && k < WM_MAX && s.wins[k].Win?
    requires TITLE_H + 4 < win.w <= DIM_MAX && TITLE_H + 4 < win.h <= DIM_MAX
    requires (c1, win.frame) == Scene.Create(s.comp, win.w, win.h, true) && win.frame >= 0
    requires (c2, win.client) == Scene.Create(c1, win.w - 2, win.h - TITLE_H, true) && win.client >= 0
    ensures Known(c2, s.wins[k].frame) && Known(c2, s.wins[k].client)
  {
    hide Wf, Scene.Create, Known, GeomOf, Z;
    assert WinOk(s.comp, s.wins[k]);
    OldPlace(s.comp, c1, win.frame, c2, win.client, win.w, win.h, s.wins[k].frame);
    OldPlace(s.comp, c1, win.frame, c2, win.client, win.w, win.h, s.wins[k].client);
  }

  /** A failing wm_create disturbs nothing. */
  lemma FailedCreateOrder(s: Wm, title: seq<byte>, w: int, h: int, bg: Px, memF: bool, memC: bool)
    requires Inv(s) && InOrder(s) && CreateWin(s, title, w, h, bg, memF, memC).1 < 0
    ensures InOrder(CreateWin(s, title, w, h, bg, memF, memC).0)
  {
    hide Wf, WinOk, Disjoint, Scene.Create, Scene.Destroy, Scene.Move, Scene.Fill, DrawFrame, FrameOps;
    hide After, InOrderBut;
    CreateIsCalls(s, title, w, h, bg, memF, memC);
    var ops := CreateCalls(s, title, w, h, bg, memF, memC);
    var s' := CreateWin(s, title, w, h, bg, memF, memC).0;
    forall op | op in ops && op.OpDestroy?
      ensures Calm(op, s.wins)
    {
      CreatedMem(s.comp, w, h, memF);
      forall k | 0 <= k < |s.wins| && s.wins[k].Win?
        ensures op.id != s.wins[k].frame && op.id != s.wins[k].client
      {
        assert WinOk(s.comp, s.wins[k]);
        WinIsOlder(s.comp, s.wins[k]);
        CreateLayout(s.comp, w, h, 0, 0);
      }
    }
    CalmKeepsOrder(s, s', ops, -1);
  }

  // ----- Runs -------------------------------------------------------------------------------------------

  /** The one operation that can put a window between two others. */
  predicate Orderly(s: Wm, op: WmOp)
    requires Inv(s) && Allowed(s, op)
  {
    op.DoCreate? && CreateWin(s, op.title, op.w, op.h, op.bg, op.memF, op.memC).1 >= 0 ==> GapFree(s)
  }

  /** Each operation keeps windows in order, except for a creation exactly when there is a gap. */
  lemma ApplyKeepsOrder(s: Wm, op: WmOp)
    requires Inv(s) && Allowed(s, op) && InOrder(s)
    ensures InOrder(Apply(s, op)) <==> Orderly(s, op)
  {
    hide Inv, InOrder, InOrderBut, CreateWin, DestroyWin, Windows.Focus, MoveWin, DragStart, ResizeWin;
    hide Restore, RefreshTo, Change, GapFree, Scene.SetVisible;
    InvFacts(s);
    match op
    case DoCreate(title, w, h, bg, memF, memC) =>
      if CreateWin(s, title, w, h, bg, memF, memC).1 >= 0 {
        CreateOrder(s, title, w, h, bg, memF, memC);
      } else {
        FailedCreateOrder(s, title, w, h, bg, memF, memC);
      }
    case DoDestroy(id) => if HasWin(s, id) { DestroyKeepsOrder(s, id); } else { NoDestroy(s, id); }
    case DoFocus(id) => FocusKeepsOrder(s, id);
    case DoMove(id, x, y) => MoveKeepsOrder(s, id, x, y);
    case DoDragStart(id, x, y) => DragStartKeepsOrder(s, id, x, y);
    case DoDragTo(x, y) => DragToKeepsOrder(s, x, y);
    case DoDragEnd => InOrderFields(s, DragEnd(s));
    case DoResize(id, w, h, memF, memC) => ResizeKeepsOrder(s, id, w, h, memF, memC);
    case DoMinimize(id) => MinimizeKeepsOrder(s, id);
    case DoRestore(id) => RestoreKeepsOrder(s, id);
    case DoTheme(look) => ThemeKeepsOrder(s, look);
    case DoOther(o) => OtherKeepsOrder(s, o);
    case DoComposite => CompositeKeepsOrder(s);
  }

  lemma InOrderFields(s: Wm, s': Wm)
    requires InOrder(s) && s'.wins == s.wins && s'.comp == s.comp
    ensures InOrder(s')
  {
    FieldsKeepOrder(s, s', -1);
  }

  lemma DragToKeepsOrder(s: Wm, x: int, y: int)
    requires Inv(s) && InOrder(s)
    ensures InOrder(DragTo(s, x, y))
  {
    hide Inv, InOrder, MoveWin;
    if s.drag >= 0 {
      MoveKeepsOrder(s, s.drag, x - s.dragDx, y - s.dragDy);
      InOrderFields(s, s.(drag := -1));
    }
  }

  lemma MinimizeKeepsOrder(s: Wm, id: int)
    requires Inv(s) && InOrder(s)
    ensures InOrder(Minimize(s, id))
  {
    hide Inv, InOrder, Scene.SetVisible;
    if HasWin(s, id) && !WinOf(s, id).minimized { ShowKeepsOrder(s, Minimize(s, id), id, false); }
  }

  ghost predicate OrderlyRun(s: Wm, ops: seq<WmOp>)
    requires Inv(s) && AllowedRun(s, ops)
    decreases |ops|
  {
    ops == [] || (Orderly(s, ops[0]) && (ApplyKeepsInv(s, ops[0]); OrderlyRun(Apply(s, ops[0]), ops[1..])))
  }

  lemma {:induction false} RunKeepsOrder(s: Wm, ops: seq<WmOp>)
    requires Inv(s) && AllowedRun(s, ops) && InOrder(s) && OrderlyRun(s, ops)
    ensures InOrder(Windows.Run(s, ops))
    decreases |ops|
  {
    hide Inv, InOrder, Apply, Allowed, Orderly;
    if ops != [] {
      ApplyKeepsInv(s, ops[0]);
      ApplyKeepsOrder(s, ops[0]);
      RunKeepsOrder(Apply(s, ops[0]), ops[1..]);
    }
  }

  /** In every state reachable from wm_init by a run whose creations find no gap: whatever
      window is seen at a point is the one wm_hit_test returns. */
  lemma SeenIsHit(c: Comp, look: Look, ops: seq<WmOp>, k: int, x: int, y: int)
    requires Wf(c) && FontOk(look.font)
    ensures Inv(Start(c, look))
    ensures AllowedRun(Start(c, look), ops) && OrderlyRun(Start(c, look), ops) ==>
      var s := Windows.Run(Start(c, look), ops);
      Seen(s, k, x, y) ==> HitTest(s, x, y) == FromComp(s.wins, s.comp.slots[k].id)
  {
    StartKeepsInv(c, look);
    var s := Start(c, look);
    assert InOrder(s);
    hide Inv, InOrder;
    if AllowedRun(s, ops) && OrderlyRun(s, ops) {
      RunKeepsOrder(s, ops);
      if Seen(Windows.Run(s, ops), k, x, y) { HitIsSeen(Windows.Run(s, ops), k, x, y); }
    }
  }

  /** Giving a new window the focus puts it in order, gap or not. */
  lemma CreateThenFocus(s: Wm, title: seq<byte>, w: int, h: int, bg: Px, memF: bool, memC: bool)
    requires Inv(s) && InOrder(s) && CreateWin(s, title, w, h, bg, memF, memC).1 >= 0
    ensures var (s', id) := CreateWin(s, title, w, h, bg, memF, memC);
      FontOk(s'.look.font) && InOrder(Windows.Focus(s', id))
  {
    hide WinOk, Wf, Scene.Create, Scene.Destroy, Scene.Move, Scene.Fill, DrawFrame, InOrder, InOrderBut;
    CreateKeepsInv(s, title, w, h, bg, memF, memC);
    CreateOrder(s, title, w, h, bg, memF, memC);
    var (s', id) := CreateWin(s, title, w, h, bg, memF, memC);
    FindWinAt(s', FreeWin(s.wins));
    FocusMakesOrder(s', id);
  }

  // ----- What a gap does -----------------------------------------------------------------------------------

  /** Which surface is in each slot; 0 is none. */
  function Plan(slots: seq<Slot>): (r: seq<int>)
    ensures |r| == |slots|
  {
    seq(|slots|, k requires 0 <= k < |slots| => if slots[k].Surf? then slots[k].id else 0)
  }

  lemma PlaceOf(c: Comp, k: nat)
    requires Wf(c) && k < COMP_MAX && Plan(c.slots)[k] != 0
    ensures Known(c, Plan(c.slots)[k]) && Z(c, Plan(c.slots)[k]) == k
  {
    FoundAt(c.slots, k);
  }

  lemma FirstFreeIs(c: Comp, k: nat)
    requires Wf(c) && k < COMP_MAX && Plan(c.slots)[k] == 0 && forall m :: 0 <= m < k ==> Plan(c.slots)[m] != 0
    ensures FirstFree(c.slots) == k
  {
    assert c.slots[k].Free?;
    forall m | 0 <= m < k
      ensures c.slots[m].Surf?
    {
      assert Plan(c.slots)[m] != 0;
    }
  }

  lemma CreatePlan(c: Comp, w: nat, h: nat, k: nat)
    requires Wf(c) && SizeOk(w, h) && k < COMP_MAX
    requires Plan(c.slots)[k] == 0 && forall m :: 0 <= m < k ==> Plan(c.slots)[m] != 0
    ensures var (c', id) := Scene.Create(c, w, h, true);
      Wf(c') && id == c.nextId && c'.nextId == id + 1 && Plan(c'.slots) == Plan(c.slots)[k := id]
  {
    FirstFreeIs(c, k);
    CreateIsLocal(c, w, h, true);
  }

  lemma DestroyPlan(c: Comp, k: nat)
    requires Wf(c) && k < COMP_MAX && Plan(c.slots)[k] != 0
    ensures Plan(Scene.Destroy(c, Plan(c.slots)[k]).slots) == Plan(c.slots)[k := 0]
  {
    PlaceOf(c, k);
  }

  lemma DressPlan(c: Comp, win: Win, look: Look)
    requires Wf(c) && win.Win? && FontOk(look.font)
    ensures
      var c1 := Scene.Fill(Scene.Move(c, win.client, 1, TITLE_H), win.client, win.bg);
      var c' := DrawFrame(c1, win, false, look);
      Plan(c'.slots) == Plan(c.slots) && c'.nextId == c.nextId
  {
    hide DrawFrame, Scene.Fill;
    MoveIsLocal(c, win.client, 1, TITLE_H);
    assert Plan(Scene.Move(c, win.client, 1, TITLE_H).slots) == Plan(c.slots);
    DecorateLayout(Scene.Move(c, win.client, 1, TITLE_H), win, look);
  }

  /** A window made in the free slots a and b. */
  lemma WindowPlan(s: Wm, a: nat, b: nat)
    requires Inv(s) && a < b < COMP_MAX && FreeWin(s.wins) < WM_MAX
    requires var p := Plan(s.comp.slots);
      p[a] == p[b] == 0 && forall m :: 0 <= m < b && m != a ==> p[m] != 0
    ensures var (s', id) := CreateWin(s, [], 20, 20, Black, true, true);
      && id == s.nextId && s'.comp.nextId == s.comp.nextId + 2
      && s'.wins == s.wins[FreeWin(s.wins) := Win(id, s.comp.nextId, s.comp.nextId + 1, 0, 0, 20, 20, false, Black, [])]
      && Plan(s'.comp.slots) == Plan(s.comp.slots)[a := s.comp.nextId][b := s.comp.nextId + 1]
  {
    hide WinOk, Disjoint, Wf, Scene.Create, Scene.Destroy, Scene.Move, Scene.Fill, DrawFrame, Plan;
    SlotIds(s.comp);
    CreatePlan(s.comp, 20, 20, a);
    var c1 := Scene.Create(s.comp, 20, 20, true).0;
    CreatePlan(c1, 18, 9, b);
    var c2 := Scene.Create(c1, 18, 9, true).0;
    DressPlan(c2, Win(s.nextId, s.comp.nextId, s.comp.nextId + 1, 0, 0, 20, 20, false, Black, []), s.look);
  }

  lemma SlotIds(c: Comp)
    requires Wf(c)
    ensures c.nextId > 0 && |Plan(c.slots)| == COMP_MAX
  {
  }

  /** At a point in the title bars of two windows and in no other window, where j's frame is
      the lower and its client the higher: i is seen, and j is hit. */
  lemma TitleBars(s: Wm, i: nat, j: nat, x: int, y: int)
    requires Inv(s) && i != j && Hittable(s, i, x, y) && Hittable(s, j, x, y)
    requires forall m :: Hittable(s, m, x, y) ==> m == i || m == j
    requires y < s.wins[i].y + TITLE_H && y < s.wins[j].y + TITLE_H
    requires Z(s.comp, s.wins[j].frame) < Z(s.comp, s.wins[i].frame)
    requires Z(s.comp, s.wins[i].client) < Z(s.comp, s.wins[j].client)
    ensures var k := Z(s.comp, s.wins[i].frame);
      Seen(s, k, x, y) && FromComp(s.wins, s.comp.slots[k].id) == s.wins[i].id && HitTest(s, x, y) == s.wins[j].id
  {
    hide Inv, Covers, FromComp;
    var k := Z(s.comp, s.wins[i].frame);
    FrameShows(s, i, x, y);
    OwnerOf(s, i, k, x, y);
    forall m | k < m
      ensures !Shows(s, m, x, y)
    {
      if Shows(s, m, x, y) {
        var n := ShownInside(s, m, x, y);
        NotInTitle(s, n, x, y);
      }
    }
    HitTestHits(s, j, x, y);
  }

  lemma OwnerOf(s: Wm, i: nat, k: nat, x: int, y: int)
    requires Inv(s) && Hittable(s, i, x, y) && k == Z(s.comp, s.wins[i].frame)
    ensures k < COMP_MAX && s.comp.slots[k].Surf? && FromComp(s.wins, s.comp.slots[k].id) == s.wins[i].id
  {
    assert WinOk(s.comp, s.wins[i]);
    FromCompIs(s.wins, i, s.wins[i].frame);
  }

  /** The client does not reach into the title bar. */
  lemma NotInTitle(s: Wm, n: nat, x: int, y: int)
    requires Inv(s) && Hittable(s, n, x, y) && y < s.wins[n].y + TITLE_H
    ensures !Shows(s, Z(s.comp, s.wins[n].client), x, y)
  {
    assert WinOk(s.comp, s.wins[n]);
  }

  /** Somebody's surface, a window, the surface away again, a second window: the second
      window's frame takes the slot below the first one, its client the slot above. */
  function GapRun(): seq<WmOp> {
    [ DoOther(OpCreate(1, 1, true)), DoCreate([], 20, 20, Black, true, true),
      DoOther(OpDestroy(1)), DoCreate([], 20, 20, Black, true, true) ]
  }

  /** So from wm_init a click into the title bar that is seen can hit another window. */
  lemma UnseenIsHit(w: nat, h: nat, cursor: Cursor, look: Look)
    requires FontOk(look.font)
    ensures var s := Start(EmptyDesk(w, h, cursor), look);
      && Inv(s) && AllowedRun(s, GapRun())
      && var end := Windows.Run(s, GapRun());
         Seen(end, 1, 5, 5) && FromComp(end.wins, end.comp.slots[1].id) == 1 && HitTest(end, 5, 5) == 2
  {
    var s0 := Start(EmptyDesk(w, h, cursor), look);
    StartKeepsInv(EmptyDesk(w, h, cursor), look);
    var s1 := GapOne(s0);
    var s2 := GapTwo(s1);
    var s3 := GapThree(s2);
    var s4 := GapFour(s3);
    hide Inv, Apply, Allowed, HitTest, Seen, FromComp;
    RunOfFour(s0, GapRun(), s1, s2, s3, s4);
  }

  lemma RunOfFour(s0: Wm, ops: seq<WmOp>, s1: Wm, s2: Wm, s3: Wm, s4: Wm)
    requires Inv(s0) && |ops| == 4 && Allowed(s0, ops[0]) && s1 == Apply(s0, ops[0])
    requires Inv(s1) && Allowed(s1, ops[1]) && s2 == Apply(s1, ops[1])
    requires Inv(s2) && Allowed(s2, ops[2]) && s3 == Apply(s2, ops[2])
    requires Inv(s3) && Allowed(s3, ops[3]) && s4 == Apply(s3, ops[3])
    ensures AllowedRun(s0, ops) && Windows.Run(s0, ops) == s4
  {
    hide Inv, Apply, Allowed;
    assert ops[1..][1..] == ops[2..] && ops[2..][1..] == ops[3..] && ops[3..][1..] == [];
    ApplyKeepsInv(s3, ops[3]);
    assert AllowedRun(s4, []) && Windows.Run(s4, []) == s4;
    assert AllowedRun(s3, ops[3..]) && Windows.Run(s3, ops[3..]) == s4;
    assert AllowedRun(s2, ops[2..]) && Windows.Run(s2, ops[2..]) == s4;
    assert AllowedRun(s1, ops[1..]) && Windows.Run(s1, ops[1..]) == s4;
  }

  predicate NoWins(s: Wm) {
    |s.wins| == WM_MAX && forall k :: 0 <= k < WM_MAX ==> s.wins[k] == NoWin
  }

  predicate Row(c: Comp, a: int, b: int, d: int, e: int) {
    |c.slots| == COMP_MAX && Plan(c.slots)[0] == a && Plan(c.slots)[1] == b && Plan(c.slots)[2] == d
    && Plan(c.slots)[3] == e
  }

  const Made: Win := Win(1, 2, 3, 0, 0, 20, 20, false, Black, [])
  const Late: Win := Win(2, 4, 5, 0, 0, 20, 20, false, Black, [])

  lemma GapOne(s: Wm) returns (s': Wm)
    requires Inv(s) && NoWins(s) && s.nextId == 1 && s.comp.nextId == 1 && Row(s.comp, 0, 0, 0, 0)
    ensures Allowed(s, GapRun()[0]) && s' == Apply(s, GapRun()[0]) && Inv(s')
    ensures NoWins(s') && s'.nextId == 1 && s'.comp.nextId == 2 && Row(s'.comp, 1, 0, 0, 0)
  {
    hide Scene.Create;
    s' := Apply(s, GapRun()[0]);
    ApplyKeepsInv(s, GapRun()[0]);
    CreatePlan(s.comp, 1, 1, 0);
  }

  lemma GapTwo(s: Wm) returns (s': Wm)
    requires Inv(s) && NoWins(s) && s.nextId == 1 && s.comp.nextId == 2 && Row(s.comp, 1, 0, 0, 0)
    ensures Allowed(s, GapRun()[1]) && s' == Apply(s, GapRun()[1]) && Inv(s')
    ensures s'.wins[0] == Made && (forall k :: 0 < k < WM_MAX ==> s'.wins[k] == NoWin)
    ensures s'.nextId == 2 && s'.comp.nextId == 4 && Row(s'.comp, 1, 2, 3, 0)
  {
    hide CreateWin, WinOk, Disjoint, Wf;
    s' := Apply(s, GapRun()[1]);
    ApplyKeepsInv(s, GapRun()[1]);
    WindowPlan(s, 1, 2);
    CreateNext(s);
  }

  lemma CreateNext(s: Wm)
    requires FontOk(s.look.font)
    ensures var (s', id) := CreateWin(s, [], 20, 20, Black, true, true); id >= 0 ==> s'.nextId == s.nextId + 1
  {
  }

  lemma GapThree(s: Wm) returns (s': Wm)
    requires Inv(s) && s.wins[0] == Made && (forall k :: 0 < k < WM_MAX ==> s.wins[k] == NoWin)
    requires s.nextId == 2 && s.comp.nextId == 4 && Row(s.comp, 1, 2, 3, 0)
    ensures Allowed(s, GapRun()[2]) && s' == Apply(s, GapRun()[2]) && Inv(s')
    ensures s'.wins == s.wins && s'.nextId == 2 && s'.comp.nextId == 4 && Row(s'.comp, 0, 2, 3, 0)
  {
    assert Foreign(s, OpDestroy(1));
    s' := Apply(s, GapRun()[2]);
    ApplyKeepsInv(s, GapRun()[2]);
    DestroyPlan(s.comp, 0);
  }

  lemma GapFour(s: Wm) returns (s': Wm)
    requires Inv(s) && s.wins[0] == Made && (forall k :: 0 < k < WM_MAX ==> s.wins[k] == NoWin)
    requires s.nextId == 2 && s.comp.nextId == 4 && Row(s.comp, 0, 2, 3, 0)
    ensures Allowed(s, GapRun()[3]) && s' == Apply(s, GapRun()[3]) && Inv(s')
    ensures Seen(s', 1, 5, 5) && FromComp(s'.wins, s'.comp.slots[1].id) == 1 && HitTest(s', 5, 5) == 2
  {
    hide CreateWin, WinOk, Disjoint, Wf, Seen, HitTest, FromComp, Z;
    s' := Apply(s, GapRun()[3]);
    ApplyKeepsInv(s, GapRun()[3]);
    WindowPlan(s, 0, 3);
    InvFacts(s');
    PlaceOf(s'.comp, 0);
    PlaceOf(s'.comp, 1);
    PlaceOf(s'.comp, 2);
    PlaceOf(s'.comp, 3);
    assert s'.wins[0] == Made && s'.wins[1] == Late;
    TitleBars(s', 0, 1, 5, 5);
  }
}

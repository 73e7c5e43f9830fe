// The window manager and the compositor together: every window-manager operation
// is a run of compositor calls, so what is proved of compositor runs holds of the
// desktop as a whole.

module Desktop {
  import opened Gfx
  import opened Damage
  import opened Scene
  import opened Windows
  import opened Words

  // ----- Runs of compositor calls ----------------------------------------------------------

  /** The compositor after some calls. */
  function After(c: Comp, ops: seq<Op>): (r: Comp)
    requires Wf(c) && forall op :: op in ops ==> OpOk(op)
    ensures Wf(r)
  {
    if ops == [] then c else One(After(c, ops[..|ops| - 1]), ops[|ops| - 1])
  }

  lemma {:induction false} AfterConcat(c: Comp, a: seq<Op>, b: seq<Op>)
    requires Wf(c) && (forall op :: op in a ==> OpOk(op)) && (forall op :: op in b ==> OpOk(op))
    ensures After(c, a + b) == After(After(c, a), b)
    decreases |b|
  {
    hide Wf, OpOk, One;
    if b == [] {
      assert a + b == a;
    } else {
      var n := |b| - 1;
      assert (a + b)[..|a| + n] == a + b[..n];
      AfterConcat(c, a, b[..n]);
    }
  }

  lemma AfterOne(c: Comp, op: Op)
    requires Wf(c) && OpOk(op)
    ensures After(c, []) == c && After(c, [op]) == One(c, op)
  {
    assert [op][..0] == [];
  }

  lemma AfterTwo(c: Comp, a: Op, b: Op)
    requires Wf(c) && OpOk(a) && OpOk(b)
    ensures After(c, [a, b]) == One(One(c, a), b)
  {
    AfterOne(c, a);
    AfterOne(One(c, a), b);
    assert [a, b] == [a] + [b];
    AfterConcat(c, [a], [b]);
  }

  /** A run from a desk leaves its compositor as these calls do. */
  lemma {:induction false} RunIsAfter(d: Desk, ops: seq<Op>, solid: Mode)
    requires Wf(d.comp) && !solid.Blend? && forall op :: op in ops ==> OpOk(op)
    ensures Scene.Run(d, ops, solid).comp == After(d.comp, ops)
    decreases |ops|
  {
    hide Wf, OpOk, Repaint, Change;
    if ops != [] {
      RunIsAfter(Step(d, ops[0], solid), ops[1..], solid);
      AfterOne(d.comp, ops[0]);
      assert ops == [ops[0]] + ops[1..];
      AfterConcat(d.comp, [ops[0]], ops[1..]);
    }
  }

  // ----- The calls of each window-manager operation -----------------------------------------

  function CreateCalls(s: Wm, title: seq<byte>, w: int, h: int, bg: Px, memF: bool, memC: bool): seq<Op>
    requires FontOk(s.look.font)
  {
    if w <= TITLE_H + 4 || h <= TITLE_H + 4 || w > DIM_MAX || h > DIM_MAX || FreeWin(s.wins) == |s.wins| then [] else
    var (c1, fid) := Scene.Create(s.comp, w, h, memF);
    var (c2, cid) := Scene.Create(c1, w - 2, h - TITLE_H, memC);
    var frame, client := OpCreate(w, h, memF), OpCreate(w - 2, h - TITLE_H, memC);
    if fid < 0 then [frame]
    else if cid < 0 then [frame, client] + [OpDestroy(fid)]
    else
      var win := Win(s.nextId, fid, cid, 0, 0, w, h, false, bg, if |title| > 23 then title[..23] else title);
      [frame, client] + [OpMove(cid, 1, TITLE_H), OpFill(cid, bg)] + FrameOps(win, false, s.look)
  }

  function FocusCalls(s: Wm, id: int): seq<Op>
    requires FontOk(s.look.font)
  {
    if !HasWin(s, id) || WinOf(s, id).minimized || s.focus == id then [] else
    var w := WinOf(s, id);
    (if HasWin(s, s.focus) then FrameOps(WinOf(s, s.focus), false, s.look) else [])
    + [OpRaise(w.frame), OpRaise(w.client)] + FrameOps(w, true, s.look)
  }

  function MoveCalls(s: Wm, id: int, x: int, y: int): seq<Op> {
    if !HasWin(s, id) then [] else
    var w := WinOf(s, id);
    [OpMove(w.frame, x, y), OpMove(w.client, x + 1, y + TITLE_H)]
  }

  function ResizeCalls(s: Wm, id: int, w: int, h: int, memF: bool, memC: bool): seq<Op>
    requires FontOk(s.look.font)
  {
    if !HasWin(s, id) || w <= TITLE_H + 4 || h <= TITLE_H + 4 || w > DIM_MAX || h > DIM_MAX then [] else
    var win := WinOf(s, id);
    var (c1, r1) := Scene.Resize(s.comp, win.frame, w, h, memF);
    var (c2, r2) := Scene.Resize(c1, win.client, w - 2, h - TITLE_H, memC);
    var frame, client := OpResize(win.frame, w, h, memF), OpResize(win.client, w - 2, h - TITLE_H, memC);
    if r1 != 0 then [frame]
    else if r2 != 0 then [frame, client]
    else
      [frame, client] + [OpMove(win.client, win.x + 1, win.y + TITLE_H)]
      + FrameOps(win.(w := w, h := h), id == s.focus, s.look)
  }

  function ShowCalls(w: Win, v: bool): seq<Op>
    requires w.Win?
  {
    [OpSetVisible(w.frame, v), OpSetVisible(w.client, v)]
  }

  function RestoreCalls(s: Wm, id: int): seq<Op>
    requires FontOk(s.look.font)
  {
    if !HasWin(s, id) || !WinOf(s, id).minimized then [] else
    var w := WinOf(s, id);
    ShowCalls(w, true) + FocusCalls(Shown(s, id), id)
  }

  /** wm_restore before its wm_focus. */
  function Shown(s: Wm, id: int): Wm
    requires HasWin(s, id)
  {
    var w := WinOf(s, id);
    SetWin(s, id, w.(minimized := false)).(
      comp := Scene.SetVisible(Scene.SetVisible(s.comp, w.frame, true), w.client, true))
  }

  /** wm_refresh_frames on the first n windows. */
  function RefreshCalls(s: Wm, n: nat): seq<Op>
    requires n <= |s.wins| && FontOk(s.look.font)
  {
    if n == 0 then []
    else
      RefreshCalls(s, n - 1)
      + if s.wins[n - 1].NoWin? then [] else FrameOps(s.wins[n - 1], s.wins[n - 1].id == s.focus, s.look)
  }

  /** The compositor calls one operation makes, in order. */
  function Calls(s: Wm, op: WmOp): seq<Op>
    requires Inv(s) && Allowed(s, op)
  {
    match op
    case DoCreate(title, w, h, bg, memF, memC) => CreateCalls(s, title, w, h, bg, memF, memC)
    case DoDestroy(id) =>
      if HasWin(s, id) then [OpDestroy(WinOf(s, id).frame), OpDestroy(WinOf(s, id).client)] else []
    case DoFocus(id) => FocusCalls(s, id)
    case DoMove(id, x, y) => MoveCalls(s, id, x, y)
    case DoDragStart(id, x, y) => FocusCalls(s, id)
    case DoDragTo(x, y) => if s.drag < 0 then [] else MoveCalls(s, s.drag, x - s.dragDx, y - s.dragDy)
    case DoDragEnd => []
    case DoResize(id, w, h, memF, memC) => ResizeCalls(s, id, w, h, memF, memC)
    case DoMinimize(id) =>
      if HasWin(s, id) && !WinOf(s, id).minimized then ShowCalls(WinOf(s, id), false) else []
    case DoRestore(id) => RestoreCalls(s, id)
    case DoTheme(look) => RefreshCalls(s.(look := look), WM_MAX)
    case DoOther(o) => [o]
    case DoComposite => [OpComposite]
  }

  // ----- These calls are what the operation does ----------------------------------------------

  lemma {:induction false} DrawAllIsAfter(c: Comp, ops: seq<Op>)
    requires Wf(c) && forall op :: op in ops ==> Draws(op) && OpOk(op)
    ensures After(c, ops) == DrawAll(c, ops)
  {
    hide Wf, OpOk, Draws, One, DrawOne;
    if ops != [] {
      var n := |ops| - 1;
      DrawAllIsAfter(c, ops[..n]);
      assert ops[n] in ops;
      DrawIsOne(After(c, ops[..n]), ops[n]);
    }
  }

  lemma DrawIsOne(c: Comp, op: Op)
    requires Wf(c) && Draws(op)
    ensures One(c, op) == DrawOne(c, op)
  {
    hide Wf, Scene.Fill, Scene.FillRect, Scene.Outline, Scene.Text;
  }

  lemma FrameIsAfter(c: Comp, w: Win, focused: bool, look: Look)
    requires Wf(c) && w.Win? && FontOk(look.font)
    ensures After(c, FrameOps(w, focused, look)) == DrawFrame(c, w, focused, look)
  {
    DrawAllIsAfter(c, FrameOps(w, focused, look));
  }

  lemma CreateIsCalls(s: Wm, title: seq<byte>, w: int, h: int, bg: Px, memF: bool, memC: bool)
    requires Inv(s)
    ensures forall op :: op in CreateCalls(s, title, w, h, bg, memF, memC) ==> OpOk(op)
    ensures After(s.comp, CreateCalls(s, title, w, h, bg, memF, memC))
         == CreateWin(s, title, w, h, bg, memF, memC).0.comp
  {
    hide Wf, WinOk, Disjoint, After, Scene.Create, Scene.Destroy, Scene.Move, Scene.Fill, DrawFrame, FrameOps;
    AfterOne(s.comp, OpComposite);
    if TITLE_H + 4 < w <= DIM_MAX && TITLE_H + 4 < h <= DIM_MAX && FreeWin(s.wins) < |s.wins| {
      var c1, fid := Scene.Create(s.comp, w, h, memF).0, Scene.Create(s.comp, w, h, memF).1;
      var c2, cid := Scene.Create(c1, w - 2, h - TITLE_H, memC).0, Scene.Create(c1, w - 2, h - TITLE_H, memC).1;
      var frame, client := OpCreate(w, h, memF), OpCreate(w - 2, h - TITLE_H, memC);
      AfterOne(s.comp, frame);
      AfterTwo(s.comp, frame, client);
      if fid >= 0 && cid < 0 {
        AfterConcat(s.comp, [frame, client], [OpDestroy(fid)]);
        AfterOne(c2, OpDestroy(fid));
      } else if fid >= 0 {
        var win := Win(s.nextId, fid, cid, 0, 0, w, h, false, bg, if |title| > 23 then title[..23] else title);
        var place: seq<Op> := [OpMove(cid, 1, TITLE_H), OpFill(cid, bg)];
        AfterTwo(c2, OpMove(cid, 1, TITLE_H), OpFill(cid, bg));
        AfterConcat(s.comp, [frame, client], place);
        AfterConcat(s.comp, [frame, client] + place, FrameOps(win, false, s.look));
        FrameIsAfter(After(c2, place), win, false, s.look);
      }
    }
  }

  lemma MoveIsCalls(s: Wm, id: int, x: int, y: int)
    requires Inv(s)
    ensures forall op :: op in MoveCalls(s, id, x, y) ==> OpOk(op)
    ensures After(s.comp, MoveCalls(s, id, x, y)) == MoveWin(s, id, x, y).comp
  {
    hide Wf, WinOk, Disjoint, After, Scene.Move;
    AfterOne(s.comp, OpComposite);
    if HasWin(s, id) {
      var w := WinOf(s, id);
      AfterTwo(s.comp, OpMove(w.frame, x, y), OpMove(w.client, x + 1, y + TITLE_H));
    }
  }

  lemma DestroyIsCalls(s: Wm, id: int)
    requires Inv(s) && HasWin(s, id)
    ensures var w := WinOf(s, id); After(s.comp, [OpDestroy(w.frame), OpDestroy(w.client)]) == DestroyWin(s, id).comp
  {
    hide Wf, WinOk, Disjoint, After, Scene.Destroy;
    var w := WinOf(s, id);
    AfterTwo(s.comp, OpDestroy(w.frame), OpDestroy(w.client));
  }

  lemma ShowIsCalls(c: Comp, w: Win, v: bool)
    requires Wf(c) && w.Win?
    ensures After(c, ShowCalls(w, v)) == Scene.SetVisible(Scene.SetVisible(c, w.frame, v), w.client, v)
  {
    hide Wf, After, Scene.SetVisible;
    AfterTwo(c, OpSetVisible(w.frame, v), OpSetVisible(w.client, v));
  }

  lemma FocusIsCalls(s: Wm, id: int)
    requires Inv(s)
    ensures forall op :: op in FocusCalls(s, id) ==> OpOk(op)
    ensures After(s.comp, FocusCalls(s, id)) == Windows.Focus(s, id).comp
  {
    hide Wf, WinOk, Disjoint, After, Scene.Raise, DrawFrame, FrameOps;
    AfterOne(s.comp, OpComposite);
    if HasWin(s, id) && !WinOf(s, id).minimized && s.focus != id {
      var w := WinOf(s, id);
      var fade: seq<Op> := if HasWin(s, s.focus) then FrameOps(WinOf(s, s.focus), false, s.look) else [];
      var raises: seq<Op> := [OpRaise(w.frame), OpRaise(w.client)];
      if HasWin(s, s.focus) { FrameIsAfter(s.comp, WinOf(s, s.focus), false, s.look); }
      var c1 := After(s.comp, fade);
      AfterTwo(c1, OpRaise(w.frame), OpRaise(w.client));
      AfterConcat(s.comp, fade, raises);
      AfterConcat(s.comp, fade + raises, FrameOps(w, true, s.look));
      FrameIsAfter(After(c1, raises), w, true, s.look);
    }
  }

  lemma ResizeIsCalls(s: Wm, id: int, w: int, h: int, memF: bool, memC: bool)
    requires Inv(s)
    ensures forall op :: op in ResizeCalls(s, id, w, h, memF, memC) ==> OpOk(op)
    ensures After(s.comp, ResizeCalls(s, id, w, h, memF, memC)) == ResizeWin(s, id, w, h, memF, memC).0.comp
  {
    hide Wf, Inv, After, Scene.Resize, Scene.Move, DrawFrame, FrameOps;
    InvFacts(s);
    AfterOne(s.comp, OpComposite);
    if HasWin(s, id) && TITLE_H + 4 < w <= DIM_MAX && TITLE_H + 4 < h <= DIM_MAX {
      var win := WinOf(s, id);
      var c1, r1 := Scene.Resize(s.comp, win.frame, w, h, memF).0, Scene.Resize(s.comp, win.frame, w, h, memF).1;
      var frame, client := OpResize(win.frame, w, h, memF), OpResize(win.client, w - 2, h - TITLE_H, memC);
      AfterOne(s.comp, frame);
      AfterTwo(s.comp, frame, client);
      MoveThenFrame(s.comp, [frame, client], OpMove(win.client, win.x + 1, win.y + TITLE_H),
                    win.(w := w, h := h), id == s.focus, s.look);
    }
  }

  lemma MoveThenFrame(c: Comp, ops: seq<Op>, move: Op, w: Win, focused: bool, look: Look)
    requires Wf(c) && w.Win? && FontOk(look.font) && OpOk(move) && forall op :: op in ops ==> OpOk(op)
    ensures After(c, ops + [move] + FrameOps(w, focused, look)) == DrawFrame(One(After(c, ops), move), w, focused, look)
  {
    hide Wf, After, One, DrawFrame, FrameOps;
    AfterOne(After(c, ops), move);
    AfterConcat(c, ops, [move]);
    AfterConcat(c, ops + [move], FrameOps(w, focused, look));
    FrameIsAfter(One(After(c, ops), move), w, focused, look);
  }

  lemma {:induction false} RefreshIsCalls(s: Wm, n: nat)
    requires Inv(s) && n <= WM_MAX
    ensures forall op :: op in RefreshCalls(s, n) ==> OpOk(op)
    ensures After(s.comp, RefreshCalls(s, n)) == RefreshTo(s, n).comp
  {
    hide Wf, Inv, After, DrawFrame, FrameOps, HasWin;
    InvFacts(s);
    AfterOne(s.comp, OpComposite);
    if n > 0 {
      RefreshIsCalls(s, n - 1);
      RefreshKeepsInv(s, n - 1);
      InvFacts(RefreshTo(s, n - 1));
      var w := s.wins[n - 1];
      if w.Win? {
        AfterConcat(s.comp, RefreshCalls(s, n - 1), FrameOps(w, w.id == s.focus, s.look));
        FrameIsAfter(RefreshTo(s, n - 1).comp, w, w.id == s.focus, s.look);
      } else {
        assert RefreshCalls(s, n) == RefreshCalls(s, n - 1);
      }
    }
  }

  lemma RestoreIsCalls(s: Wm, id: int)
    requires Inv(s)
    ensures forall op :: op in RestoreCalls(s, id) ==> OpOk(op)
    ensures After(s.comp, RestoreCalls(s, id)) == Restore(s, id).comp
  {
    hide Wf, WinOk, Disjoint, After, Scene.SetVisible, Windows.Focus, FocusCalls;
    AfterOne(s.comp, OpComposite);
    if HasWin(s, id) && WinOf(s, id).minimized {
      var w := WinOf(s, id);
      ShowKeepsInv(s, id, true, s.focus);
      ShowIsCalls(s.comp, w, true);
      FocusIsCalls(Shown(s, id), id);
      AfterConcat(s.comp, ShowCalls(w, true), FocusCalls(Shown(s, id), id));
    }
  }

  /** Every window-manager operation does to the compositor what its calls do. */
  lemma ApplyIsCalls(s: Wm, op: WmOp)
    requires Inv(s) && Allowed(s, op)
    ensures forall o :: o in Calls(s, op) ==> OpOk(o)
    ensures After(s.comp, Calls(s, op)) == Apply(s, op).comp
  {
    hide Wf, WinOk, Disjoint, After, Inv, Change, CreateCalls, FocusCalls, MoveCalls, ResizeCalls, RestoreCalls;
    hide RefreshCalls, CreateWin, DestroyWin, Windows.Focus, MoveWin, ResizeWin, Restore, RefreshTo;
    InvFacts(s);
    AfterOne(s.comp, OpComposite);
    match op
    case DoCreate(title, w, h, bg, memF, memC) => CreateIsCalls(s, title, w, h, bg, memF, memC);
    case DoDestroy(id) =>
      if HasWin(s, id) { DestroyIsCalls(s, id); } else { NoDestroy(s, id); }
    case DoFocus(id) => FocusIsCalls(s, id);
    case DoMove(id, x, y) => MoveIsCalls(s, id, x, y);
    case DoDragStart(id, x, y) => DragStartIsCalls(s, id, x, y);
    case DoDragTo(x, y) => DragToIsCalls(s, x, y);
    case DoDragEnd =>
    case DoResize(id, w, h, memF, memC) => ResizeIsCalls(s, id, w, h, memF, memC);
    case DoMinimize(id) => if HasWin(s, id) && !WinOf(s, id).minimized { ShowIsCalls(s.comp, WinOf(s, id), false); }
    case DoRestore(id) => RestoreIsCalls(s, id);
    case DoTheme(look) =>
      LookKeepsInv(s, look);
      RefreshIsCalls(s.(look := look), WM_MAX);
    case DoOther(o) => AfterOne(s.comp, o);
    case DoComposite =>
  }

  lemma InvFacts(s: Wm)
    requires Inv(s)
    ensures Wf(s.comp) && FontOk(s.look.font) && |s.wins| == WM_MAX
  {
  }

  lemma NoDestroy(s: Wm, id: int)
    requires !HasWin(s, id)
    ensures DestroyWin(s, id) == s
  {
  }

  lemma DragStartIsCalls(s: Wm, id: int, x: int, y: int)
    requires Inv(s)
    ensures forall op :: op in FocusCalls(s, id) ==> OpOk(op)
    ensures After(s.comp, FocusCalls(s, id)) == DragStart(s, id, x, y).comp
  {
    hide Wf, WinOk, Disjoint, After, FrameOps, DrawFrame, Scene.Raise;
    FocusIsCalls(s, id);
  }

  lemma DragToIsCalls(s: Wm, x: int, y: int)
    requires Inv(s)
    ensures s.drag >= 0 ==> forall op :: op in MoveCalls(s, s.drag, x - s.dragDx, y - s.dragDy) ==> OpOk(op)
    ensures After(s.comp, if s.drag < 0 then [] else MoveCalls(s, s.drag, x - s.dragDx, y - s.dragDy))
         == DragTo(s, x, y).comp
  {
    hide Wf, WinOk, Disjoint, After, Scene.Move;
    AfterOne(s.comp, OpComposite);
    if s.drag >= 0 { MoveIsCalls(s, s.drag, x - s.dragDx, y - s.dragDy); }
  }

  // ----- The calls fit ------------------------------------------------------------------------

  ghost predicate AllFit(calls: seq<Op>) {
    forall op :: op in calls ==> CallFits(op)
  }

  lemma NoneFit()
    ensures AllFit([])
  {
  }

  lemma BothFit(a: seq<Op>, b: seq<Op>)
    requires AllFit(a) && AllFit(b)
    ensures AllFit(a + b)
  {
  }

  lemma PairFits(a: Op, b: Op)
    requires CallFits(a) && CallFits(b)
    ensures AllFit([a]) && AllFit([a, b])
  {
  }

  lemma FrameFits(s: Wm, k: nat, focused: bool)
    requires Inv(s) && Near(s) && k < WM_MAX && s.wins[k].Win?
    ensures AllFit(FrameOps(s.wins[k], focused, s.look))
  {
    hide FrameOps;
    assert WinOk(s.comp, s.wins[k]);
    FrameCallsFit(s.wins[k], focused, s.look);
  }

  lemma CreateFits(s: Wm, title: seq<byte>, w: int, h: int, bg: Px, memF: bool, memC: bool)
    requires Inv(s)
    ensures AllFit(CreateCalls(s, title, w, h, bg, memF, memC))
  {
    hide Scene.Create, WinOk, Wf;
    if TITLE_H + 4 < w <= DIM_MAX && TITLE_H + 4 < h <= DIM_MAX && FreeWin(s.wins) < |s.wins| {
    }
  }

  lemma FocusFits(s: Wm, id: int)
    requires Inv(s) && Near(s)
    ensures AllFit(FocusCalls(s, id))
  {
    hide AllFit, FrameOps, WinOk, Wf, NearWins;
    NoneFit();
    if HasWin(s, id) && !WinOf(s, id).minimized && s.focus != id {
      var w := WinOf(s, id);
      var fade: seq<Op> := if HasWin(s, s.focus) then FrameOps(WinOf(s, s.focus), false, s.look) else [];
      if HasWin(s, s.focus) { FrameFits(s, FindWin(s.wins, s.focus), false); }
      PairFits(OpRaise(w.frame), OpRaise(w.client));
      BothFit(fade, [OpRaise(w.frame), OpRaise(w.client)]);
      FrameFits(s, FindWin(s.wins, id), true);
      BothFit(fade + [OpRaise(w.frame), OpRaise(w.client)], FrameOps(w, true, s.look));
    }
  }

  lemma MoveFits(s: Wm, id: int, x: int, y: int)
    requires HasWin(s, id) ==> Within(x, 2 * NEAR_MAX) && Within(y, 2 * NEAR_MAX)
    ensures AllFit(MoveCalls(s, id, x, y))
  {
  }

  lemma ResizeFits(s: Wm, id: int, w: int, h: int, memF: bool, memC: bool)
    requires Inv(s) && Near(s)
    ensures AllFit(ResizeCalls(s, id, w, h, memF, memC))
  {
    hide Scene.Resize, WinOk, Wf, Disjoint, FrameOps;
    if HasWin(s, id) && TITLE_H + 4 < w <= DIM_MAX && TITLE_H + 4 < h <= DIM_MAX {
      var win := WinOf(s, id);
      NearOf(s.wins, FindWin(s.wins, id));
      FrameCallsFit(win.(w := w, h := h), id == s.focus, s.look);
    }
  }

  lemma {:induction false} RefreshFits(s: Wm, n: nat)
    requires Inv(s) && Near(s) && n <= WM_MAX
    ensures AllFit(RefreshCalls(s, n))
  {
    hide AllFit, FrameOps, WinOk, Wf, NearWins;
    NoneFit();
    if n > 0 {
      RefreshFits(s, n - 1);
      if s.wins[n - 1].Win? {
        FrameFits(s, n - 1, s.wins[n - 1].id == s.focus);
        BothFit(RefreshCalls(s, n - 1), FrameOps(s.wins[n - 1], s.wins[n - 1].id == s.focus, s.look));
      } else {
        assert RefreshCalls(s, n) == RefreshCalls(s, n - 1);
      }
    }
  }

  lemma RestoreFits(s: Wm, id: int)
    requires Inv(s) && Near(s)
    ensures AllFit(RestoreCalls(s, id))
  {
    hide AllFit, FocusCalls, WinOk, Wf, Scene.SetVisible, NearWins;
    NoneFit();
    if HasWin(s, id) && WinOf(s, id).minimized {
      var w := WinOf(s, id);
      ShowKeepsInv(s, id, true, s.focus);
      NearOf(s.wins, FindWin(s.wins, id));
      NearChanged(s, id, w.(minimized := false));
      FocusFits(Shown(s, id), id);
      PairFits(OpSetVisible(w.frame, true), OpSetVisible(w.client, true));
      BothFit(ShowCalls(w, true), FocusCalls(Shown(s, id), id));
    }
  }

  /** Where windows and callers are near, every compositor call of every operation has
      arguments that the compositor's 32-bit sums are exact for. */
  lemma CallsFit(s: Wm, op: WmOp)
    requires Inv(s) && Allowed(s, op) && Near(s) && NearOp(s, op)
    ensures AllFit(Calls(s, op))
  {
    hide AllFit, Inv, NearWins, CreateCalls, FocusCalls, MoveCalls, ResizeCalls, RestoreCalls, RefreshCalls;
    InvFacts(s);
    NoneFit();
    match op
    case DoCreate(title, w, h, bg, memF, memC) => CreateFits(s, title, w, h, bg, memF, memC);
    case DoDestroy(id) =>
      if HasWin(s, id) { PairFits(OpDestroy(WinOf(s, id).frame), OpDestroy(WinOf(s, id).client)); }
    case DoFocus(id) => FocusFits(s, id);
    case DoMove(id, x, y) => MoveFits(s, id, x, y);
    case DoDragStart(id, x, y) => FocusFits(s, id);
    case DoDragTo(x, y) => MoveFits(s, s.drag, x - s.dragDx, y - s.dragDy);
    case DoDragEnd =>
    case DoResize(id, w, h, memF, memC) => ResizeFits(s, id, w, h, memF, memC);
    case DoMinimize(id) =>
      if HasWin(s, id) {
        PairFits(OpSetVisible(WinOf(s, id).frame, false), OpSetVisible(WinOf(s, id).client, false));
      }
    case DoRestore(id) => RestoreFits(s, id);
    case DoTheme(look) =>
      LookKeepsInv(s, look);
      RefreshFits(s.(look := look), WM_MAX);
    case DoOther(o) => PairFits(o, o);
    case DoComposite => PairFits(OpComposite, OpComposite);
  }

  ghost predicate NearRun(s: Wm, ops: seq<WmOp>)
    requires Inv(s) && AllowedRun(s, ops)
    decreases |ops|
  {
    ops == [] || (NearOp(s, ops[0]) && (ApplyKeepsInv(s, ops[0]); NearRun(Apply(s, ops[0]), ops[1..])))
  }

  /** And so over whole runs. */
  lemma {:induction false} RunFits(s: Wm, ops: seq<WmOp>)
    requires Inv(s) && Near(s) && AllowedRun(s, ops) && NearRun(s, ops)
    ensures Near(Windows.Run(s, ops)) && AllFit(RunCalls(s, ops))
    decreases |ops|
  {
    hide Inv, Near, AllFit, Apply, Calls, Allowed, NearOp;
    if ops == [] {
      NoneFit();
    } else {
      ApplyKeepsInv(s, ops[0]);
      ApplyIsCalls(s, ops[0]);
      NearKept(s, ops[0]);
      CallsFit(s, ops[0]);
      RunFits(Apply(s, ops[0]), ops[1..]);
      BothFit(Calls(s, ops[0]), RunCalls(Apply(s, ops[0]), ops[1..]));
    }
  }

  // ----- The desktop ---------------------------------------------------------------------------

  /** The calls of a run. */
  ghost function RunCalls(s: Wm, ops: seq<WmOp>): (calls: seq<Op>)
    requires Inv(s) && AllowedRun(s, ops)
    ensures forall op :: op in calls ==> OpOk(op)
    decreases |ops|
  {
    if ops == [] then []
    else
      ApplyKeepsInv(s, ops[0]);
      ApplyIsCalls(s, ops[0]);
      Calls(s, ops[0]) + RunCalls(Apply(s, ops[0]), ops[1..])
  }

  lemma {:induction false} RunIsCalls(s: Wm, ops: seq<WmOp>)
    requires Inv(s) && AllowedRun(s, ops)
    ensures After(s.comp, RunCalls(s, ops)) == Windows.Run(s, ops).comp
    decreases |ops|
  {
    hide Inv, After, Apply, Calls, Allowed;
    InvFacts(s);
    if ops == [] {
      AfterOne(s.comp, OpComposite);
    } else {
      ApplyKeepsInv(s, ops[0]);
      ApplyIsCalls(s, ops[0]);
      RunIsCalls(Apply(s, ops[0]), ops[1..]);
      AfterConcat(s.comp, Calls(s, ops[0]), RunCalls(Apply(s, ops[0]), ops[1..]));
    }
  }

  /** After any allowed run of window-manager operations, of other programs' calls and of
      drawing in the windows, from a desk on which nothing but damage is out of date, one
      more composite makes the back buffer show exactly the windows as they now stand. */
  lemma DesktopIsShown(s: Wm, back: Image, ops: seq<WmOp>, solid: Mode)
    requires Inv(s) && AllowedRun(s, ops) && Settled(s.comp, back) && !solid.Blend?
    ensures Wf(s.comp)
    ensures QuietRun(s.comp, RunCalls(s, ops)) ==>
      var d := Scene.Run(Desk(s.comp, back), RunCalls(s, ops), solid);
      && d.comp == Windows.Run(s, ops).comp
      && ShowsScene(d.comp, Step(d, OpComposite, solid).back)
  {
    hide Inv, Wf, Settled, ShowsScene, Repaint, QuietRun;
    InvFacts(s);
    RunIsCalls(s, ops);
    RunIsAfter(Desk(s.comp, back), RunCalls(s, ops), solid);
    if QuietRun(s.comp, RunCalls(s, ops)) {
      RunKeepsSettled(Desk(s.comp, back), RunCalls(s, ops), solid);
      var d := Scene.Run(Desk(s.comp, back), RunCalls(s, ops), solid);
      RepaintShowsScene(d.comp, d.back, solid);
    }
  }

  /** The operation is none of the three that may show what they do not damage. */
  predicate UsualOp(op: WmOp) {
    op.DoOther? ==> Usual(op.op)
  }

  predicate AllUsual(calls: seq<Op>) {
    forall op :: op in calls ==> Usual(op)
  }

  lemma FrameIsUsual(w: Win, focused: bool, look: Look)
    requires w.Win? && FontOk(look.font)
    ensures AllUsual(FrameOps(w, focused, look))
  {
  }

  lemma {:induction false} RefreshIsUsual(s: Wm, n: nat)
    requires n <= |s.wins| && FontOk(s.look.font)
    ensures AllUsual(RefreshCalls(s, n))
  {
    hide FrameOps;
    if n > 0 {
      RefreshIsUsual(s, n - 1);
      if s.wins[n - 1].Win? { FrameIsUsual(s.wins[n - 1], s.wins[n - 1].id == s.focus, s.look); }
    }
  }

  lemma FocusIsUsual(s: Wm, id: int)
    requires FontOk(s.look.font)
    ensures AllUsual(FocusCalls(s, id))
  {
    hide FrameOps;
    if HasWin(s, s.focus) { FrameIsUsual(WinOf(s, s.focus), false, s.look); }
    if HasWin(s, id) { FrameIsUsual(WinOf(s, id), true, s.look); }
  }

  lemma CreateIsUsual(s: Wm, title: seq<byte>, w: int, h: int, bg: Px, memF: bool, memC: bool)
    requires FontOk(s.look.font)
    ensures AllUsual(CreateCalls(s, title, w, h, bg, memF, memC))
  {
    hide Scene.Create;
  }

  lemma ResizeIsUsual(s: Wm, id: int, w: int, h: int, memF: bool, memC: bool)
    requires FontOk(s.look.font)
    ensures AllUsual(ResizeCalls(s, id, w, h, memF, memC))
  {
    hide Scene.Resize;
  }

  lemma RestoreIsUsual(s: Wm, id: int)
    requires FontOk(s.look.font)
    ensures AllUsual(RestoreCalls(s, id))
  {
    hide FocusCalls, Scene.SetVisible;
    if HasWin(s, id) { FocusIsUsual(Shown(s, id), id); }
  }

  lemma CallsAreUsual(s: Wm, op: WmOp)
    requires Inv(s) && Allowed(s, op) && UsualOp(op)
    ensures AllUsual(Calls(s, op))
  {
    hide Inv, CreateCalls, FocusCalls, ResizeCalls, RestoreCalls, RefreshCalls;
    InvFacts(s);
    match op
    case DoCreate(title, w, h, bg, memF, memC) => CreateIsUsual(s, title, w, h, bg, memF, memC);
    case DoFocus(id) => FocusIsUsual(s, id);
    case DoDragStart(id, x, y) => FocusIsUsual(s, id);
    case DoResize(id, w, h, memF, memC) => ResizeIsUsual(s, id, w, h, memF, memC);
    case DoRestore(id) => RestoreIsUsual(s, id);
    case DoTheme(look) => RefreshIsUsual(s.(look := look), WM_MAX);
    case _ =>
  }

  lemma {:induction false} RunIsUsual(s: Wm, ops: seq<WmOp>)
    requires Inv(s) && AllowedRun(s, ops) && forall op :: op in ops ==> UsualOp(op)
    ensures AllUsual(RunCalls(s, ops))
    decreases |ops|
  {
    hide Inv, Apply, Calls, Allowed;
    if ops != [] {
      ApplyKeepsInv(s, ops[0]);
      ApplyIsCalls(s, ops[0]);
      CallsAreUsual(s, ops[0]);
      RunIsUsual(Apply(s, ops[0]), ops[1..]);
    }
  }

  /** In particular from wm_init over an empty desk, without those three. */
  lemma DesktopFromStart(d: Desk, look: Look, ops: seq<WmOp>, solid: Mode)
    requires Fresh(d) && FontOk(look.font) && !solid.Blend? && forall op :: op in ops ==> UsualOp(op)
    ensures Inv(Start(d.comp, look)) && Settled(d.comp, d.back)
    ensures AllowedRun(Start(d.comp, look), ops) ==>
      var end := Scene.Run(d, RunCalls(Start(d.comp, look), ops), solid);
      && end.comp == Windows.Run(Start(d.comp, look), ops).comp
      && ShowsScene(end.comp, Step(end, OpComposite, solid).back)
  {
    StartKeepsInv(d.comp, look);
    FreshIsSettled(d);
    assert NoSlides(d.comp);
    hide Inv, Wf, Settled, ShowsScene, Repaint, NoSlides, Usual;
    var s := Start(d.comp, look);
    if AllowedRun(s, ops) {
      RunIsUsual(s, ops);
      UsualRunsAreQuiet(d.comp, RunCalls(s, ops));
      DesktopIsShown(s, d.back, ops, solid);
    }
  }
}

// The compositor of kernel/drivers/comp.c on values: what the screen should
// show, what each operation does to the surfaces and to the damage box, and
// what a repaint of the box does to the back buffer.
//
// The main result is RunThenComposite: repainting only the accumulated box agrees
// with painting the whole scene from scratch, over every run; for three calls that
// damage too little it is said exactly when.

module Scene {
  import opened Gfx
  import opened Damage
  import opened Words

  const COMP_MAX := 24
  const DIM_MAX := 1024
  const AREA_MAX := 256 * 1024
  const CUR_SIZE := 12
  const POS_MAX := 0x1000_0000
  const CursorBlack := Px(0, 0, 0, 255)
  const CursorWhite := Px(255, 255, 255, 255)

  datatype Anim =
    | Still
    | FadeIn(left: int, total: int)
    | FadeOut(left: int, total: int)
    | Slide(left: int, total: int, fx: int, fy: int, tx: int, ty: int)

  /** One entry of comp_list.  Its index is its place in the z-order. */
  datatype Slot =
    | Free
    | Surf(id: int, x: int, y: int, w: nat, h: nat, visible: bool, alpha: int, anim: Anim, img: Image)

  datatype Cursor = Cursor(on: bool, x: int, y: int)

  datatype Comp = Comp(slots: seq<Slot>, nextId: int, bg: Px, damage: Box, cursor: Cursor, w: nat, h: nat)

  /** Positions for which no sum of the compositor overflows an int. */
  predicate Pos(v: int) {
    -POS_MAX <= v <= POS_MAX
  }

  predicate SlotOk(s: Slot) {
    s.Surf? ==>
      HasSize(s.img, s.w, s.h) && 0 <= s.alpha <= 255
      && (!s.anim.Still? ==> s.anim.left <= s.anim.total && 0 < s.anim.total)
  }

  predicate Wf(c: Comp) {
    && |c.slots| == COMP_MAX && 0 < c.nextId
    && (forall k :: 0 <= k < COMP_MAX ==> SlotOk(c.slots[k]))
    && (forall k :: 0 <= k < COMP_MAX && c.slots[k].Surf? ==> 0 < c.slots[k].id < c.nextId)
    && (forall k, m :: 0 <= k < m < COMP_MAX && c.slots[k].Surf? && c.slots[m].Surf? ==> c.slots[k].id != c.slots[m].id)
    && WellFormed(c.damage, c.w, c.h)
  }

  // ----- The scene -----------------------------------------------------------------

  predicate Covers(s: Slot, x: int, y: int) {
    s.Surf? && Inside(s.img, x - s.x, y - s.y)
  }

  /** One surface over what is below it. */
  function Over(s: Slot, x: int, y: int, below: Px): Px {
    if !Covers(s, x, y) || !s.visible || s.alpha <= 0 then below
    else Mix(if s.alpha < 255 then Blend(s.alpha) else CopyWord, s.img[y - s.y][x - s.x], below)
  }

  /** The surfaces bottom to top over the background. */
  function Stack(slots: seq<Slot>, x: int, y: int, bg: Px): Px {
    if slots == [] then bg
    else Over(slots[|slots| - 1], x, y, Stack(slots[..|slots| - 1], x, y, bg))
  }

  const CURSOR_ROWS: seq<string> := [
    "W...........",
    "WW..........",
    "WWW.........",
    "WWWW........",
    "WWWWW.......",
    "WWWWWW......",
    "WWWWWWW.....",
    "WWWWWWWW....",
    "WWWWWWWWW...",
    "WWWWWW......",
    "WW.WW.......",
    "W...WW......"
  ]

  predicate Arrow(r: int, c: int) {
    0 <= r < CUR_SIZE && 0 <= c < CUR_SIZE && |CURSOR_ROWS[r]| == CUR_SIZE && CURSOR_ROWS[r][c] == 'W'
  }

  /** The arrow with its corner at (x, y). */
  function ArrowPts(x: int, y: int): set<Point> {
    ArrowRows(x, y, CUR_SIZE)
  }

  function ArrowRows(x: int, y: int, rows: nat): set<Point> {
    set r, c | 0 <= r < rows && 0 <= c < CUR_SIZE && Arrow(r, c) :: (x + c, y + r)
  }

  function ArrowRow(x: int, y: int, r: int, n: nat): set<Point> {
    set c | 0 <= c < n && Arrow(r, c) :: (x + c, y + r)
  }

  /** The cursor is drawn last, its shadow one pixel to the right and below. */
  function CursorOver(cur: Cursor, x: int, y: int, below: Px): Px {
    if !cur.on then below
    else if (x, y) in ArrowPts(cur.x, cur.y) then CursorWhite
    else if (x, y) in ArrowPts(cur.x + 1, cur.y + 1) then CursorBlack
    else below
  }

  /** The pixel a from-scratch repaint of everything would produce. */
  function ScenePx(c: Comp, x: int, y: int): Px {
    CursorOver(c.cursor, x, y, Stack(c.slots, x, y, c.bg))
  }

  predicate OnScreen(c: Comp, x: int, y: int) {
    0 <= x < c.w && 0 <= y < c.h
  }

  /** The back buffer shows the scene everywhere outside the damage box. */
  ghost predicate Settled(c: Comp, back: Image) {
    && HasSize(back, c.w, c.h)
    && forall x, y :: OnScreen(c, x, y) && !In(c.damage, x, y) ==> Rgb(back[y][x]) == Rgb(ScenePx(c, x, y))
  }

  ghost predicate ShowsScene(c: Comp, back: Image) {
    && HasSize(back, c.w, c.h)
    && forall x, y :: OnScreen(c, x, y) ==> Rgb(back[y][x]) == Rgb(ScenePx(c, x, y))
  }

  /** c' changes the scene only inside its damage box, which has not shrunk. */
  ghost predicate Local(c: Comp, c': Comp) {
    && c'.w == c.w && c'.h == c.h
    && forall x, y :: OnScreen(c, x, y) && !In(c'.damage, x, y) ==>
       !In(c.damage, x, y) && ScenePx(c', x, y) == ScenePx(c, x, y)
  }

  lemma SceneIgnoresDamage(c: Comp)
    ensures forall x, y :: ScenePx(c.(damage := Clean), x, y) == ScenePx(c, x, y)
  {
  }

  lemma LocalKeepsSettled(c: Comp, c': Comp, back: Image)
    requires Local(c, c') && Settled(c, back)
    ensures Settled(c', back)
  {
    forall x, y | OnScreen(c', x, y) && !In(c'.damage, x, y)
      ensures Rgb(back[y][x]) == Rgb(ScenePx(c', x, y))
    {
      assert OnScreen(c, x, y);
    }
  }

  lemma LocalTrans(a: Comp, b: Comp, c: Comp)
    requires Local(a, b) && Local(b, c)
    ensures Local(a, c)
  {
    forall x, y | OnScreen(a, x, y) && !In(c.damage, x, y)
      ensures !In(a.damage, x, y) && ScenePx(c, x, y) == ScenePx(a, x, y)
    {
      assert OnScreen(b, x, y);
    }
  }

  // ----- Stacks ----------------------------------------------------------------------

  lemma {:induction false} StackAppend(a: seq<Slot>, b: seq<Slot>, x: int, y: int, bg: Px)
    ensures Stack(a + b, x, y, bg) == Stack(b, x, y, Stack(a, x, y, bg))
    decreases |b|
  {
    if b == [] {
      assert a + b == a;
    } else {
      var n := |b| - 1;
      assert (a + b)[..|a| + n] == a + b[..n];
      StackAppend(a, b[..n], x, y, bg);
    }
  }

  /** Replacing a surface by one that looks the same at a point. */
  lemma {:induction false} StackReplace(slots: seq<Slot>, k: nat, s: Slot, x: int, y: int, bg: Px)
    requires k < |slots|
    requires forall below :: Over(s, x, y, below) == Over(slots[k], x, y, below)
    ensures Stack(slots[k := s], x, y, bg) == Stack(slots, x, y, bg)
  {
    var n := |slots| - 1;
    if k == n {
      assert slots[k := s][..n] == slots[..n];
    } else {
      assert slots[k := s][..n] == slots[..n][k := s];
      StackReplace(slots[..n], k, s, x, y, bg);
    }
  }

  /** The used entries, in order. */
  function UsedOnly(slots: seq<Slot>): (r: seq<Slot>)
    ensures |r| <= |slots|
    ensures forall s :: s in r ==> s.Surf? && s in slots
  {
    if slots == [] then []
    else
      var n := |slots| - 1;
      UsedOnly(slots[..n]) + if slots[n].Surf? then [slots[n]] else []
  }

  lemma {:induction false} StackUsedOnly(slots: seq<Slot>, x: int, y: int, bg: Px)
    ensures Stack(UsedOnly(slots), x, y, bg) == Stack(slots, x, y, bg)
  {
    if slots != [] {
      var n := |slots| - 1;
      StackUsedOnly(slots[..n], x, y, bg);
      var u := UsedOnly(slots[..n]);
      if slots[n].Surf? {
        assert (u + [slots[n]])[..|u|] == u;
      } else {
        assert u + [] == u;
      }
    }
  }

  function FreeSlots(n: nat): (r: seq<Slot>)
    ensures |r| == n
  {
    seq(n, _ => Free)
  }

  lemma {:induction false} StackFree(n: nat, x: int, y: int, bg: Px)
    ensures Stack(FreeSlots(n), x, y, bg) == bg
  {
    if n > 0 {
      assert FreeSlots(n)[..n - 1] == FreeSlots(n - 1);
      StackFree(n - 1, x, y, bg);
    }
  }

  // ----- Operations ------------------------------------------------------------------

  /** comp_get: the index of the surface, or |slots| when there is none. */
  function Find(slots: seq<Slot>, id: int): (k: nat)
    ensures k <= |slots|
    ensures k < |slots| ==> slots[k].Surf? && slots[k].id == id
    ensures forall m :: 0 <= m < k ==> !(slots[m].Surf? && slots[m].id == id)
  {
    if slots == [] then 0
    else if slots[0].Surf? && slots[0].id == id then 0
    else 1 + Find(slots[1..], id)
  }

  function FirstFree(slots: seq<Slot>): (k: nat)
    ensures k <= |slots|
    ensures k < |slots| ==> slots[k].Free?
    ensures forall m :: 0 <= m < k ==> slots[m].Surf?
  {
    if slots == [] then 0
    else if slots[0].Free? then 0
    else 1 + FirstFree(slots[1..])
  }

  predicate Known(c: Comp, id: int) {
    Find(c.slots, id) < |c.slots|
  }

  /** dmg_add. */
  function Dmg(c: Comp, x0: int, y0: int, x1: int, y1: int): Comp {
    c.(damage := Hull(c.damage, Clip(x0, y0, x1, y1, c.w, c.h)))
  }

  lemma DmgWf(c: Comp, x0: int, y0: int, x1: int, y1: int)
    requires Wf(c)
    ensures Wf(Dmg(c, x0, y0, x1, y1))
  {
  }

  lemma CursorWf(c: Comp, cursor: Cursor)
    requires Wf(c)
    ensures Wf(c.(cursor := cursor))
  {
  }

  /** Damages the whole of a surface. */
  function DmgSlot(c: Comp, s: Slot): Comp
    requires s.Surf?
  {
    Dmg(c, s.x, s.y, s.x + s.w, s.y + s.h)
  }

  function SetSlot(c: Comp, k: nat, s: Slot): Comp
    requires k < |c.slots|
  {
    c.(slots := c.slots[k := s])
  }

  /** Blank pixels, as memset leaves them. */
  function Blank(w: nat, h: nat): (img: Image)
    ensures HasSize(img, w, h)
  {
    seq(h, _ => seq(w, _ => Black))
  }

  predicate SizeOk(w: nat, h: nat) {
    0 < w <= DIM_MAX && 0 < h <= DIM_MAX && w * h <= AREA_MAX
  }

  /** comp_create; mem says whether the allocation succeeds. */
  function Create(c: Comp, w: nat, h: nat, mem: bool): (Comp, int) {
    var k := FirstFree(c.slots);
    if !SizeOk(w, h) || k == |c.slots| || !mem then (c, -1)
    else
      var s := Surf(c.nextId, 0, 0, w, h, true, 255, Still, Blank(w, h));
      (DmgSlot(SetSlot(c, k, s), s).(nextId := c.nextId + 1), c.nextId)
  }

  function Destroy(c: Comp, id: int): Comp {
    if !Known(c, id) then c else
    var k := Find(c.slots, id);
    SetSlot(DmgSlot(c, c.slots[k]), k, Free)
  }

  function Move(c: Comp, id: int, x: int, y: int): Comp {
    if !Known(c, id) then c else
    var k := Find(c.slots, id);
    var s := c.slots[k];
    DmgSlot(SetSlot(DmgSlot(c, s), k, s.(x := x, y := y)), s.(x := x, y := y))
  }

  /** The slots with one taken out. */
  function Without(slots: seq<Slot>, k: nat): (r: seq<Slot>)
    requires k < |slots|
    ensures |r| == |slots| - 1
  {
    slots[..k] + slots[k + 1..]
  }

  /** comp_raise's reordering: the entry goes after every other used one. */
  function RaiseSlots(slots: seq<Slot>, k: nat): (r: seq<Slot>)
    requires k < |slots|
    ensures |r| == |slots|
  {
    var rest := UsedOnly(Without(slots, k));
    rest + [slots[k]] + FreeSlots(|slots| - 1 - |rest|)
  }

  function Raise(c: Comp, id: int): Comp {
    if !Known(c, id) then c else
    var k := Find(c.slots, id);
    DmgSlot(c.(slots := RaiseSlots(c.slots, k)), c.slots[k])
  }

  /** Draws pts in one colour on a surface and damages a rectangle of it;
      comp_damage clips the rectangle to the surface. */
  function Draw(c: Comp, k: nat, pts: set<Point>, color: Px, x: int, y: int, w: int, h: int): Comp
    requires k < |c.slots| && c.slots[k].Surf?
  {
    var s := c.slots[k];
    DamagePart(SetSlot(c, k, s.(img := Stamp(s.img, pts, color))), s, x, y, w, h)
  }

  function DamagePart(c: Comp, s: Slot, x: int, y: int, w: int, h: int): Comp
    requires s.Surf?
  {
    var b := Clip(x, y, x + w, y + h, s.w, s.h);
    if b.Clean? then c else Dmg(c, s.x + b.x0, s.y + b.y0, s.x + b.x1, s.y + b.y1)
  }

  /** comp_damage. */
  function DamageRect(c: Comp, id: int, x: int, y: int, w: int, h: int): Comp {
    if !Known(c, id) then c else DamagePart(c, c.slots[Find(c.slots, id)], x, y, w, h)
  }

  /** comp_damage_all. */
  function DamageAll(c: Comp, id: int): Comp {
    if !Known(c, id) then c else DmgSlot(c, c.slots[Find(c.slots, id)])
  }

  /** What applications do to repaint: they draw on the surface itself, so that it then
      shows img, and call comp_damage_all. */
  function Paint(c: Comp, id: int, img: Image): Comp {
    if !Known(c, id) then c else
    var k := Find(c.slots, id);
    var s := c.slots[k];
    if !HasSize(img, s.w, s.h) then c else DmgSlot(SetSlot(c, k, s.(img := img)), s)
  }

  function Fill(c: Comp, id: int, color: Px): Comp {
    if !Known(c, id) then c else
    var k := Find(c.slots, id);
    var s := c.slots[k];
    DmgSlot(SetSlot(c, k, s.(img := Stamp(s.img, RectPts(0, 0, s.w, s.h), color))), s)
  }

  function FillRect(c: Comp, id: int, x: int, y: int, w: int, h: int, color: Px): Comp {
    if !Known(c, id) then c else
    Draw(c, Find(c.slots, id), RectPts(x, y, w, h), color, x, y, w, h)
  }

  function Outline(c: Comp, id: int, x: int, y: int, w: int, h: int, color: Px): Comp {
    if !Known(c, id) then c else
    Draw(c, Find(c.slots, id), if w <= 0 || h <= 0 then {} else BorderPts(x, y, w, h), color, x, y, w, h)
  }

  function Text(c: Comp, font: Font, id: int, x: int, y: int, str: seq<byte>, color: Px): Comp
    requires FontOk(font)
  {
    if !Known(c, id) then c else
    Draw(c, Find(c.slots, id), TextPts(font, x, y, str), color, x, y, 8 * |str|, 8)
  }

  function Resize(c: Comp, id: int, w: nat, h: nat, mem: bool): (Comp, int) {
    if !Known(c, id) || !SizeOk(w, h) || !mem then (c, -1) else
    var k := Find(c.slots, id);
    var s := c.slots[k];
    var s' := s.(w := w, h := h, img := Compose(Blank(w, h), 0, 0, s.img, 0, 0, w, h, CopyWord));
    (DmgSlot(SetSlot(DmgSlot(c, s), k, s'), s'), 0)
  }

  function SetVisible(c: Comp, id: int, v: bool): Comp {
    if !Known(c, id) then c else
    var k := Find(c.slots, id);
    DmgSlot(SetSlot(c, k, c.slots[k].(visible := v)), c.slots[k])
  }

  function FadeInStart(c: Comp, id: int, frames: int): Comp {
    if !Known(c, id) || frames <= 0 then c else
    var k := Find(c.slots, id);
    DmgSlot(SetSlot(c, k, c.slots[k].(visible := true, alpha := 0, anim := FadeIn(frames, frames))), c.slots[k])
  }

  function FadeOutStart(c: Comp, id: int, frames: int): Comp {
    if !Known(c, id) || frames <= 0 then c else
    var k := Find(c.slots, id);
    DmgSlot(SetSlot(c, k, c.slots[k].(anim := FadeOut(frames, frames))), c.slots[k])
  }

  /** comp_slide_in: the surface is shown at (x, y), from where it moves to its place. */
  function SlideInStart(c: Comp, id: int, x: int, y: int, frames: int): Comp {
    if !Known(c, id) || frames <= 0 then c else
    var k := Find(c.slots, id);
    var s := c.slots[k];
    var s' := s.(visible := true, x := x, y := y, alpha := 255, anim := Slide(frames, frames, x, y, s.x, s.y));
    DmgSlot(SetSlot(DmgSlot(c, s), k, s'), s')
  }

  /** comp_set_bg damages nothing. */
  function SetBg(c: Comp, color: Px): Comp {
    c.(bg := color)
  }

  /** a / b as C divides. */
  function Quot(a: int, b: int): int
    requires b > 0
  {
    if a >= 0 then a / b else -(-a / b)
  }

  /** The way from one coordinate to another after m of total frames. */
  function Slid(from: int, to: int, m: int, total: int): int
    requires total > 0
  {
    from + Quot((to - from) * m, total)
  }

  /** The animation with that many frames left. */
  function Later(a: Anim, left: int): Anim {
    match a
    case Still => Still
    case FadeIn(_, total) => FadeIn(left, total)
    case FadeOut(_, total) => FadeOut(left, total)
    case Slide(_, total, fx, fy, tx, ty) => Slide(left, total, fx, fy, tx, ty)
  }

  /** Where an animation has its surface, m frames before its end. */
  function PlaceX(s: Slot, m: int): int
    requires s.Surf? && !s.anim.Still? && s.anim.total > 0
  {
    if s.anim.Slide? then Slid(s.anim.fx, s.anim.tx, s.anim.total - m, s.anim.total) else s.x
  }

  function PlaceY(s: Slot, m: int): int
    requires s.Surf? && !s.anim.Still? && s.anim.total > 0
  {
    if s.anim.Slide? then Slid(s.anim.fy, s.anim.ty, s.anim.total - m, s.anim.total) else s.y
  }

  /** What one frame of an animation leaves of a surface. */
  function TickSlot(s: Slot): Slot
    requires s.Surf? && !s.anim.Still? && s.anim.total > 0
  {
    var remain := s.anim.left - 1;
    if s.anim.left <= 0 then s.(anim := Still)
    else
      var t := s.(x := PlaceX(s, remain), y := PlaceY(s, remain));
      if remain <= 0 then t.(alpha := 255, visible := if s.anim.FadeOut? then false else s.visible, anim := Still)
      else if s.anim.FadeIn? then
        var a := 255 - (255 * remain) / s.anim.total;
        t.(alpha := if a > 255 then 255 else a, anim := Later(s.anim, remain))
      else if s.anim.FadeOut? then
        var a := (255 * remain) / s.anim.total;
        t.(alpha := if a < 0 then 0 else a, anim := Later(s.anim, remain))
      else t.(alpha := 255, anim := Later(s.anim, remain))
  }

  /** anim_tick. */
  function Tick(c: Comp, k: nat): Comp
    requires k < |c.slots| && SlotOk(c.slots[k])
  {
    var s := c.slots[k];
    if s.Free? || s.anim.Still? then c
    else if s.anim.left <= 0 then SetSlot(c, k, TickSlot(s))
    else DmgSlot(SetSlot(c, k, TickSlot(s)), TickSlot(s))
  }

  function CursorDamage(c: Comp): Comp {
    Dmg(c, c.cursor.x, c.cursor.y, c.cursor.x + CUR_SIZE + 1, c.cursor.y + CUR_SIZE + 1)
  }

  function CursorShow(c: Comp, x: int, y: int): Comp {
    CursorDamage(c.(cursor := Cursor(true, x, y)))
  }

  function CursorHide(c: Comp): Comp {
    if !c.cursor.on then c else CursorDamage(c).(cursor := c.cursor.(on := false))
  }

  function CursorMove(c: Comp, x: int, y: int): Comp {
    if !c.cursor.on then CursorShow(c, x, y) else CursorShow(CursorDamage(c), x, y)
  }

  // ----- Every operation is local ------------------------------------------------------

  /** Only one entry changes, and outside the new box it looks as before. */
  lemma ReplaceIsLocal(c: Comp, c': Comp, k: nat, s: Slot)
    requires k < |c.slots| && c'.slots == c.slots[k := s]
    requires c'.bg == c.bg && c'.cursor == c.cursor && c'.w == c.w && c'.h == c.h
    requires forall x, y :: OnScreen(c, x, y) && !In(c'.damage, x, y) ==>
               !In(c.damage, x, y) && forall below :: Over(s, x, y, below) == Over(c.slots[k], x, y, below)
    ensures Local(c, c')
  {
    forall x, y | OnScreen(c, x, y) && !In(c'.damage, x, y)
      ensures ScenePx(c', x, y) == ScenePx(c, x, y)
    {
      StackReplace(c.slots, k, s, x, y, c.bg);
    }
  }

  /** Damaging a surface covers every point it covers. */
  lemma DmgCovers(c: Comp, s: Slot, x: int, y: int)
    requires s.Surf? && SlotOk(s) && OnScreen(c, x, y) && !In(DmgSlot(c, s).damage, x, y)
    ensures !In(c.damage, x, y) && !Covers(s, x, y)
  {
  }

  lemma CreateIsLocal(c: Comp, w: nat, h: nat, mem: bool)
    requires Wf(c)
    ensures Local(c, Create(c, w, h, mem).0) && Wf(Create(c, w, h, mem).0)
  {
    var c' := Create(c, w, h, mem).0;
    var k := FirstFree(c.slots);
    if c' != c {
      forall x, y | OnScreen(c, x, y) && !In(c'.damage, x, y)
        ensures !In(c.damage, x, y) && forall below :: Over(c'.slots[k], x, y, below) == Over(c.slots[k], x, y, below)
      {
        DmgCovers(SetSlot(c, k, c'.slots[k]), c'.slots[k], x, y);
      }
      ReplaceIsLocal(c, c', k, c'.slots[k]);
    }
  }

  lemma DestroyIsLocal(c: Comp, id: int)
    requires Wf(c)
    ensures Local(c, Destroy(c, id)) && Wf(Destroy(c, id))
  {
    var c' := Destroy(c, id);
    var k := Find(c.slots, id);
    if Known(c, id) {
      forall x, y | OnScreen(c, x, y) && !In(c'.damage, x, y)
        ensures !In(c.damage, x, y) && forall below :: Over(Free, x, y, below) == Over(c.slots[k], x, y, below)
      {
        DmgCovers(c, c.slots[k], x, y);
      }
      ReplaceIsLocal(c, c', k, Free);
    }
  }

  /** A change of one surface followed by damage to its old and new rectangles. */
  lemma ChangeIsLocal(c: Comp, c': Comp, k: nat, s: Slot)
    requires Wf(c) && k < |c.slots| && c.slots[k].Surf? && s.Surf? && SlotOk(s) && s.id == c.slots[k].id
    requires c' == DmgSlot(SetSlot(DmgSlot(c, c.slots[k]), k, s), s)
          || (c' == DmgSlot(SetSlot(c, k, s), c.slots[k])
              && s.x == c.slots[k].x && s.y == c.slots[k].y && s.w == c.slots[k].w && s.h == c.slots[k].h)
    ensures Local(c, c') && Wf(c')
  {
    forall x, y | OnScreen(c, x, y) && !In(c'.damage, x, y)
      ensures !In(c.damage, x, y) && forall below :: Over(s, x, y, below) == Over(c.slots[k], x, y, below)
    {
      if c' == DmgSlot(SetSlot(c, k, s), c.slots[k]) {
        DmgCovers(SetSlot(c, k, s), c.slots[k], x, y);
      } else {
        DmgCovers(SetSlot(DmgSlot(c, c.slots[k]), k, s), s, x, y);
        DmgCovers(c, c.slots[k], x, y);
      }
    }
    ReplaceIsLocal(c, c', k, s);
  }

  lemma MoveIsLocal(c: Comp, id: int, x: int, y: int)
    requires Wf(c)
    ensures Local(c, Move(c, id, x, y)) && Wf(Move(c, id, x, y))
  {
    if Known(c, id) {
      var k := Find(c.slots, id);
      ChangeIsLocal(c, Move(c, id, x, y), k, c.slots[k].(x := x, y := y));
    }
  }

  lemma ResizeIsLocal(c: Comp, id: int, w: nat, h: nat, mem: bool)
    requires Wf(c)
    ensures Local(c, Resize(c, id, w, h, mem).0) && Wf(Resize(c, id, w, h, mem).0)
  {
    if Known(c, id) && SizeOk(w, h) && mem {
      var k := Find(c.slots, id);
      var s := c.slots[k];
      ChangeIsLocal(c, Resize(c, id, w, h, mem).0, k,
                    s.(w := w, h := h, img := Compose(Blank(w, h), 0, 0, s.img, 0, 0, w, h, CopyWord)));
    }
  }

  lemma FillIsLocal(c: Comp, id: int, color: Px)
    requires Wf(c)
    ensures Local(c, Fill(c, id, color)) && Wf(Fill(c, id, color))
  {
    if Known(c, id) {
      var k := Find(c.slots, id);
      var s := c.slots[k];
      ChangeIsLocal(c, Fill(c, id, color), k, s.(img := Stamp(s.img, RectPts(0, 0, s.w, s.h), color)));
    }
  }

  /** Whatever an application draws is covered by damaging the whole surface. */
  lemma PaintIsLocal(c: Comp, id: int, img: Image)
    requires Wf(c)
    ensures Local(c, Paint(c, id, img)) && Wf(Paint(c, id, img))
  {
    if Known(c, id) {
      var k := Find(c.slots, id);
      var s := c.slots[k];
      if HasSize(img, s.w, s.h) { ChangeIsLocal(c, Paint(c, id, img), k, s.(img := img)); }
    }
  }

  lemma DamageIsLocal(c: Comp, id: int, x: int, y: int, w: int, h: int)
    requires Wf(c)
    ensures Local(c, DamageRect(c, id, x, y, w, h)) && Wf(DamageRect(c, id, x, y, w, h))
    ensures Local(c, DamageAll(c, id)) && Wf(DamageAll(c, id))
  {
  }

  lemma SetVisibleIsLocal(c: Comp, id: int, v: bool)
    requires Wf(c)
    ensures Local(c, SetVisible(c, id, v)) && Wf(SetVisible(c, id, v))
  {
    if Known(c, id) {
      var k := Find(c.slots, id);
      ChangeIsLocal(c, SetVisible(c, id, v), k, c.slots[k].(visible := v));
    }
  }

  lemma FadeInStartIsLocal(c: Comp, id: int, frames: int)
    requires Wf(c)
    ensures Local(c, FadeInStart(c, id, frames)) && Wf(FadeInStart(c, id, frames))
  {
    if Known(c, id) && frames > 0 {
      var k := Find(c.slots, id);
      ChangeIsLocal(c, FadeInStart(c, id, frames), k,
                    c.slots[k].(visible := true, alpha := 0, anim := FadeIn(frames, frames)));
    }
  }

  lemma FadeOutStartIsLocal(c: Comp, id: int, frames: int)
    requires Wf(c)
    ensures Local(c, FadeOutStart(c, id, frames)) && Wf(FadeOutStart(c, id, frames))
  {
    if Known(c, id) && frames > 0 {
      var k := Find(c.slots, id);
      ChangeIsLocal(c, FadeOutStart(c, id, frames), k, c.slots[k].(anim := FadeOut(frames, frames)));
    }
  }

  lemma SlideInStartIsLocal(c: Comp, id: int, x: int, y: int, frames: int)
    requires Wf(c)
    ensures Local(c, SlideInStart(c, id, x, y, frames)) && Wf(SlideInStart(c, id, x, y, frames))
  {
    if Known(c, id) && frames > 0 {
      var k := Find(c.slots, id);
      var s := c.slots[k];
      ChangeIsLocal(c, SlideInStart(c, id, x, y, frames), k,
                    s.(visible := true, x := x, y := y, alpha := 255, anim := Slide(frames, frames, x, y, s.x, s.y)));
    }
  }

  /** A fade never leaves the range of an 8-bit coefficient. */
  lemma TickSlotOk(s: Slot)
    requires SlotOk(s) && s.Surf? && !s.anim.Still?
    ensures SlotOk(TickSlot(s))
  {
    hide Slid;
    var remain, total := s.anim.left - 1, s.anim.total;
    if remain > 0 {
      assert 0 <= (255 * remain) / total <= 255 by {
        MulGap((255 * remain) / total, 256, total);
        MulGap(255, (255 * remain) / total, total);
      }
    }
  }

  /** A surface that is moved by its next frame. */
  predicate Sliding(s: Slot) {
    s.Surf? && s.anim.Slide? && s.anim.left > 0 && s.anim.total > 0
  }

  function Extent(s: Slot): Box
    requires s.Surf?
  {
    Dirty(s.x, s.y, s.x + s.w, s.y + s.h)
  }

  /** The next frame of a slide uncovers nothing on a w x h screen that it does not damage:
      the surface does not show, or what is on the screen of its place is in the new one. */
  ghost predicate NoTrail(s: Slot, w: nat, h: nat)
    requires Sliding(s)
  {
    !s.visible || s.alpha <= 0
    || forall x, y :: 0 <= x < w && 0 <= y < h && In(Extent(s), x, y) ==> In(Extent(TickSlot(s)), x, y)
  }

  ghost predicate Steady(c: Comp) {
    forall k :: 0 <= k < |c.slots| && Sliding(c.slots[k]) ==> NoTrail(c.slots[k], c.w, c.h)
  }

  lemma TickWf(c: Comp, k: nat)
    requires Wf(c) && k < COMP_MAX
    ensures Wf(Tick(c, k)) && Tick(c, k).w == c.w && Tick(c, k).h == c.h
    ensures forall m :: 0 <= m < COMP_MAX && m != k ==> Tick(c, k).slots[m] == c.slots[m]
  {
    hide Slid;
    var s := c.slots[k];
    if s.Surf? && !s.anim.Still? { TickSlotOk(s); }
  }

  /** anim_tick damages the new place of a surface only: a fade is covered, and a slide
      that leaves no trail. */
  lemma TickIsLocal(c: Comp, k: nat)
    requires Wf(c) && k < COMP_MAX && (Sliding(c.slots[k]) ==> NoTrail(c.slots[k], c.w, c.h))
    ensures Local(c, Tick(c, k)) && Wf(Tick(c, k))
  {
    hide Slid, Local;
    LocalRefl(c);
    TickWf(c, k);
    var s := c.slots[k];
    if s.Surf? && !s.anim.Still? {
      TickSlotOk(s);
      if s.anim.left <= 0 {
        ReplaceIsLocal(c, Tick(c, k), k, TickSlot(s));
      } else if s.anim.Slide? {
        SlideIsLocal(c, k);
      } else {
        FadeIsLocal(c, k);
      }
    }
  }

  lemma FadeIsLocal(c: Comp, k: nat)
    requires Wf(c) && k < COMP_MAX && c.slots[k].Surf?
    requires !c.slots[k].anim.Still? && !c.slots[k].anim.Slide? && c.slots[k].anim.left > 0
    ensures Local(c, Tick(c, k))
  {
    hide TickSlot, Local;
    var s := c.slots[k];
    TickSlotOk(s);
    FadeStays(s);
    ChangeIsLocal(c, Tick(c, k), k, TickSlot(s));
  }

  lemma FadeStays(s: Slot)
    requires s.Surf? && !s.anim.Still? && !s.anim.Slide? && s.anim.total > 0
    ensures var t := TickSlot(s); t.Surf? && t.id == s.id && t.x == s.x && t.y == s.y && t.w == s.w && t.h == s.h
  {
  }

  lemma SlideIsLocal(c: Comp, k: nat)
    requires Wf(c) && k < COMP_MAX && Sliding(c.slots[k]) && NoTrail(c.slots[k], c.w, c.h)
    ensures Local(c, Tick(c, k))
  {
    hide TickSlot;
    var s, c' := c.slots[k], Tick(c, k);
    TickSlotOk(s);
    assert TickSlot(s).Surf? by { TickKeeps(s); }
    var s' := TickSlot(s);
    forall x, y | OnScreen(c, x, y) && !In(c'.damage, x, y)
      ensures !In(c.damage, x, y) && forall below :: Over(s', x, y, below) == Over(s, x, y, below)
    {
      DmgCovers(SetSlot(c, k, s'), s', x, y);
      CoversExtent(s', x, y);
      CoversExtent(s, x, y);
    }
    ReplaceIsLocal(c, c', k, s');
  }

  lemma TickKeeps(s: Slot)
    requires s.Surf? && !s.anim.Still? && s.anim.total > 0
    ensures var t := TickSlot(s); t.Surf? && t.id == s.id && t.w == s.w && t.h == s.h && t.img == s.img
  {
    hide Slid;
  }

  lemma CoversExtent(s: Slot, x: int, y: int)
    requires s.Surf? && SlotOk(s)
    ensures Covers(s, x, y) <==> In(Extent(s), x, y)
  {
  }

  /** On which screens, in which scenes: the frame of a slide changes nothing it does not
      damage, whatever the pictures, exactly when it leaves no trail. */
  lemma SlideExact(s: Slot, w: nat, h: nat)
    requires Sliding(s) && SlotOk(s) && s.id > 0
    ensures (forall c, k :: Wf(c) && c.w == w && c.h == h && 0 <= k < COMP_MAX && SameButPicture(c.slots[k], s) ==>
               Local(c, Tick(c, k)))
       <==> NoTrail(s, w, h)
  {
    hide TickSlot;
    if NoTrail(s, w, h) {
      forall c, k | Wf(c) && c.w == w && c.h == h && 0 <= k < COMP_MAX && SameButPicture(c.slots[k], s)
        ensures Local(c, Tick(c, k))
      {
        SameTrail(c.slots[k], s, w, h);
        SlideIsLocal(c, k);
      }
    } else {
      TickKeeps(s);
      var x, y :| 0 <= x < w && 0 <= y < h && In(Extent(s), x, y) && !In(Extent(TickSlot(s)), x, y);
      var c := WhiteOnBlack(s, w, h);
      SlideLeavesMark(s, w, h, x, y);
      assert Wf(c) && SameButPicture(c.slots[0], s);
    }
  }

  predicate SameButPicture(t: Slot, s: Slot) {
    t.Surf? && s.Surf? && t.(img := s.img) == s
  }

  lemma SameTrail(t: Slot, s: Slot, w: nat, h: nat)
    requires Sliding(s) && SameButPicture(t, s) && NoTrail(s, w, h)
    ensures Sliding(t) && NoTrail(t, w, h)
  {
    hide TickSlot;
    TickKeeps(s);
    TickSamePlace(t, s);
    if t.visible && t.alpha > 0 {
      forall x, y | 0 <= x < w && 0 <= y < h && In(Extent(t), x, y)
        ensures In(Extent(TickSlot(t)), x, y)
      {
        assert In(Extent(s), x, y);
      }
    }
  }

  const White := Px(255, 255, 255, 255)

  /** The surface, all white, alone on a black desk. */
  function WhiteOnBlack(s: Slot, w: nat, h: nat): (c: Comp)
    requires s.Surf? && SlotOk(s) && s.id > 0
    ensures Wf(c)
  {
    var t := s.(img := seq(s.h, _ => seq(s.w, _ => White)));
    Comp(FreeSlots(COMP_MAX)[0 := t], s.id + 1, Black, Clean, Cursor(false, 0, 0), w, h)
  }

  lemma SlideLeavesMark(s: Slot, w: nat, h: nat, x: int, y: int)
    requires Sliding(s) && SlotOk(s) && s.id > 0 && s.visible && s.alpha > 0 && 0 <= x < w && 0 <= y < h
    requires TickSlot(s).Surf? && In(Extent(s), x, y) && !In(Extent(TickSlot(s)), x, y)
    ensures !Local(WhiteOnBlack(s, w, h), Tick(WhiteOnBlack(s, w, h), 0))
  {
    hide TickSlot;
    var c := WhiteOnBlack(s, w, h);
    var t, c' := c.slots[0], Tick(c, 0);
    TickSamePlace(t, s);
    TickSlotOk(t);
    TickKeeps(t);
    StackAlone(t, x, y, Black);
    StackAlone(TickSlot(t), x, y, Black);
    CoversExtent(t, x, y);
    CoversExtent(TickSlot(t), x, y);
    assert c'.slots == FreeSlots(COMP_MAX)[0 := TickSlot(t)];
    assert OnScreen(c, x, y) && !In(c'.damage, x, y);
    WhiteShows(t.alpha);
    assert t.img[y - t.y][x - t.x] == White;
    assert ScenePx(c, x, y) != ScenePx(c', x, y);
  }

  lemma TickSamePlace(t: Slot, s: Slot)
    requires Sliding(s) && SameButPicture(t, s) && TickSlot(s).Surf?
    ensures Sliding(t) && TickSlot(t).Surf? && Extent(TickSlot(t)) == Extent(TickSlot(s))
  {
    hide Slid;
  }

  lemma WhiteShows(a: int)
    requires 0 < a <= 255
    ensures Mix(if a < 255 then Blend(a) else CopyWord, White, Black) != Black
  {
    if a < 255 { assert (255 * a + 0 * (255 - a)) / 255 == a; }
  }

  lemma StackAlone(s: Slot, x: int, y: int, bg: Px)
    ensures Stack(FreeSlots(COMP_MAX)[0 := s], x, y, bg) == Over(s, x, y, bg)
  {
    var slots := FreeSlots(COMP_MAX)[0 := s];
    assert slots == [s] + FreeSlots(COMP_MAX - 1);
    StackAppend([s], FreeSlots(COMP_MAX - 1), x, y, bg);
    StackFree(COMP_MAX - 1, x, y, Stack([s], x, y, bg));
    assert [s][..0] == [];
  }

  ghost predicate ScreenDamaged(c: Comp) {
    forall x, y :: OnScreen(c, x, y) ==> In(c.damage, x, y)
  }

  lemma SetBgIsLocal(c: Comp, color: Px)
    requires Wf(c) && (color == c.bg || ScreenDamaged(c))
    ensures Local(c, SetBg(c, color)) && Wf(SetBg(c, color))
  {
  }

  /** comp_set_bg changes nothing that is not damaged, whatever the surfaces, exactly when
      the colour stays or the whole screen is damaged already. */
  lemma SetBgExact(bg: Px, color: Px, w: nat, h: nat, damage: Box)
    requires WellFormed(damage, w, h)
    ensures (forall c :: Wf(c) && c.bg == bg && c.w == w && c.h == h && c.damage == damage ==>
               Local(c, SetBg(c, color)))
       <==> color == bg || forall x, y :: 0 <= x < w && 0 <= y < h ==> In(damage, x, y)
  {
    if color == bg || forall x, y :: 0 <= x < w && 0 <= y < h ==> In(damage, x, y) {
      forall c | Wf(c) && c.bg == bg && c.w == w && c.h == h && c.damage == damage
        ensures Local(c, SetBg(c, color))
      {
        SetBgIsLocal(c, color);
      }
    } else {
      var x, y :| 0 <= x < w && 0 <= y < h && !In(damage, x, y);
      var c := Comp(FreeSlots(COMP_MAX), 1, bg, damage, Cursor(false, 0, 0), w, h);
      StackFree(COMP_MAX, x, y, bg);
      StackFree(COMP_MAX, x, y, color);
      assert Wf(c) && OnScreen(c, x, y) && ScenePx(SetBg(c, color), x, y) != ScenePx(c, x, y);
    }
  }

  lemma DrawnElsewhere(s: Slot, pts: set<Point>, color: Px, x: int, y: int, w: int, h: int, i: int, j: int)
    requires SlotOk(s) && Covers(s, i, j) && pts <= RectPts(x, y, w, h)
    requires !In(Dirty(x, y, x + w, y + h), i - s.x, j - s.y)
    ensures forall below :: Over(s.(img := Stamp(s.img, pts, color)), i, j, below) == Over(s, i, j, below)
  {
    assert (i - s.x, j - s.y) !in pts;
    assert Inside(s.img, i - s.x, j - s.y);
  }

  /** Drawing changes only the points drawn, and the clipped damage covers them. */
  lemma DrawIsLocal(c: Comp, k: nat, pts: set<Point>, color: Px, x: int, y: int, w: int, h: int)
    requires Wf(c) && k < COMP_MAX && c.slots[k].Surf? && pts <= RectPts(x, y, w, h)
    ensures Local(c, Draw(c, k, pts, color, x, y, w, h)) && Wf(Draw(c, k, pts, color, x, y, w, h))
  {
    var c', s := Draw(c, k, pts, color, x, y, w, h), c.slots[k];
    var s' := s.(img := Stamp(s.img, pts, color));
    var b := Clip(x, y, x + w, y + h, s.w, s.h);
    hide Clip;
    forall i, j | OnScreen(c, i, j) && !In(c'.damage, i, j)
      ensures !In(c.damage, i, j) && forall below :: Over(s', i, j, below) == Over(s, i, j, below)
    {
      if Covers(s, i, j) {
        assert In(b, i - s.x, j - s.y) <==> In(Dirty(x, y, x + w, y + h), i - s.x, j - s.y);
        assert b.Dirty? ==> (In(b, i - s.x, j - s.y)
                             <==> In(Dirty(s.x + b.x0, s.y + b.y0, s.x + b.x1, s.y + b.y1), i, j));
        DrawnElsewhere(s, pts, color, x, y, w, h, i, j);
      }
    }
    ReplaceIsLocal(c, c', k, s');
  }

  lemma FillRectIsLocal(c: Comp, id: int, x: int, y: int, w: int, h: int, color: Px)
    requires Wf(c)
    ensures Local(c, FillRect(c, id, x, y, w, h, color)) && Wf(FillRect(c, id, x, y, w, h, color))
  {
    hide Local;
    LocalRefl(c);
    if Known(c, id) { DrawIsLocal(c, Find(c.slots, id), RectPts(x, y, w, h), color, x, y, w, h); }
  }

  lemma OutlineIsLocal(c: Comp, id: int, x: int, y: int, w: int, h: int, color: Px)
    requires Wf(c)
    ensures Local(c, Outline(c, id, x, y, w, h, color)) && Wf(Outline(c, id, x, y, w, h, color))
  {
    hide Local;
    LocalRefl(c);
    if Known(c, id) {
      DrawIsLocal(c, Find(c.slots, id), if w <= 0 || h <= 0 then {} else BorderPts(x, y, w, h), color, x, y, w, h);
    }
  }

  lemma TextIsLocal(c: Comp, font: Font, id: int, x: int, y: int, str: seq<byte>, color: Px)
    requires Wf(c) && FontOk(font)
    ensures Local(c, Text(c, font, id, x, y, str, color)) && Wf(Text(c, font, id, x, y, str, color))
  {
    hide Local;
    LocalRefl(c);
    if Known(c, id) { DrawIsLocal(c, Find(c.slots, id), TextPts(font, x, y, str), color, x, y, 8 * |str|, 8); }
  }

  lemma RaiseIsLocal(c: Comp, id: int)
    requires Wf(c)
    ensures Local(c, Raise(c, id)) && Wf(Raise(c, id))
  {
    if Known(c, id) {
      var k, c' := Find(c.slots, id), Raise(c, id);
      var s := c.slots[k];
      RaiseWf(c, k);
      forall x, y | OnScreen(c, x, y) && !In(c'.damage, x, y)
        ensures !In(c.damage, x, y) && ScenePx(c', x, y) == ScenePx(c, x, y)
      {
        DmgCovers(c.(slots := c'.slots), s, x, y);
        StackRaise(c.slots, k, x, y, c.bg);
      }
    }
  }

  /** Where the raised surface is absent, the new order shows the same. */
  lemma StackRaise(slots: seq<Slot>, k: nat, x: int, y: int, bg: Px)
    requires k < |slots| && !Covers(slots[k], x, y)
    ensures Stack(RaiseSlots(slots, k), x, y, bg) == Stack(slots, x, y, bg)
  {
    hide Stack, Covers;
    var a, b, s := slots[..k], slots[k + 1..], [slots[k]];
    var rest := UsedOnly(a + b);
    StackAppend(rest + s, FreeSlots(|slots| - 1 - |rest|), x, y, bg);
    StackFree(|slots| - 1 - |rest|, x, y, Stack(rest + s, x, y, bg));
    StackAppend(rest, s, x, y, bg);
    StackUsedOnly(a + b, x, y, bg);
    StackAppend(a, b, x, y, bg);
    assert slots == (a + s) + b;
    StackAppend(a + s, b, x, y, bg);
    StackAppend(a, s, x, y, bg);
    StackHole(slots[k], x, y, Stack(a, x, y, bg));
    StackHole(slots[k], x, y, Stack(rest, x, y, bg));
  }

  lemma StackHole(s: Slot, x: int, y: int, below: Px)
    requires !Covers(s, x, y)
    ensures Stack([s], x, y, below) == below
  {
    assert [s][..0] == [];
  }

  predicate DistinctIds(slots: seq<Slot>) {
    forall k, m :: 0 <= k < m < |slots| && slots[k].Surf? && slots[m].Surf? ==> slots[k].id != slots[m].id
  }

  lemma {:induction false} UsedOnlyDistinct(slots: seq<Slot>)
    requires DistinctIds(slots)
    ensures DistinctIds(UsedOnly(slots))
  {
    if slots != [] {
      var n := |slots| - 1;
      UsedOnlyDistinct(slots[..n]);
      forall s | s in UsedOnly(slots[..n])
        ensures slots[n].Surf? ==> s.id != slots[n].id
      {
        var m :| 0 <= m < n && slots[m] == s;
      }
    }
  }

  /** The index p after the gap at k is closed. */
  function Closed(p: int, k: int): int {
    if p < k then p else p - 1
  }

  function Opened(q: int, k: int): int {
    if q < k then q else q + 1
  }

  lemma WithoutAt(slots: seq<Slot>, k: nat, q: nat)
    requires k < |slots| && q < |slots| - 1
    ensures Without(slots, k)[q] == slots[Opened(q, k)]
  {
  }

  lemma WithoutDistinct(slots: seq<Slot>, k: nat)
    requires DistinctIds(slots) && k < |slots| && slots[k].Surf?
    ensures DistinctIds(Without(slots, k))
    ensures forall s :: s in Without(slots, k) && s.Surf? ==> s.id != slots[k].id && s in slots
  {
    var others := Without(slots, k);
    forall m, p | 0 <= m < p < |others| && others[m].Surf? && others[p].Surf?
      ensures others[m].id != others[p].id
    {
      WithoutAt(slots, k, m);
      WithoutAt(slots, k, p);
    }
    forall s | s in others && s.Surf?
      ensures s.id != slots[k].id && s in slots
    {
      var m :| 0 <= m < |others| && others[m] == s;
      WithoutAt(slots, k, m);
    }
  }

  lemma RaisedDistinct(slots: seq<Slot>, k: nat)
    requires DistinctIds(slots) && k < |slots| && slots[k].Surf?
    ensures var used, r := UsedOnly(Without(slots, k)), RaiseSlots(slots, k);
      && |used| < |r| && r[|used|] == slots[k] && DistinctIds(r)
      && (forall q :: 0 <= q < |used| ==> r[q] == used[q]) && (forall q :: |used| < q < |r| ==> r[q].Free?)
  {
    var others := Without(slots, k);
    var used, r := UsedOnly(others), RaiseSlots(slots, k);
    WithoutDistinct(slots, k);
    UsedOnlyDistinct(others);
    assert forall q :: 0 <= q < |used| ==> r[q] == used[q] && used[q] in others;
    assert forall q :: |used| < q < |r| ==> r[q].Free?;
    RaisedIds(used, slots[k], r);
  }

  lemma RaisedIds(used: seq<Slot>, s: Slot, r: seq<Slot>)
    requires s.Surf? && |used| < |r| && r[|used|] == s && DistinctIds(used)
    requires forall u :: u in used ==> u.Surf? && u.id != s.id
    requires (forall q :: 0 <= q < |used| ==> r[q] == used[q]) && (forall q :: |used| < q < |r| ==> r[q].Free?)
    ensures DistinctIds(r)
  {
  }

  lemma RaiseWf(c: Comp, k: nat)
    requires Wf(c) && k < COMP_MAX && c.slots[k].Surf?
    ensures Wf(c.(slots := RaiseSlots(c.slots, k)))
  {
    hide RaiseSlots, UsedOnly, Without, SlotOk;
    var used, r := UsedOnly(Without(c.slots, k)), RaiseSlots(c.slots, k);
    RaisedDistinct(c.slots, k);
    forall q | 0 <= q < COMP_MAX
      ensures r[q].Free? || r[q] in c.slots
    {
      if q < |used| {
        assert used[q] in used;
        WithoutDistinct(c.slots, k);
      }
    }
    SlotsWf(c, r);
  }

  /** A rearrangement of the slots is in order when its ids are distinct. */
  lemma SlotsWf(c: Comp, r: seq<Slot>)
    requires Wf(c) && |r| == COMP_MAX && DistinctIds(r)
    requires forall q :: 0 <= q < COMP_MAX ==> r[q].Free? || r[q] in c.slots
    ensures Wf(c.(slots := r))
  {
    hide SlotOk;
    forall q | 0 <= q < COMP_MAX && r[q].Surf?
      ensures SlotOk(r[q]) && 0 < r[q].id < c.nextId
    {
      var m :| 0 <= m < COMP_MAX && c.slots[m] == r[q];
    }
    forall q | 0 <= q < COMP_MAX && r[q].Free?
      ensures SlotOk(r[q])
    {
      FreeOk(r[q]);
    }
  }

  lemma FreeOk(s: Slot)
    requires s.Free?
    ensures SlotOk(s)
  {
  }

  lemma CursorIsLocal(c: Comp, x: int, y: int)
    requires Wf(c)
    ensures Local(c, CursorMove(c, x, y)) && Wf(CursorMove(c, x, y))
    ensures Local(c, CursorHide(c)) && Wf(CursorHide(c))
    ensures !c.cursor.on ==> Local(c, CursorShow(c, x, y))
  {
    hide Wf;
    if c.cursor.on {
      CursorDamagedLocal(c, CursorMove(c, x, y));
      CursorDamagedLocal(c, CursorHide(c));
    } else {
      CursorShowLocal(c, x, y);
      LocalRefl(c);
    }
    CursorKeepsWf(c, x, y);
  }

  lemma LocalRefl(c: Comp)
    ensures Local(c, c)
  {
  }

  lemma CursorKeepsWf(c: Comp, x: int, y: int)
    requires Wf(c)
    ensures Wf(CursorMove(c, x, y)) && Wf(CursorHide(c))
  {
  }

  /** The boxes of the old cursor and of the new one, if any, are damaged. */
  lemma CursorDamagedLocal(c: Comp, c': Comp)
    requires c.cursor.on && c'.slots == c.slots && c'.bg == c.bg && c'.w == c.w && c'.h == c.h
    requires forall px, py :: OnScreen(c, px, py) && !In(c'.damage, px, py) ==>
      !In(c.damage, px, py) && !InBoxOf(c.cursor.x, c.cursor.y, px, py)
      && (c'.cursor.on ==> !InBoxOf(c'.cursor.x, c'.cursor.y, px, py))
    ensures Local(c, c')
  {
    hide Ink, ScenePx;
    forall px, py | OnScreen(c, px, py) && !In(c'.damage, px, py)
      ensures !In(c.damage, px, py) && ScenePx(c', px, py) == ScenePx(c, px, py)
    {
      if Ink(c.cursor, px, py) { InkInBox(c.cursor, px, py); }
      if Ink(c'.cursor, px, py) { InkInBox(c'.cursor, px, py); }
      CursorElsewhere(c, c', px, py);
    }
  }

  /** The arrow is nine columns wide: with its shadow it ends at column 9, row 12. */
  lemma ArrowExtent()
    ensures forall r, c :: Arrow(r, c) ==> c <= 8
    ensures Arrow(0, 0) && Arrow(8, 8) && Arrow(11, 0)
  {
    forall r, c | Arrow(r, c)
      ensures c <= 8
    {
      var row := CURSOR_ROWS[r];
      assert r == 0 || r == 1 || r == 2 || r == 3 || r == 4 || r == 5 || r == 6 || r == 7 || r == 8 || r == 9
             || r == 10 || r == 11;
      assert row[9] == '.' && row[10] == '.' && row[11] == '.';
    }
  }

  function EmptyDesk(w: nat, h: nat, cursor: Cursor): Comp {
    Comp(FreeSlots(COMP_MAX), 1, Px(1, 1, 1, 0), Clean, cursor, w, h)
  }

  predicate InBoxOf(x: int, y: int, px: int, py: int) {
    x <= px < x + CUR_SIZE + 1 && y <= py < y + CUR_SIZE + 1
  }

  /** (px, py) is a pixel of the arrow or its shadow. */
  predicate Ink(cur: Cursor, px: int, py: int) {
    (px, py) in ArrowPts(cur.x, cur.y) || (px, py) in ArrowPts(cur.x + 1, cur.y + 1)
  }

  /** All of the cursor that is on a w x h screen lies in the box of a cursor at (x, y). */
  ghost predicate InkCovered(cur: Cursor, x: int, y: int, w: nat, h: nat) {
    forall px, py :: 0 <= px < w && 0 <= py < h && Ink(cur, px, py) ==> InBoxOf(x, y, px, py)
  }

  /** comp_cursor_show does not damage the old position.  That is harmless for every
      scene exactly when the cursor was hidden, or the new box covers all that shows of
      the old arrow and shadow. */
  lemma CursorShowExact(cur: Cursor, x: int, y: int, w: nat, h: nat)
    ensures (forall c :: Wf(c) && c.w == w && c.h == h && c.cursor == cur ==> Local(c, CursorShow(c, x, y)))
       <==> !cur.on || InkCovered(cur, x, y, w, h)
  {
    if !cur.on || InkCovered(cur, x, y, w, h) {
      forall c | Wf(c) && c.w == w && c.h == h && c.cursor == cur
        ensures Local(c, CursorShow(c, x, y))
      {
        CursorShowLocal(c, x, y);
      }
    } else {
      var px, py :| 0 <= px < w && 0 <= py < h && Ink(cur, px, py) && !InBoxOf(x, y, px, py);
      CursorLeavesMark(cur, x, y, w, h, px, py);
      assert Wf(EmptyDesk(w, h, cur));
    }
  }

  /** The arrow and its shadow lie in the cursor's box. */
  lemma InkInBox(cur: Cursor, px: int, py: int)
    requires Ink(cur, px, py)
    ensures InBoxOf(cur.x, cur.y, px, py)
  {
  }

  lemma CursorShowLocal(c: Comp, x: int, y: int)
    requires Wf(c) && (!c.cursor.on || InkCovered(c.cursor, x, y, c.w, c.h))
    ensures Local(c, CursorShow(c, x, y))
  {
    hide Ink, ScenePx;
    var c' := CursorShow(c, x, y);
    forall px, py | OnScreen(c, px, py) && !In(c'.damage, px, py)
      ensures !In(c.damage, px, py) && ScenePx(c', px, py) == ScenePx(c, px, py)
    {
      assert !InBoxOf(x, y, px, py);
      if Ink(c'.cursor, px, py) { InkInBox(c'.cursor, px, py); }
      CursorElsewhere(c, c', px, py);
    }
  }

  lemma CursorElsewhere(c: Comp, c': Comp, px: int, py: int)
    requires c'.slots == c.slots && c'.bg == c.bg
    requires !c.cursor.on || !Ink(c.cursor, px, py)
    requires !c'.cursor.on || !Ink(c'.cursor, px, py)
    ensures ScenePx(c', px, py) == ScenePx(c, px, py)
  {
  }

  /** Otherwise a pixel of the old arrow stays, on an empty desk. */
  lemma CursorLeavesMark(cur: Cursor, x: int, y: int, w: nat, h: nat, px: int, py: int)
    requires cur.on && 0 <= px < w && 0 <= py < h && Ink(cur, px, py) && !InBoxOf(x, y, px, py)
    ensures !Local(EmptyDesk(w, h, cur), CursorShow(EmptyDesk(w, h, cur), x, y))
  {
    var c := EmptyDesk(w, h, cur);
    var c' := CursorShow(c, x, y);
    StackFree(COMP_MAX, px, py, c.bg);
    if Ink(c'.cursor, px, py) { InkInBox(c'.cursor, px, py); }
    assert OnScreen(c, px, py) && !In(c'.damage, px, py);
    assert ScenePx(c', px, py) == c.bg;
  }

  /** For a cursor wholly on the screen: covered exactly in the same row and at most
      three columns to the left. */
  lemma CoveredOnScreen(cur: Cursor, x: int, y: int, w: nat, h: nat)
    requires 0 <= cur.x && cur.x + CUR_SIZE < w && 0 <= cur.y && cur.y + CUR_SIZE < h
    ensures InkCovered(cur, x, y, w, h) <==> y == cur.y && x <= cur.x <= x + 3
  {
    ArrowExtent();
    if InkCovered(cur, x, y, w, h) {
      InkAt(cur);
      assert InBoxOf(x, y, cur.x, cur.y) && InBoxOf(x, y, cur.x + 9, cur.y + 9) && InBoxOf(x, y, cur.x + 1, cur.y + 12);
    }
  }

  lemma InkAt(cur: Cursor)
    ensures Ink(cur, cur.x, cur.y) && Ink(cur, cur.x + 9, cur.y + 9) && Ink(cur, cur.x + 1, cur.y + 12)
  {
    ArrowExtent();
    assert (cur.x, cur.y) in ArrowPts(cur.x, cur.y);
    assert (cur.x + 9, cur.y + 9) in ArrowPts(cur.x + 1, cur.y + 1);
    assert (cur.x + 1, cur.y + 12) in ArrowPts(cur.x + 1, cur.y + 1);
  }

  /** anim_tick on the first n entries. */
  function TickTo(c: Comp, n: nat): (r: Comp)
    requires Wf(c) && n <= COMP_MAX
    ensures Wf(r) && r.w == c.w && r.h == c.h
    ensures forall m :: n <= m < COMP_MAX ==> r.slots[m] == c.slots[m]
  {
    if n == 0 then c
    else
      var before := TickTo(c, n - 1);
      TickWf(before, n - 1);
      Tick(before, n - 1)
  }

  lemma {:induction false} TickToIsLocal(c: Comp, n: nat)
    requires Wf(c) && n <= COMP_MAX && Steady(c)
    ensures Local(c, TickTo(c, n))
  {
    hide Local, NoTrail, Wf, Tick;
    LocalRefl(c);
    if n > 0 {
      TickToIsLocal(c, n - 1);
      var before := TickTo(c, n - 1);
      SlotFacts(c, n - 1);
      SlotFacts(before, n - 1);
      TickIsLocal(before, n - 1);
      LocalTrans(c, before, Tick(before, n - 1));
    }
  }

  lemma SlotFacts(c: Comp, k: nat)
    requires Wf(c) && k < COMP_MAX
    ensures |c.slots| == COMP_MAX && SlotOk(c.slots[k])
  {
  }

  predicate Animating(c: Comp) {
    exists k :: 0 <= k < |c.slots| && c.slots[k].Surf? && !c.slots[k].anim.Still?
  }

  // ----- Repainting the box ---------------------------------------------------------------

  function BoxPts(b: Box): set<Point> {
    if b.Clean? then {} else RectPts(b.x0, b.y0, b.x1 - b.x0, b.y1 - b.y0)
  }

  predicate SameShape(a: Image, b: Image) {
    |a| == |b| && forall j :: 0 <= j < |a| ==> |a[j]| == |b[j]|
  }

  /** One surface blitted through the box. */
  function PaintLayer(img: Image, s: Slot, b: Box, solid: Mode): (r: Image)
    requires b.Dirty? && !solid.Blend? && SlotOk(s)
    ensures SameShape(r, img)
  {
    if s.Free? || !s.visible || s.alpha <= 0 then img
    else Compose(img, b.x0, b.y0, s.img, b.x0 - s.x, b.y0 - s.y, b.x1 - b.x0, b.y1 - b.y0,
                 if s.alpha < 255 then Blend(s.alpha) else solid)
  }

  function PaintLayers(img: Image, slots: seq<Slot>, b: Box, solid: Mode): (r: Image)
    requires b.Dirty? && !solid.Blend? && forall s :: s in slots ==> SlotOk(s)
    ensures SameShape(r, img)
  {
    if slots == [] then img
    else PaintLayer(PaintLayers(img, slots[..|slots| - 1], b, solid), slots[|slots| - 1], b, solid)
  }

  /** The shadow, then the arrow over it; not clipped to the box. */
  function PaintCursor(img: Image, cur: Cursor): (r: Image)
    ensures SameShape(r, img)
  {
    if !cur.on then img
    else Stamp(Stamp(img, ArrowPts(cur.x + 1, cur.y + 1), CursorBlack), ArrowPts(cur.x, cur.y), CursorWhite)
  }

  /** comp_composite on the back buffer: background, surfaces and cursor. */
  function Repaint(c: Comp, back: Image, solid: Mode): (r: Image)
    requires Wf(c) && !solid.Blend?
    ensures SameShape(r, back)
  {
    if c.damage.Clean? then back
    else PaintCursor(PaintLayers(Stamp(back, BoxPts(c.damage), c.bg), c.slots, c.damage, solid), c.cursor)
  }

  /** Inside the box the layers build up the scene; outside nothing is touched. */
  lemma {:induction false} PaintLayersIsStack(back: Image, slots: seq<Slot>, b: Box, bg: Px, solid: Mode,
                                              x: int, y: int)
    requires b.Dirty? && !solid.Blend? && forall s :: s in slots ==> SlotOk(s)
    requires Inside(back, x, y)
    ensures var img := PaintLayers(Stamp(back, BoxPts(b), bg), slots, b, solid);
      && Inside(img, x, y)
      && (In(b, x, y) ==> Rgb(img[y][x]) == Rgb(Stack(slots, x, y, bg)))
      && (!In(b, x, y) ==> img[y][x] == back[y][x])
  {
    if slots != [] {
      var n := |slots| - 1;
      PaintLayersIsStack(back, slots[..n], b, bg, solid, x, y);
      var img, s := PaintLayers(Stamp(back, BoxPts(b), bg), slots[..n], b, solid), slots[n];
      if s.Surf? {
        assert Hit(b.x0, b.y0, s.img, b.x0 - s.x, b.y0 - s.y, b.x1 - b.x0, b.y1 - b.y0, x, y)
          <==> In(b, x, y) && Covers(s, x, y);
      }
    }
  }

  /** Repainting the damage box makes a settled back buffer show the scene. */
  lemma RepaintShowsScene(c: Comp, back: Image, solid: Mode)
    requires Wf(c) && Settled(c, back) && !solid.Blend?
    ensures ShowsScene(c, Repaint(c, back, solid))
  {
    forall x, y | OnScreen(c, x, y)
      ensures var img := Repaint(c, back, solid); Inside(img, x, y) && Rgb(img[y][x]) == Rgb(ScenePx(c, x, y))
    {
      if c.damage.Dirty? {
        PaintLayersIsStack(back, c.slots, c.damage, c.bg, solid, x, y);
      }
    }
  }

  /** A repaint touches only the box and the cursor's square. */
  lemma RepaintTouches(c: Comp, back: Image, solid: Mode, x: int, y: int)
    requires Wf(c) && !solid.Blend? && Inside(back, x, y) && !In(c.damage, x, y)
    requires c.cursor.on ==>
      !In(Dirty(c.cursor.x, c.cursor.y, c.cursor.x + CUR_SIZE + 1, c.cursor.y + CUR_SIZE + 1), x, y)
    ensures Repaint(c, back, solid)[y][x] == back[y][x]
  {
    if c.damage.Dirty? {
      PaintLayersIsStack(back, c.slots, c.damage, c.bg, solid, x, y);
    }
  }

  // ----- Runs -------------------------------------------------------------------------------

  datatype Op =
    | OpCreate(cw: nat, ch: nat, mem: bool)
    | OpDestroy(id: int)
    | OpMove(id: int, x: int, y: int)
    | OpRaise(id: int)
    | OpFill(id: int, color: Px)
    | OpFillRect(id: int, x: int, y: int, w: int, h: int, color: Px)
    | OpRect(id: int, x: int, y: int, w: int, h: int, color: Px)
    | OpText(font: Font, id: int, x: int, y: int, str: seq<byte>, color: Px)
    | OpDamage(id: int, x: int, y: int, w: int, h: int)
    | OpDamageAll(id: int)
    | OpPaint(id: int, img: Image)
    | OpResize(id: int, cw: nat, ch: nat, mem: bool)
    | OpSetVisible(id: int, v: bool)
    | OpFadeIn(id: int, frames: int)
    | OpFadeOut(id: int, frames: int)
    | OpSlideIn(id: int, x: int, y: int, frames: int)
    | OpSetBg(color: Px)
    | OpAnimTicks
    | OpCursorShow(x: int, y: int)
    | OpCursorMove(x: int, y: int)
    | OpCursorHide
    | OpComposite

  predicate OpOk(op: Op) {
    op.OpText? ==> FontOk(op.font)
  }

  /** The compositor's state and what its back buffer holds. */
  datatype Desk = Desk(comp: Comp, back: Image)

  function Change(c: Comp, op: Op): Comp
    requires Wf(c) && OpOk(op) && !op.OpComposite?
  {
    match op
    case OpCreate(w, h, mem) => Create(c, w, h, mem).0
    case OpDestroy(id) => Destroy(c, id)
    case OpMove(id, x, y) => Move(c, id, x, y)
    case OpRaise(id) => Raise(c, id)
    case OpFill(id, color) => Fill(c, id, color)
    case OpFillRect(id, x, y, w, h, color) => FillRect(c, id, x, y, w, h, color)
    case OpRect(id, x, y, w, h, color) => Outline(c, id, x, y, w, h, color)
    case OpText(font, id, x, y, str, color) => Text(c, font, id, x, y, str, color)
    case OpDamage(id, x, y, w, h) => DamageRect(c, id, x, y, w, h)
    case OpDamageAll(id) => DamageAll(c, id)
    case OpPaint(id, img) => Paint(c, id, img)
    case OpResize(id, w, h, mem) => Resize(c, id, w, h, mem).0
    case OpSetVisible(id, v) => SetVisible(c, id, v)
    case OpFadeIn(id, frames) => FadeInStart(c, id, frames)
    case OpFadeOut(id, frames) => FadeOutStart(c, id, frames)
    case OpSlideIn(id, x, y, frames) => SlideInStart(c, id, x, y, frames)
    case OpSetBg(color) => SetBg(c, color)
    case OpAnimTicks => TickTo(c, COMP_MAX)
    case OpCursorShow(x, y) => CursorShow(c, x, y)
    case OpCursorMove(x, y) => CursorMove(c, x, y)
    case OpCursorHide => CursorHide(c)
  }

  /** The three operations that do not damage all they change are used where that does not
      show: no slide is about to leave a trail, no colour to change unseen, no cursor to be
      shown again elsewhere. */
  ghost predicate Quiet(c: Comp, op: Op) {
    match op
    case OpAnimTicks => Steady(c)
    case OpSetBg(color) => color == c.bg || ScreenDamaged(c)
    case OpCursorShow(x, y) => !c.cursor.on || InkCovered(c.cursor, x, y, c.w, c.h)
    case _ => true
  }

  /** The other operations damage all they change, and keep the table in order. */
  lemma UsualIsLocal(c: Comp, op: Op)
    requires Wf(c) && OpOk(op) && !op.OpComposite? && !op.OpAnimTicks? && !op.OpSetBg? && !op.OpCursorShow?
    ensures Local(c, Change(c, op)) && Wf(Change(c, op))
  {
    hide Local, Wf, Find, Create, Destroy, Move, Raise, Fill, FillRect, Outline, Text, Resize;
    hide SetVisible, FadeInStart, FadeOutStart, SlideInStart, CursorMove, CursorHide, DamageRect, DamageAll, Paint;
    match op
    case OpCreate(w, h, mem) => CreateIsLocal(c, w, h, mem);
    case OpDestroy(id) => DestroyIsLocal(c, id);
    case OpMove(id, x, y) => MoveIsLocal(c, id, x, y);
    case OpRaise(id) => RaiseIsLocal(c, id);
    case OpFill(id, color) => FillIsLocal(c, id, color);
    case OpFillRect(id, x, y, w, h, color) => FillRectIsLocal(c, id, x, y, w, h, color);
    case OpRect(id, x, y, w, h, color) => OutlineIsLocal(c, id, x, y, w, h, color);
    case OpText(font, id, x, y, str, color) => TextIsLocal(c, font, id, x, y, str, color);
    case OpDamage(id, x, y, w, h) => DamageIsLocal(c, id, x, y, w, h);
    case OpDamageAll(id) => DamageIsLocal(c, id, 0, 0, 0, 0);
    case OpPaint(id, img) => PaintIsLocal(c, id, img);
    case OpResize(id, w, h, mem) => ResizeIsLocal(c, id, w, h, mem);
    case OpSetVisible(id, v) => SetVisibleIsLocal(c, id, v);
    case OpFadeIn(id, frames) => FadeInStartIsLocal(c, id, frames);
    case OpFadeOut(id, frames) => FadeOutStartIsLocal(c, id, frames);
    case OpSlideIn(id, x, y, frames) => SlideInStartIsLocal(c, id, x, y, frames);
    case OpCursorMove(x, y) => CursorIsLocal(c, x, y);
    case OpCursorHide => CursorIsLocal(c, 0, 0);
  }

  /** Each operation, where it is quiet, changes the scene only inside the damage it adds. */
  lemma ChangeIsLocalOp(c: Comp, op: Op)
    requires Wf(c) && OpOk(op) && !op.OpComposite? && Quiet(c, op)
    ensures Local(c, Change(c, op))
  {
    hide Local, Wf, Steady, ScreenDamaged, InkCovered, SetBg, CursorShow, TickTo;
    if op.OpAnimTicks? {
      TickToIsLocal(c, COMP_MAX);
    } else if op.OpSetBg? {
      SetBgIsLocal(c, op.color);
    } else if op.OpCursorShow? {
      CursorShowLocal(c, op.x, op.y);
    } else {
      UsualIsLocal(c, op);
    }
  }

  /** Every operation keeps the table in order. */
  lemma ChangeKeepsWf(c: Comp, op: Op)
    requires Wf(c) && OpOk(op) && !op.OpComposite?
    ensures Wf(Change(c, op))
  {
    if op.OpAnimTicks? {
    } else if op.OpSetBg? {
      SetBgWf(c, op.color);
    } else if op.OpCursorShow? {
      CursorShowWf(c, op.x, op.y);
    } else {
      UsualIsLocal(c, op);
    }
  }

  lemma CursorShowWf(c: Comp, x: int, y: int)
    requires Wf(c)
    ensures Wf(CursorShow(c, x, y))
  {
  }

  lemma SetBgWf(c: Comp, color: Px)
    requires Wf(c)
    ensures Wf(SetBg(c, color))
  {
  }

  /** What one call leaves of the compositor. */
  function One(c: Comp, op: Op): (r: Comp)
    requires Wf(c) && OpOk(op)
    ensures Wf(r)
  {
    if op.OpComposite? then c.(damage := Clean)
    else
      ChangeKeepsWf(c, op);
      Change(c, op)
  }

  function Step(d: Desk, op: Op, solid: Mode): (r: Desk)
    requires Wf(d.comp) && OpOk(op) && !solid.Blend?
    ensures Wf(r.comp)
  {
    Desk(One(d.comp, op), if op.OpComposite? then Repaint(d.comp, d.back, solid) else d.back)
  }

  lemma StepKeepsSettled(d: Desk, op: Op, solid: Mode)
    requires Wf(d.comp) && OpOk(op) && !solid.Blend? && Settled(d.comp, d.back) && Quiet(d.comp, op)
    ensures Settled(Step(d, op, solid).comp, Step(d, op, solid).back)
  {
    if op.OpComposite? {
      RepaintShowsScene(d.comp, d.back, solid);
      forall x, y | OnScreen(d.comp, x, y)
        ensures ScenePx(d.comp.(damage := Clean), x, y) == ScenePx(d.comp, x, y)
      {
      }
    } else {
      ChangeIsLocalOp(d.comp, op);
      LocalKeepsSettled(d.comp, Change(d.comp, op), d.back);
    }
  }

  /** Every call of a run is made where it is quiet. */
  ghost predicate QuietRun(c: Comp, ops: seq<Op>)
    requires Wf(c) && forall op :: op in ops ==> OpOk(op)
    decreases |ops|
  {
    ops == [] || (Quiet(c, ops[0]) && QuietRun(One(c, ops[0]), ops[1..]))
  }

  /** The desk after a run of calls. */
  function Run(d: Desk, ops: seq<Op>, solid: Mode): (r: Desk)
    requires Wf(d.comp) && !solid.Blend? && forall op :: op in ops ==> OpOk(op)
    ensures Wf(r.comp)
    decreases |ops|
  {
    if ops == [] then d else Run(Step(d, ops[0], solid), ops[1..], solid)
  }

  lemma {:induction false} RunKeepsSettled(d: Desk, ops: seq<Op>, solid: Mode)
    requires Wf(d.comp) && !solid.Blend? && (forall op :: op in ops ==> OpOk(op))
    requires Settled(d.comp, d.back) && QuietRun(d.comp, ops)
    ensures Settled(Run(d, ops, solid).comp, Run(d, ops, solid).back)
    decreases |ops|
  {
    hide Settled, Quiet, Wf, OpOk, Change, Repaint;
    if ops != [] {
      StepKeepsSettled(d, ops[0], solid);
      RunKeepsSettled(Step(d, ops[0], solid), ops[1..], solid);
    }
  }

  /** A desk with no surfaces whose back buffer is all background. */
  ghost predicate Fresh(d: Desk) {
    && Wf(d.comp) && d.comp.slots == FreeSlots(COMP_MAX) && !d.comp.cursor.on
    && HasSize(d.back, d.comp.w, d.comp.h)
    && forall i, j :: Inside(d.back, i, j) ==> Rgb(d.back[j][i]) == Rgb(d.comp.bg)
  }

  lemma FreshIsSettled(d: Desk)
    requires Fresh(d)
    ensures Settled(d.comp, d.back)
  {
    forall x, y | OnScreen(d.comp, x, y)
      ensures Rgb(d.back[y][x]) == Rgb(ScenePx(d.comp, x, y))
    {
      assert Inside(d.back, x, y);
      StackFree(COMP_MAX, x, y, d.comp.bg);
    }
  }

  /** After any run from an empty desk, one more composite makes every pixel of
      the back buffer equal to a from-scratch repaint of the whole scene. */
  lemma RunThenComposite(d: Desk, ops: seq<Op>, solid: Mode)
    requires Fresh(d) && !solid.Blend? && (forall op :: op in ops ==> OpOk(op)) && QuietRun(d.comp, ops)
    ensures var end := Run(d, ops, solid); ShowsScene(end.comp, Step(end, OpComposite, solid).back)
  {
    FreshIsSettled(d);
    RunKeepsSettled(d, ops, solid);
    var end := Run(d, ops, solid);
    RepaintShowsScene(end.comp, end.back, solid);
  }

  // ----- Runs without slides ----------------------------------------------------------------

  predicate NoSlides(c: Comp) {
    forall k :: 0 <= k < |c.slots| && c.slots[k].Surf? ==> !c.slots[k].anim.Slide?
  }

  /** None of comp_slide_in, comp_set_bg and comp_cursor_show. */
  predicate Usual(op: Op) {
    !op.OpSlideIn? && !op.OpSetBg? && !op.OpCursorShow?
  }

  lemma RaiseNoSlides(c: Comp, k: nat)
    requires Wf(c) && NoSlides(c) && k < COMP_MAX && c.slots[k].Surf?
    ensures NoSlides(c.(slots := RaiseSlots(c.slots, k)))
  {
    hide RaiseSlots, UsedOnly, Without;
    var used, r := UsedOnly(Without(c.slots, k)), RaiseSlots(c.slots, k);
    RaisedDistinct(c.slots, k);
    WithoutDistinct(c.slots, k);
    forall q | 0 <= q < |r| && r[q].Surf?
      ensures !r[q].anim.Slide?
    {
      if q < |used| {
        assert used[q] in used && used[q] in c.slots;
      }
    }
  }

  lemma {:induction false} TickNoSlides(c: Comp, n: nat)
    requires Wf(c) && NoSlides(c) && n <= COMP_MAX
    ensures NoSlides(TickTo(c, n))
  {
    if n > 0 { TickNoSlides(c, n - 1); }
  }

  lemma OneNoSlides(c: Comp, op: Op)
    requires Wf(c) && OpOk(op) && Usual(op) && NoSlides(c)
    ensures NoSlides(One(c, op))
  {
    hide NoSlides, TickTo, Raise, Wf, Change;
    if op.OpRaise? {
      RaisedNoSlides(c, op.id);
    } else if op.OpAnimTicks? {
      TickNoSlides(c, COMP_MAX);
      assert One(c, op) == TickTo(c, COMP_MAX) by { TicksAre(c); }
    } else if op.OpFillRect? || op.OpRect? || op.OpText? || op.OpFill? {
      DrawNoSlides(c, op);
    } else if op.OpCreate? {
      CreateNoSlides(c, op.cw, op.ch, op.mem);
    } else if Replaces(op) {
      ReplaceNoSlides(c, op);
    } else {
      FieldsNoSlides(c, op);
    }
  }

  lemma TicksAre(c: Comp)
    requires Wf(c)
    ensures Change(c, OpAnimTicks) == TickTo(c, COMP_MAX)
  {
  }

  lemma RaisedNoSlides(c: Comp, id: int)
    requires Wf(c) && NoSlides(c)
    ensures NoSlides(One(c, OpRaise(id)))
  {
    if Known(c, id) { RaiseNoSlides(c, Find(c.slots, id)); }
  }

  lemma SetNoSlides(c: Comp, c': Comp, k: nat)
    requires NoSlides(c) && k < |c.slots| == |c'.slots| && c'.slots == c.slots[k := c'.slots[k]]
    requires c'.slots[k].Surf? ==> !c'.slots[k].anim.Slide?
    ensures NoSlides(c')
  {
  }

  lemma SameNoSlides(c: Comp, c': Comp)
    requires NoSlides(c) && c'.slots == c.slots
    ensures NoSlides(c')
  {
  }

  lemma SlotNoSlides(c: Comp, id: int)
    requires NoSlides(c) && Known(c, id)
    ensures !c.slots[Find(c.slots, id)].anim.Slide?
  {
  }

  lemma DrawNoSlides(c: Comp, op: Op)
    requires Wf(c) && OpOk(op) && NoSlides(c) && (op.OpFillRect? || op.OpRect? || op.OpText? || op.OpFill?)
    ensures NoSlides(One(c, op))
  {
    hide NoSlides, Wf, Stamp, Clip, Hull;
    if Known(c, op.id) {
      SlotNoSlides(c, op.id);
      SetNoSlides(c, One(c, op), Find(c.slots, op.id));
    } else {
      SameNoSlides(c, One(c, op));
    }
  }

  /** The operation, if it does anything, replaces one slot. */
  predicate Replaces(op: Op) {
    op.OpDestroy? || op.OpMove? || op.OpPaint? || op.OpResize? || op.OpSetVisible? || op.OpFadeIn? || op.OpFadeOut?
  }

  lemma ReplaceNoSlides(c: Comp, op: Op)
    requires Wf(c) && Replaces(op) && NoSlides(c)
    ensures NoSlides(One(c, op))
  {
    hide NoSlides, Wf, Clip, Hull, Compose, Blank;
    if Known(c, op.id) {
      SlotNoSlides(c, op.id);
      SetNoSlides(c, One(c, op), Find(c.slots, op.id));
    } else {
      SameNoSlides(c, One(c, op));
    }
  }

  lemma CreateNoSlides(c: Comp, w: nat, h: nat, mem: bool)
    requires Wf(c) && NoSlides(c)
    ensures NoSlides(One(c, OpCreate(w, h, mem)))
  {
    hide NoSlides, Wf, Clip, Hull, Blank;
    if Create(c, w, h, mem).0 == c {
      SameNoSlides(c, c);
    } else {
      SetNoSlides(c, One(c, OpCreate(w, h, mem)), FirstFree(c.slots));
    }
  }

  lemma FieldsNoSlides(c: Comp, op: Op)
    requires Wf(c) && NoSlides(c)
    requires op.OpDamage? || op.OpDamageAll? || op.OpCursorMove? || op.OpCursorHide? || op.OpComposite?
    ensures NoSlides(One(c, op))
  {
    hide NoSlides, Wf, Clip, Hull;
    SameNoSlides(c, One(c, op));
  }

  /** Runs of the other operations are quiet. */
  lemma {:induction false} UsualRunsAreQuiet(c: Comp, ops: seq<Op>)
    requires Wf(c) && NoSlides(c) && forall op :: op in ops ==> OpOk(op) && Usual(op)
    ensures QuietRun(c, ops)
    decreases |ops|
  {
    hide Wf, OpOk, Change;
    if ops != [] {
      OneNoSlides(c, ops[0]);
      UsualRunsAreQuiet(One(c, ops[0]), ops[1..]);
    }
  }

  /** So for every run without them the picture is right after a composite, whatever the
      arguments and the order of the calls. */
  lemma UsualRunThenComposite(d: Desk, ops: seq<Op>, solid: Mode)
    requires Fresh(d) && !solid.Blend? && forall op :: op in ops ==> OpOk(op) && Usual(op)
    ensures var end := Run(d, ops, solid); ShowsScene(end.comp, Step(end, OpComposite, solid).back)
  {
    UsualRunsAreQuiet(d.comp, ops);
    RunThenComposite(d, ops, solid);
  }

  // ----- A slide that leaves a trail ------------------------------------------------------------

  /** A pixel that changes outside the damage, of a desk shown rightly before, is wrong
      after the next composite. */
  lemma MarkStays(c: Comp, c': Comp, back: Image, solid: Mode, x: int, y: int)
    requires Wf(c') && ShowsScene(c, back) && c'.w == c.w && c'.h == c.h && !solid.Blend? && !c'.cursor.on
    requires OnScreen(c, x, y) && !In(c'.damage, x, y) && Rgb(ScenePx(c', x, y)) != Rgb(ScenePx(c, x, y))
    ensures !ShowsScene(c'.(damage := Clean), Repaint(c', back, solid))
  {
    hide ScenePx, Repaint;
    assert Inside(back, x, y);
    RepaintTouches(c', back, solid, x, y);
    SceneIgnoresDamage(c');
    assert OnScreen(c'.(damage := Clean), x, y);
  }

  /** Only slot 0 is in use. */
  predicate Alone(c: Comp, s: Slot) {
    s.Surf? && c.slots == FreeSlots(COMP_MAX)[0 := s]
  }

  lemma FindAlone(c: Comp, s: Slot)
    requires Alone(c, s)
    ensures Known(c, s.id) && Find(c.slots, s.id) == 0
  {
  }

  lemma {:induction false} TickAlone(c: Comp, s: Slot, n: nat)
    requires Wf(c) && Alone(c, s) && 1 <= n <= COMP_MAX
    ensures TickTo(c, n) == Tick(c, 0)
  {
    hide Wf, Alone;
    SlotFacts(c, 0);
    if n == 1 {
      assert TickTo(c, 0) == c;
    } else {
      TickAlone(c, s, n - 1);
      TickWf(c, 0);
      FreeBehind(c, s, n - 1);
    }
  }

  lemma FreeBehind(c: Comp, s: Slot, k: nat)
    requires Wf(c) && Alone(c, s) && 0 < k < COMP_MAX
    ensures c.slots[k].Free? && Wf(Tick(c, 0)) && Tick(c, 0).slots[k].Free?
  {
    TickWf(c, 0);
  }

  /** A 10 x 10 surface made, filled, slid in from (50, 0) over two frames, shown, and moved
      on by one frame, to (25, 0). */
  function SlideRun(id: int, color: Px): seq<Op> {
    [OpCreate(10, 10, true), OpFill(id, color), OpSlideIn(id, 50, 0, 2), OpComposite, OpAnimTicks]
  }

  /** The surface on its way. */
  function SlidSurf(id: int, color: Px): (s: Slot)
    ensures s.Surf? && Sliding(s)
  {
    Surf(id, 50, 0, 10, 10, true, 255, Slide(2, 2, 50, 0, 0, 0), Stamp(Blank(10, 10), RectPts(0, 0, 10, 10), color))
  }

  lemma SlideReady(c: Comp, color: Px)
    requires Wf(c) && c.slots == FreeSlots(COMP_MAX)
    ensures var ops := SlideRun(c.nextId, color);
      var c3 := One(One(One(c, ops[0]), ops[1]), ops[2]);
      && Alone(c3, SlidSurf(c.nextId, color)) && c3.bg == c.bg && c3.cursor == c.cursor && c3.w == c.w && c3.h == c.h
  {
    hide Wf, Stamp, Blank, Clip, Hull;
    var id := c.nextId;
    var s1 := Surf(id, 0, 0, 10, 10, true, 255, Still, Blank(10, 10));
    var s2 := s1.(img := Stamp(s1.img, RectPts(0, 0, 10, 10), color));
    assert FirstFree(c.slots) == 0;
    var c1 := One(c, OpCreate(10, 10, true));
    assert Alone(c1, s1);
    FindAlone(c1, s1);
    var c2 := One(c1, OpFill(id, color));
    assert Alone(c2, s2);
    FindAlone(c2, s2);
  }

  lemma TrailPixel(c: Comp, id: int, color: Px)
    requires Wf(c) && Alone(c, SlidSurf(id, color)) && c.damage == Clean && !c.cursor.on && Rgb(color) != Rgb(c.bg)
    requires c.w >= 60 && c.h >= 10
    ensures var c' := One(c, OpAnimTicks);
      && !In(c'.damage, 55, 5) && Rgb(ScenePx(c', 55, 5)) != Rgb(ScenePx(c, 55, 5))
      && !c'.cursor.on && c'.w == c.w && c'.h == c.h
  {
    hide Wf, SlidSurf, Stack, FreeSlots, Tick, TickTo, In;
    var s := SlidSurf(id, color);
    TicksAre(c);
    TickAlone(c, s, COMP_MAX);
    SlotFacts(c, 0);
    SlidTick(c, id, color);
    var t := Tick(c, 0).slots[0];
    StackAlone(s, 55, 5, c.bg);
    StackAlone(t, 55, 5, c.bg);
    SlidShows(id, color, t, c.bg);
  }

  /** One frame on: the surface is at (25, 0), and only that place is damaged. */
  lemma SlidTick(c: Comp, id: int, color: Px)
    requires Wf(c) && Alone(c, SlidSurf(id, color)) && c.damage == Clean && SlotOk(c.slots[0])
    ensures var c' := Tick(c, 0);
      && |c'.slots| > 0 && Alone(c', c'.slots[0]) && c'.cursor == c.cursor && c'.bg == c.bg
      && c'.w == c.w && c'.h == c.h
      && !In(c'.damage, 55, 5)
      && c'.slots[0] == SlidSurf(id, color).(x := 25, anim := Slide(1, 2, 50, 0, 0, 0))
  {
    hide Wf, SlidSurf, TickSlot;
    var s := SlidSurf(id, color);
    SlidNext(id, color);
    assert c.slots[0] == s;
    var c' := Tick(c, 0);
    assert c'.slots == FreeSlots(COMP_MAX)[0 := TickSlot(s)];
    assert c'.damage == Clip(25, 0, 35, 10, c.w, c.h);
  }

  lemma SlidNext(id: int, color: Px)
    ensures var s := SlidSurf(id, color);
      && TickSlot(s) == s.(x := 25, anim := Slide(1, 2, 50, 0, 0, 0)) && s.y == 0 && s.w == 10 && s.h == 10
      && s.anim.left == 2
  {
    hide Stamp, Blank, RectPts;
    HalfwayPlace(SlidSurf(id, color));
    Halfway(SlidSurf(id, color));
  }

  lemma HalfwayPlace(s: Slot)
    requires s.Surf? && s.anim == Slide(2, 2, 50, 0, 0, 0)
    ensures PlaceX(s, 1) == 25 && PlaceY(s, 1) == 0
  {
    hide Slid;
    HalfSlid();
  }

  lemma HalfSlid()
    ensures Slid(50, 0, 1, 2) == 25 && Slid(0, 0, 1, 2) == 0
  {
  }

  lemma Halfway(s: Slot)
    requires s.Surf? && s.alpha == 255 && s.y == 0 && s.anim == Slide(2, 2, 50, 0, 0, 0)
    requires PlaceX(s, 1) == 25 && PlaceY(s, 1) == 0
    ensures TickSlot(s) == s.(x := 25, anim := Slide(1, 2, 50, 0, 0, 0))
  {
    hide PlaceX, PlaceY;
  }

  lemma SlidShows(id: int, color: Px, t: Slot, bg: Px)
    requires var s := SlidSurf(id, color); s.Surf? && t == s.(x := 25, anim := Slide(1, 2, 50, 0, 0, 0))
    ensures Over(SlidSurf(id, color), 55, 5, bg) == color && Over(t, 55, 5, bg) == bg
  {
    var s := SlidSurf(id, color);
    assert Inside(Blank(10, 10), 5, 5);
    assert Inside(s.img, 5, 5) && s.img[5][5] == color;
  }

  /** The desk is shown rightly before the frame that moves the surface. */
  lemma ShownFirst(d: Desk, ops: seq<Op>, solid: Mode, d1: Desk, d2: Desk, d3: Desk)
    requires Wf(d.comp) && Settled(d.comp, d.back) && !solid.Blend? && |ops| == 5 && forall op :: op in ops ==> OpOk(op)
    requires ops[0].OpCreate? && ops[1].OpFill? && ops[2].OpSlideIn?
    requires d1 == Step(d, ops[0], solid) && d2 == Step(d1, ops[1], solid) && d3 == Step(d2, ops[2], solid)
    ensures var d4 := Step(d3, OpComposite, solid); ShowsScene(d4.comp, d4.back)
  {
    hide Settled, Wf, Repaint, Change;
    StepKeepsSettled(d, ops[0], solid);
    StepKeepsSettled(d1, ops[1], solid);
    StepKeepsSettled(d2, ops[2], solid);
    RepaintShowsScene(d3.comp, d3.back, solid);
    SceneIgnoresDamage(d3.comp);
  }

  /** So a slide can leave part of the surface's last place on the screen. */
  lemma SlideLeavesTrail(d: Desk, color: Px, solid: Mode)
    requires Fresh(d) && d.comp.w >= 60 && d.comp.h >= 10 && Rgb(color) != Rgb(d.comp.bg) && !solid.Blend?
    ensures forall op :: op in SlideRun(d.comp.nextId, color) ==> OpOk(op)
    ensures var end := Run(d, SlideRun(d.comp.nextId, color), solid);
      !ShowsScene(end.comp.(damage := Clean), Step(end, OpComposite, solid).back)
  {
    FreshIsSettled(d);
    SlideReady(d.comp, color);
    hide Wf, Settled, ShowsScene, Repaint, Change, ScenePx, Alone;
    var ops := SlideRun(d.comp.nextId, color);
    var d1 := Step(d, ops[0], solid);
    var d2 := Step(d1, ops[1], solid);
    var d3 := Step(d2, ops[2], solid);
    var d4 := Step(d3, ops[3], solid);
    var d5 := Step(d4, ops[4], solid);
    RunOfFive(d, ops, solid, d1, d2, d3, d4, d5);
    ShownFirst(d, ops, solid, d1, d2, d3);
    AloneStill(d3.comp, d4.comp, SlidSurf(d.comp.nextId, color));
    TrailPixel(d4.comp, d.comp.nextId, color);
    MarkStays(d4.comp, d5.comp, d4.back, solid, 55, 5);
  }

  lemma AloneStill(c: Comp, c': Comp, s: Slot)
    requires Alone(c, s) && c'.slots == c.slots
    ensures Alone(c', s)
  {
  }

  lemma RunOfFive(d: Desk, ops: seq<Op>, solid: Mode, d1: Desk, d2: Desk, d3: Desk, d4: Desk, d5: Desk)
    requires |ops| == 5 && !solid.Blend? && Wf(d.comp) && forall op :: op in ops ==> OpOk(op)
    requires d1 == Step(d, ops[0], solid) && d2 == Step(d1, ops[1], solid) && d3 == Step(d2, ops[2], solid)
    requires d4 == Step(d3, ops[3], solid) && d5 == Step(d4, ops[4], solid)
    ensures Run(d, ops, solid) == d5
  {
    hide Step, Wf, OpOk;
    assert ops[1..][1..] == ops[2..] && ops[2..][1..] == ops[3..] && ops[3..][1..] == ops[4..] && ops[4..][1..] == [];
    assert Run(d4, ops[4..], solid) == d5;
    assert Run(d3, ops[3..], solid) == d5;
    assert Run(d2, ops[2..], solid) == d5;
    assert Run(d1, ops[1..], solid) == d5;
  }
}

// The handle table of user/dl.c: loading with dependencies, reference counts,
// the TLS layout, closing, and the search of the loaded modules.
//
// A shared object is an abstract record; the outcomes the loader cannot know
// beforehand (mappings, relocations) are arbitrary.  Modules whose load is still
// in progress, that is the callers of a nested dl_open_mode, are "pending".

module Loader {
  import opened ElfSymbols
  import opened Tls
  import opened Words

  const DL_MAX := 4
  const NEED_MAX := 8
  const NAME_MAX := 23
  const NBUCKET_MAX := 8192
  // TLS sizes and alignments up to here cannot make the 32-bit sums wrap.
  const TLS_MAX := 0x1000_0000

  /** "/lib/" */
  const LIB: Name := [47, 108, 105, 98, 47]

  /** What a file holds.  needed are the names dl_sym_name finds for DT_NEEDED. */
  datatype Image = Image(
    headersOk: bool,
    tlsMem: nat,
    tlsAlign: nat,
    tlsInit: seq<bv8>,
    dynamicOk: bool,
    needed: seq<Option<Name>>,
    table: Table)

  /** struct dl_handle. */
  datatype Handle = Handle(
    used: bool,
    refs: nat,
    name: Name,
    order: nat,
    isGlobal: bool,
    tlsMem: nat,
    tlsAlign: nat,
    tlsInit: seq<bv8>,
    tlsOff: nat,
    table: Table)

  const Empty := Handle(false, 0, [], 0, false, 0, 0, [], 0, Table(0, [], [], []))

  type Disk = map<Name, Image>

  predicate ImageFits(img: Image) {
    img.tlsMem <= TLS_MAX && img.tlsAlign <= TLS_MAX
  }

  /** What dl_open_mode checks of a file before it loads the dependencies. */
  predicate Loadable(img: Image) {
    img.headersOk && |img.tlsInit| <= img.tlsMem && img.dynamicOk && Accepted(img.table)
        && |img.table.buckets| <= NBUCKET_MAX
  }

  predicate DiskFits(disk: Disk) {
    forall p :: p in disk ==> ImageFits(disk[p])
  }

  function Cut(s: Name): Name {
    if |s| > NAME_MAX then s[..NAME_MAX] else s
  }

  /** The handle holds what the file says, freshly loaded. */
  predicate Holding(h: Handle, path: Name, img: Image, isGlobal: bool, order: nat) {
    && h.used && h.name == path && h.refs == 1 && h.isGlobal == isGlobal && h.order == order
    && h.tlsMem == img.tlsMem && h.tlsAlign == (if img.tlsAlign != 0 then img.tlsAlign else 1)
    && h.tlsInit == img.tlsInit && h.table == img.table
  }

  /** The same module, wherever its TLS range now is. */
  predicate Same(g: Handle, h: Handle) {
    h == g.(tlsOff := h.tlsOff)
  }

  predicate HasTls(h: Handle) {
    h.used && h.tlsMem > 0
  }

  predicate Apart(g: Handle, h: Handle) {
    g.tlsOff + g.tlsMem <= h.tlsOff || h.tlsOff + h.tlsMem <= g.tlsOff
  }

  /** The most room a module can take up in the layout. */
  function Room(h: Handle): nat {
    if HasTls(h) then h.tlsMem + h.tlsAlign else 0
  }

  /** Placed modules are aligned, inside the total, mirrored in the offset
      table, and clear of each other. */
  predicate LayoutOk(hs: seq<Handle>, offs: seq<nat>, total: nat, pending: set<int>)
    requires |hs| == |offs| == DL_MAX
  {
    && (forall i :: 0 <= i < DL_MAX && i !in pending && HasTls(hs[i]) ==>
          Seated(hs[i].tlsOff, hs[i].tlsAlign) && hs[i].tlsOff + hs[i].tlsMem <= total && offs[i] == hs[i].tlsOff)
    && (forall i, j :: 0 <= i < j < DL_MAX && i !in pending && j !in pending && HasTls(hs[i]) && HasTls(hs[j]) ==>
        Apart(hs[i], hs[j]))
  }

  function RoomAt(hs: seq<Handle>, i: nat, pending: set<int>): nat
    requires i < |hs|
  {
    if i in pending then 0 else Room(hs[i])
  }

  /** All the room the placed modules can take up. */
  function TotalRoom(hs: seq<Handle>, pending: set<int>): nat
    requires |hs| == DL_MAX
  {
    RoomAt(hs, 0, pending) + RoomAt(hs, 1, pending) + RoomAt(hs, 2, pending) + RoomAt(hs, 3, pending)
  }

  /** Module i has a TLS range that is placed for good. */
  predicate Placed(hs: seq<Handle>, pending: set<int>, i: int) {
    0 <= i < |hs| && i !in pending && HasTls(hs[i])
  }

  /** Modules still loading have offset 0, and so has one of the placed ones, if any. */
  ghost predicate Grounded(hs: seq<Handle>, pending: set<int>) {
    && (forall i :: i in pending && 0 <= i < |hs| ==> hs[i].tlsOff == 0)
    && ((exists i :: Placed(hs, pending, i)) ==> exists i :: Placed(hs, pending, i) && hs[i].tlsOff == 0)
  }

  predicate HandleOk(h: Handle, next: nat) {
    && |h.name| <= NAME_MAX && h.refs > 0 && h.order < next
    && 0 < h.tlsAlign <= TLS_MAX && h.tlsMem <= TLS_MAX && |h.tlsInit| <= h.tlsMem
    && Accepted(h.table)
  }

  predicate TableOk(hs: seq<Handle>, next: nat)
    requires |hs| == DL_MAX
  {
    && (forall i :: 0 <= i < DL_MAX && hs[i].used ==> HandleOk(hs[i], next))
    && (forall i, j :: 0 <= i < j < DL_MAX && hs[i].used && hs[j].used ==>
        hs[i].name != hs[j].name && hs[i].order != hs[j].order)
  }

  predicate Live(hs: seq<Handle>, name: Name) {
    exists i :: 0 <= i < |hs| && hs[i].used && hs[i].name == name
  }

  /** owed holds each name once for every open that returned it and has not been
      closed.  A module is live exactly while it is owed (or still loading). */
  ghost predicate RefsOk(hs: seq<Handle>, owed: multiset<Name>, pending: set<int>) {
    && (forall i :: 0 <= i < |hs| && hs[i].used ==> hs[i].refs == owed[hs[i].name] + if i in pending then 1 else 0)
    && (forall n :: n in owed ==> Live(hs, n))
  }

  /** Between top-level calls: live exactly when some open is not yet closed. */
  lemma LiveIffOwed(hs: seq<Handle>, owed: multiset<Name>, next: nat, n: Name)
    requires |hs| == DL_MAX && TableOk(hs, next) && RefsOk(hs, owed, {})
    ensures Live(hs, n) <==> owed[n] > 0
  {
    if Live(hs, n) {
      var i :| 0 <= i < |hs| && hs[i].used && hs[i].name == n;
      assert HandleOk(hs[i], next);
    }
  }

  function FreeCount(hs: seq<Handle>): nat
    requires |hs| == DL_MAX
  {
    (if hs[0].used then 0 else 1) + (if hs[1].used then 0 else 1) + (if hs[2].used then 0 else 1)
    + (if hs[3].used then 0 else 1)
  }

  /** What a load leaves of the table it started from: every live module is still
      there with its count, and new ones have exactly one reference. */
  predicate Extends(was: seq<Handle>, now: seq<Handle>)
    requires |was| == |now|
  {
    && (forall i :: 0 <= i < |was| && was[i].used ==> now[i].used && Same(was[i], now[i]))
    && (forall i :: 0 <= i < |was| && !was[i].used && now[i].used ==> now[i].refs == 1)
  }

  /** Everything that holds of the loader's state while the modules in pending load. */
  ghost predicate Inv(hs: seq<Handle>, offs: seq<nat>, total: nat, next: nat, owed: multiset<Name>, pending: set<int>) {
    && |hs| == |offs| == DL_MAX
    && (forall i :: i in pending ==> 0 <= i < DL_MAX && hs[i].used)
    && TableOk(hs, next) && RefsOk(hs, owed, pending) && LayoutOk(hs, offs, total, pending)
  }

  // Each part of the invariant on its own, for the four changes of the table.

  lemma RetainTable(hs: seq<Handle>, now: seq<Handle>, next: nat, h: nat)
    requires |hs| == DL_MAX && TableOk(hs, next) && h < DL_MAX && hs[h].used
    requires now == hs[h := hs[h].(refs := hs[h].refs + 1)]
    ensures TableOk(now, next)
  {
    assert HandleOk(hs[h], next);
  }

  lemma RetainRefs(hs: seq<Handle>, now: seq<Handle>, next: nat, owed: multiset<Name>, pending: set<int>, h: nat)
    requires |hs| == DL_MAX && TableOk(hs, next) && RefsOk(hs, owed, pending) && h < DL_MAX && hs[h].used
    requires now == hs[h := hs[h].(refs := hs[h].refs + 1)]
    ensures RefsOk(now, owed + multiset{hs[h].name}, pending)
  {
    LiveGrows(hs, now);
    assert Live(now, hs[h].name) by { assert now[h].used && now[h].name == hs[h].name; }
  }

  lemma SameLayout(hs: seq<Handle>, now: seq<Handle>, offs: seq<nat>, total: nat, pending: set<int>)
    requires |hs| == |now| == |offs| == DL_MAX && LayoutOk(hs, offs, total, pending)
    requires forall i :: 0 <= i < DL_MAX && i !in pending && HasTls(now[i]) ==>
               HasTls(hs[i]) && now[i].tlsOff == hs[i].tlsOff && now[i].tlsMem == hs[i].tlsMem
                   && now[i].tlsAlign == hs[i].tlsAlign
    ensures LayoutOk(now, offs, total, pending)
  {
  }

  lemma RetainKeeps(hs: seq<Handle>, offs: seq<nat>, total: nat, next: nat, owed: multiset<Name>, pending: set<int>,
                    h: nat)
    requires Inv(hs, offs, total, next, owed, pending) && h < DL_MAX && hs[h].used
    ensures Inv(hs[h := hs[h].(refs := hs[h].refs + 1)], offs, total, next, owed + multiset{hs[h].name}, pending)
  {
    var now := hs[h := hs[h].(refs := hs[h].refs + 1)];
    RetainTable(hs, now, next, h);
    RetainRefs(hs, now, next, owed, pending, h);
    SameLayout(hs, now, offs, total, pending);
  }

  lemma RetainGrounded(hs: seq<Handle>, pending: set<int>, h: nat)
    requires h < |hs|
    ensures Grounded(hs, pending) ==> Grounded(hs[h := hs[h].(refs := hs[h].refs + 1)], pending)
  {
    if Grounded(hs, pending) { SameGrounded(hs, hs[h := hs[h].(refs := hs[h].refs + 1)], pending, pending); }
  }

  lemma RetainRoom(hs: seq<Handle>, pending: set<int>, h: nat)
    requires |hs| == DL_MAX && h < DL_MAX
    ensures TotalRoom(hs[h := hs[h].(refs := hs[h].refs + 1)], pending) == TotalRoom(hs, pending)
  {
  }

  /** A change that leaves placed ranges where they are. */
  lemma SameGrounded(hs: seq<Handle>, now: seq<Handle>, pending: set<int>, more: set<int>)
    requires |hs| == |now| && Grounded(hs, pending)
    requires forall i :: Placed(now, more, i) <==> Placed(hs, pending, i)
    requires forall i :: Placed(hs, pending, i) ==> now[i].tlsOff == hs[i].tlsOff
    requires forall i :: i in more && 0 <= i < |now| ==> now[i].tlsOff == 0
    ensures Grounded(now, more)
  {
    if i :| Placed(now, more, i) {
      assert Placed(hs, pending, i);
      var z :| Placed(hs, pending, z) && hs[z].tlsOff == 0;
      assert Placed(now, more, z);
    }
  }

  lemma PlacedGrounded(hs: seq<Handle>, total: nat, pending: set<int>, slot: nat, off: nat)
    requires |hs| == DL_MAX && Grounded(hs, pending) && total <= TotalRoom(hs, pending)
    requires slot < DL_MAX && slot in pending && HasTls(hs[slot])
    requires total == 0 ==> off == 0
    ensures Grounded(hs[slot := hs[slot].(tlsOff := off)], pending - {slot})
  {
    var now, rest := hs[slot := hs[slot].(tlsOff := off)], pending - {slot};
    assert forall i :: Placed(hs, pending, i) ==> Placed(now, rest, i);
    if z :| Placed(hs, pending, z) && hs[z].tlsOff == 0 {
      assert Placed(now, rest, z);
    } else {
      NoRoomUsed(hs, pending);
      assert Placed(now, rest, slot);
    }
  }

  lemma NoRoomUsed(hs: seq<Handle>, pending: set<int>)
    requires |hs| == DL_MAX && forall i :: !Placed(hs, pending, i)
    ensures TotalRoom(hs, pending) == 0
  {
    assert !Placed(hs, pending, 0) && !Placed(hs, pending, 1) && !Placed(hs, pending, 2) && !Placed(hs, pending, 3);
  }

  /** Forgetting that modules are still loading. */
  lemma GroundedAlone(hs: seq<Handle>, pending: set<int>)
    requires Grounded(hs, pending)
    ensures Grounded(hs, {})
  {
    if i :| Placed(hs, {}, i) {
      if i !in pending {
        assert Placed(hs, pending, i);
        var z :| Placed(hs, pending, z) && hs[z].tlsOff == 0;
        assert Placed(hs, {}, z);
      }
    }
  }

  lemma EnterTable(hs: seq<Handle>, next: nat, slot: nat, h: Handle)
    requires |hs| == DL_MAX && TableOk(hs, next) && slot < DL_MAX
    requires h.used && HandleOk(h, next + 1) && !Live(hs, h.name) && h.order == next
    ensures TableOk(hs[slot := h], next + 1)
  {
    var now := hs[slot := h];
    forall i | 0 <= i < DL_MAX && now[i].used && i != slot
      ensures HandleOk(now[i], next + 1) && now[i].name != h.name && now[i].order < next
    {
      assert HandleOk(hs[i], next);
    }
  }

  lemma EnterRefs(hs: seq<Handle>, owed: multiset<Name>, pending: set<int>, slot: nat, h: Handle)
    requires |hs| == DL_MAX && RefsOk(hs, owed, pending) && slot < DL_MAX && !hs[slot].used
    requires h.used && h.refs == 1 && !Live(hs, h.name)
    ensures RefsOk(hs[slot := h], owed, pending + {slot})
  {
    LiveGrows(hs, hs[slot := h]);
  }

  lemma EnterKeeps(hs: seq<Handle>, offs: seq<nat>, total: nat, next: nat, owed: multiset<Name>, pending: set<int>,
                   slot: nat, h: Handle)
    requires Inv(hs, offs, total, next, owed, pending) && slot < DL_MAX && !hs[slot].used
    requires h.used && HandleOk(h, next + 1) && h.refs == 1 && !Live(hs, h.name) && h.order == next
    ensures Inv(hs[slot := h], offs, total, next + 1, owed, pending + {slot})
  {
    EnterTable(hs, next, slot, h);
    EnterRefs(hs, owed, pending, slot, h);
    LayoutOfFewer(hs, offs, total, pending, pending + {slot});
    SameLayout(hs, hs[slot := h], offs, total, pending + {slot});
  }

  lemma LayoutOfFewer(hs: seq<Handle>, offs: seq<nat>, total: nat, pending: set<int>, more: set<int>)
    requires |hs| == |offs| == DL_MAX && LayoutOk(hs, offs, total, pending) && pending <= more
    ensures LayoutOk(hs, offs, total, more)
  {
  }

  lemma EnterGrounded(hs: seq<Handle>, pending: set<int>, slot: nat, h: Handle)
    requires slot < |hs| && !hs[slot].used && h.tlsOff == 0 && Grounded(hs, pending)
    ensures Grounded(hs[slot := h], pending + {slot})
  {
    SameGrounded(hs, hs[slot := h], pending, pending + {slot});
  }

  lemma EnterRoom(hs: seq<Handle>, pending: set<int>, slot: nat, h: Handle)
    requires |hs| == DL_MAX && slot < DL_MAX && !hs[slot].used
    ensures TotalRoom(hs[slot := h], pending + {slot}) == TotalRoom(hs, pending)
  {
  }

  lemma PlacedTable(hs: seq<Handle>, next: nat, slot: nat, off: nat)
    requires |hs| == DL_MAX && TableOk(hs, next) && slot < DL_MAX
    ensures TableOk(hs[slot := hs[slot].(tlsOff := off)], next)
  {
    var now := hs[slot := hs[slot].(tlsOff := off)];
    forall i | 0 <= i < DL_MAX && now[i].used
      ensures HandleOk(now[i], next)
    {
      assert HandleOk(hs[i], next);
    }
  }

  lemma PlacedRefs(hs: seq<Handle>, owed: multiset<Name>, pending: set<int>, slot: nat, off: nat)
    requires |hs| == DL_MAX && RefsOk(hs, owed, pending) && slot < DL_MAX
    ensures RefsOk(hs[slot := hs[slot].(tlsOff := off)], owed, pending)
  {
    LiveGrows(hs, hs[slot := hs[slot].(tlsOff := off)]);
  }

  lemma PlacedLayout(hs: seq<Handle>, offs: seq<nat>, total: nat, pending: set<int>, slot: nat, off: nat, total': nat)
    requires |hs| == |offs| == DL_MAX && LayoutOk(hs, offs, total, pending) && slot < DL_MAX
    requires Seated(off, hs[slot].tlsAlign) && total <= off && off + hs[slot].tlsMem == total'
    ensures LayoutOk(hs[slot := hs[slot].(tlsOff := off)], offs[slot := off], total', pending - {slot})
  {
  }

  lemma PlacedRoom(hs: seq<Handle>, pending: set<int>, slot: nat, off: nat)
    requires |hs| == DL_MAX && slot < DL_MAX && slot in pending
    ensures TotalRoom(hs[slot := hs[slot].(tlsOff := off)], pending - {slot}) == TotalRoom(hs, pending) + Room(hs[slot])
  {
  }

  lemma NothingToPlace(hs: seq<Handle>, offs: seq<nat>, total: nat, pending: set<int>, slot: nat)
    requires |hs| == |offs| == DL_MAX && LayoutOk(hs, offs, total, pending) && slot < DL_MAX && hs[slot].tlsMem == 0
    ensures LayoutOk(hs, offs, total, pending - {slot})
  {
  }

  lemma NoRoomNeeded(hs: seq<Handle>, pending: set<int>, slot: nat)
    requires |hs| == DL_MAX && slot < DL_MAX && hs[slot].tlsMem == 0
    ensures TotalRoom(hs, pending) == TotalRoom(hs, pending - {slot})
  {
  }

  lemma RoomWithin(hs: seq<Handle>, next: nat, pending: set<int>)
    requires |hs| == DL_MAX && TableOk(hs, next)
    ensures TotalRoom(hs, pending) <= TotalRoom(hs, {}) <= 8 * TLS_MAX
  {
    RoomBound(hs, next, 3);
  }

  /** A load order number may go unused. */
  lemma LaterOrder(hs: seq<Handle>, offs: seq<nat>, total: nat, next: nat, owed: multiset<Name>, pending: set<int>)
    requires Inv(hs, offs, total, next, owed, pending)
    ensures Inv(hs, offs, total, next + 1, owed, pending)
  {
    assert forall i :: 0 <= i < DL_MAX && hs[i].used ==> HandleOk(hs[i], next) && HandleOk(hs[i], next + 1);
  }

  /** A load that returns its module is from then on owed a close. */
  lemma Returned(hs: seq<Handle>, next: nat, owed: multiset<Name>, pending: set<int>, slot: nat)
    requires |hs| == DL_MAX && TableOk(hs, next) && slot < DL_MAX && hs[slot].used && slot !in pending
    requires RefsOk(hs, owed, pending + {slot})
    ensures RefsOk(hs, owed + multiset{hs[slot].name}, pending)
  {
    assert Live(hs, hs[slot].name);
  }

  lemma EnterExtends(was: seq<Handle>, now: seq<Handle>, slot: nat)
    requires |was| == |now| && slot < |was| && !was[slot].used && now == was[slot := now[slot]] && now[slot].refs == 1
    ensures Extends(was, now) && Unmoved(was, now)
    ensures |was| == DL_MAX && now[slot].used ==> FreeCount(now) < FreeCount(was)
  {
  }

  lemma PlacedExtends(was: seq<Handle>, loaded: seq<Handle>, now: seq<Handle>, slot: nat)
    requires |was| == |loaded| == |now| && slot < |was| && !was[slot].used && Extends(was, loaded) && loaded[slot].used
    requires now == loaded[slot := loaded[slot].(tlsOff := now[slot].tlsOff)]
    ensures Extends(was, now) && (Unmoved(was, loaded) ==> Unmoved(was, now))
  {
    assert loaded[slot].refs == 1;
  }

  /** Dropping a module that was not there before. */
  lemma DropExtends(was: seq<Handle>, mid: seq<Handle>, now: seq<Handle>, slot: nat)
    requires |was| == |mid| == |now| && slot < |was| && !was[slot].used && Extends(was, mid)
    requires !now[slot].used && forall k :: 0 <= k < |was| && k != slot ==> Same(mid[k], now[k])
    ensures Extends(was, now)
  {
    forall i | 0 <= i < |was| && i != slot
      ensures was[i].used ==> now[i].used && Same(was[i], now[i])
      ensures !was[i].used && now[i].used ==> now[i].refs == 1
    {
      assert Same(mid[i], now[i]);
      assert was[i].used ==> Same(was[i], mid[i]);
    }
  }

  /** Live modules are untouched. */
  predicate Unmoved(was: seq<Handle>, now: seq<Handle>)
    requires |was| == |now|
  {
    forall i :: 0 <= i < |was| && was[i].used ==> now[i] == was[i]
  }

  lemma ExtendsTrans(a: seq<Handle>, b: seq<Handle>, c: seq<Handle>)
    requires |a| == |b| == |c| && Extends(a, b) && Extends(b, c)
    ensures Extends(a, c)
    ensures Unmoved(a, b) && Unmoved(b, c) ==> Unmoved(a, c)
  {
    forall i | 0 <= i < |a|
      ensures a[i].used ==> c[i].used && Same(a[i], c[i])
      ensures !a[i].used && c[i].used ==> c[i].refs == 1
    {
      assert b[i].used ==> Same(b[i], c[i]);
    }
  }

  lemma ExtendsAt(was: seq<Handle>, now: seq<Handle>, i: nat)
    requires |was| == |now| && Extends(was, now) && i < |was| && was[i].used
    ensures now[i].used && Same(was[i], now[i])
  {
  }

  lemma ExtendsLive(was: seq<Handle>, now: seq<Handle>)
    requires |was| == |now| && Extends(was, now)
    ensures forall n :: Live(was, n) ==> Live(now, n)
    ensures |was| == DL_MAX ==> FreeCount(now) <= FreeCount(was)
  {
    forall i | 0 <= i < |was| && was[i].used
      ensures now[i].used && now[i].name == was[i].name
    {
      assert Same(was[i], now[i]);
    }
    LiveGrows(was, now);
  }

  /** The path a DT_NEEDED name is loaded from. */
  function DepPath(need: Name): Name {
    Cut(LIB + need)
  }

  /** "/lib/" and the name, at most 23 bytes in all. */
  lemma DepPathIs(need: Name)
    ensures |DepPath(need)| == if |need| <= 18 then 5 + |need| else 23
    ensures DepPath(need)[0] as char == '/' && DepPath(need)[1] as char == 'l' && DepPath(need)[2] as char == 'i'
    ensures DepPath(need)[3] as char == 'b' && DepPath(need)[4] as char == '/'
    ensures forall k :: 5 <= k < |DepPath(need)| ==> DepPath(need)[k] == need[k - 5]
  {
  }

  /** A dependency is named, and live. */
  predicate NeedLive(hs: seq<Handle>, need: Option<Name>) {
    need.Some? && need.value != [] && Live(hs, DepPath(need.value))
  }

  /** The first n dependencies are live. */
  predicate NeedsLive(hs: seq<Handle>, needed: seq<Option<Name>>, n: nat)
    requires n <= |needed|
  {
    forall j :: 0 <= j < n ==> NeedLive(hs, needed[j])
  }

  /** Every new module has the mode of the open that brought it in. */
  predicate Modes(was: seq<Handle>, now: seq<Handle>, isGlobal: bool)
    requires |was| == |now|
  {
    forall i :: 0 <= i < |was| && !was[i].used && now[i].used ==> now[i].isGlobal == isGlobal
  }

  lemma ModesTrans(a: seq<Handle>, b: seq<Handle>, c: seq<Handle>, isGlobal: bool)
    requires |a| == |b| == |c| && Modes(a, b, isGlobal) && Modes(b, c, isGlobal) && Extends(b, c)
    ensures Modes(a, c, isGlobal)
  {
    forall i | 0 <= i < |a| && !a[i].used && c[i].used
      ensures c[i].isGlobal == isGlobal
    {
      assert b[i].used ==> Same(b[i], c[i]);
    }
  }

  lemma ModesOfFewer(was: seq<Handle>, mid: seq<Handle>, now: seq<Handle>, isGlobal: bool)
    requires |was| == |mid| == |now| && Modes(was, mid, isGlobal)
    requires forall i :: 0 <= i < |was| && now[i].used ==> Same(mid[i], now[i])
    ensures Modes(was, now, isGlobal)
  {
    forall i | 0 <= i < |was| && !was[i].used && now[i].used
      ensures now[i].isGlobal == isGlobal
    {
      assert Same(mid[i], now[i]);
    }
  }

  // ----- When an open succeeds ------------------------------------------------------------

  /** The names of the live modules. */
  function Names(hs: seq<Handle>): set<Name> {
    set i | 0 <= i < |hs| && hs[i].used :: hs[i].name
  }

  lemma NamesAreLive(hs: seq<Handle>)
    ensures forall n :: n in Names(hs) <==> Live(hs, n)
  {
  }

  /** The file is there, can be loaded, and names only dependencies in names. */
  predicate Supplied(disk: Disk, names: set<Name>, p: Name) {
    && p in disk && Loadable(disk[p])
    && forall j :: 0 <= j < NeedCount(disk[p].needed) ==> InNames(disk[p].needed[j], names)
  }

  predicate InNames(need: Option<Name>, names: set<Name>) {
    need.Some? && need.value != [] && DepPath(need.value) in names
  }

  /** Everything in names is live or can be supplied, and the free slots are enough for
      what is not live. */
  predicate Suffices(disk: Disk, names: set<Name>, hs: seq<Handle>)
    requires |hs| == DL_MAX
  {
    (forall p :: p in names && !Live(hs, p) ==> Supplied(disk, names, p)) && |names - Names(hs)| <= FreeCount(hs)
  }

  /** Some set of files that names the path answers for itself and fits. */
  ghost predicate CanOpen(disk: Disk, hs: seq<Handle>, path: Name)
    requires |hs| == DL_MAX
  {
    exists names: set<Name> :: path in names && Suffices(disk, names, hs)
  }

  lemma SlotLeft(disk: Disk, names: set<Name>, hs: seq<Handle>, path: Name)
    requires |hs| == DL_MAX && Suffices(disk, names, hs) && path in names && !Live(hs, path)
    ensures Supplied(disk, names, path)
    ensures exists i :: 0 <= i < DL_MAX && !hs[i].used
  {
    NamesAreLive(hs);
    assert path in names - Names(hs);
    assert FreeCount(hs) > 0;
  }

  /** A new module uses up one slot and one name. */
  lemma EnterSuffices(disk: Disk, names: set<Name>, hs: seq<Handle>, now: seq<Handle>, slot: nat)
    requires |hs| == |now| == DL_MAX && Suffices(disk, names, hs) && slot < DL_MAX && !hs[slot].used
    requires now == hs[slot := now[slot]] && now[slot].used && now[slot].name in names && !Live(hs, now[slot].name)
    ensures Suffices(disk, names, now)
  {
    hide Names, FreeCount, Live, Supplied;
    EnterNames(hs, now, slot);
    var rest, left := names - Names(hs), names - Names(now);
    NamesAreLive(hs);
    NamesAreLive(now);
    assert now[slot].name in rest && left == rest - {now[slot].name};
  }

  lemma EnterNames(hs: seq<Handle>, now: seq<Handle>, slot: nat)
    requires |hs| == |now| == DL_MAX && slot < DL_MAX && !hs[slot].used && now == hs[slot := now[slot]]
    requires now[slot].used
    ensures Names(now) == Names(hs) + {now[slot].name} && FreeCount(now) == FreeCount(hs) - 1
  {
    forall n
      ensures n in Names(now) <==> n in Names(hs) || n == now[slot].name
    {
      NamesAreLive(hs);
      NamesAreLive(now);
      LiveWith(hs, now, slot, n);
    }
  }

  lemma LiveWith(hs: seq<Handle>, now: seq<Handle>, slot: nat, n: Name)
    requires |hs| == |now| && slot < |hs| && !hs[slot].used && now == hs[slot := now[slot]] && now[slot].used
    ensures Live(now, n) <==> Live(hs, n) || n == now[slot].name
  {
    if Live(hs, n) {
      var i :| 0 <= i < |hs| && hs[i].used && hs[i].name == n;
      assert now[i].used && now[i].name == n;
    }
  }

  /** What counts is who is live. */
  lemma SufficesSame(disk: Disk, names: set<Name>, hs: seq<Handle>, now: seq<Handle>)
    requires |hs| == |now| == DL_MAX && Suffices(disk, names, hs)
    requires forall i :: 0 <= i < DL_MAX ==> now[i].used == hs[i].used && (hs[i].used ==> now[i].name == hs[i].name)
    ensures Suffices(disk, names, now)
  {
    assert Names(now) == Names(hs);
    NamesAreLive(hs);
    NamesAreLive(now);
  }

  /** The new modules hold files whose dependencies are live. */
  predicate Settled(disk: Disk, was: seq<Handle>, now: seq<Handle>)
    requires |was| == |now|
  {
    forall i :: 0 <= i < |was| && !was[i].used && now[i].used ==> Complete(disk, now, now[i].name)
  }

  predicate Complete(disk: Disk, hs: seq<Handle>, p: Name) {
    p in disk && Loadable(disk[p]) && NeedsLive(hs, disk[p].needed, NeedCount(disk[p].needed))
  }

  lemma SettledTrans(disk: Disk, a: seq<Handle>, b: seq<Handle>, c: seq<Handle>)
    requires |a| == |b| == |c| && Settled(disk, a, b) && Settled(disk, b, c) && Extends(b, c)
    ensures Settled(disk, a, c)
  {
    hide Loadable, NeedCount, Live, DepPath;
    ExtendsLive(b, c);
    forall i | 0 <= i < |a| && !a[i].used && c[i].used
      ensures Complete(disk, c, c[i].name)
    {
      if b[i].used { assert Same(b[i], c[i]) && Complete(disk, b, b[i].name); }
    }
  }

  lemma SettledSame(disk: Disk, was: seq<Handle>, mid: seq<Handle>, now: seq<Handle>)
    requires |was| == |mid| == |now| && Settled(disk, was, mid)
    requires forall i :: 0 <= i < |was| ==> now[i].used == mid[i].used && now[i].name == mid[i].name
    ensures Settled(disk, was, now)
  {
    hide Loadable, NeedCount, Live, DepPath;
    LiveGrows(mid, now);
    forall i | 0 <= i < |was| && !was[i].used && now[i].used
      ensures Complete(disk, now, now[i].name)
    {
      assert Complete(disk, mid, mid[i].name);
    }
  }

  /** The names live after such an open are the set it takes. */
  lemma SettledSuffices(disk: Disk, was: seq<Handle>, now: seq<Handle>, next: nat)
    requires |was| == |now| == DL_MAX && Settled(disk, was, now) && Extends(was, now) && TableOk(now, next)
    ensures Suffices(disk, Names(now), was)
  {
    hide Loadable, NeedCount, DepPath, TableOk;
    NamesAreLive(was);
    NamesAreLive(now);
    forall p | p in Names(now) && !Live(was, p)
      ensures Supplied(disk, Names(now), p)
    {
      var i :| 0 <= i < DL_MAX && now[i].used && now[i].name == p;
      if was[i].used { assert false; }
      assert Complete(disk, now, p);
    }
    NewNames(was, now, DL_MAX);
  }

  /** How many of the first n modules are new. */
  function NewCount(was: seq<Handle>, now: seq<Handle>, n: nat): nat
    requires n <= |was| == |now|
  {
    if n == 0 then 0 else NewCount(was, now, n - 1) + if !was[n - 1].used && now[n - 1].used then 1 else 0
  }

  lemma {:induction false} NewNames(was: seq<Handle>, now: seq<Handle>, n: nat)
    requires n <= |was| == |now| && Extends(was, now)
    ensures |Names(now[..n]) - Names(was)| <= NewCount(was, now, n)
    ensures n == |was| == DL_MAX ==> NewCount(was, now, n) <= FreeCount(was) && now[..n] == now
  {
    if n > 0 {
      NewNames(was, now, n - 1);
      var more := if !was[n - 1].used && now[n - 1].used then {now[n - 1].name} else {};
      NamesGrow(was, now, n);
      SubsetSize(Names(now[..n]) - Names(was), Names(now[..n - 1]) - Names(was) + more);
      if n == DL_MAX == |was| { FewNew(was, now); }
    } else {
      assert now[..0] == [];
      assert Names(now[..0]) == {};
    }
  }

  lemma NamesGrow(was: seq<Handle>, now: seq<Handle>, n: nat)
    requires 0 < n <= |was| == |now| && Extends(was, now)
    ensures Names(now[..n]) - Names(was) <=
            Names(now[..n - 1]) - Names(was) + if !was[n - 1].used && now[n - 1].used then {now[n - 1].name} else {}
  {
    forall p | p in Names(now[..n]) && p !in Names(was)
      ensures p in Names(now[..n - 1]) || (!was[n - 1].used && now[n - 1].used && p == now[n - 1].name)
    {
      var i :| 0 <= i < n && now[i].used && now[i].name == p;
      if was[i].used { assert false; }
      if i < n - 1 { assert now[..n - 1][i] == now[i]; }
    }
  }

  lemma FewNew(was: seq<Handle>, now: seq<Handle>)
    requires |was| == |now| == DL_MAX
    ensures NewCount(was, now, DL_MAX) <= FreeCount(was)
  {
    assert NewCount(was, now, 2) <= (if was[0].used then 0 else 1) + if was[1].used then 0 else 1 by {
      assert NewCount(was, now, 1) <= if was[0].used then 0 else 1;
    }
    assert NewCount(was, now, 3) <= NewCount(was, now, 2) + if was[2].used then 0 else 1;
  }

  /** All dependencies are in names. */
  predicate AllIn(needed: seq<Option<Name>>, names: set<Name>) {
    forall j :: 0 <= j < NeedCount(needed) ==> InNames(needed[j], names)
  }

  lemma NeedsKept(was: seq<Handle>, now: seq<Handle>, needed: seq<Option<Name>>, j: nat)
    requires |was| == |now| && Extends(was, now) && j < |needed|
    requires NeedsLive(was, needed, j) && NeedLive(now, needed[j])
    ensures NeedsLive(now, needed, j + 1)
  {
    hide Live, DepPath, Extends;
    ExtendsLive(was, now);
  }

  lemma NothingNew(hs: seq<Handle>, isGlobal: bool)
    ensures Modes(hs, hs, isGlobal) && Extends(hs, hs)
  {
  }

  lemma NothingYet(disk: Disk, hs: seq<Handle>, isGlobal: bool)
    ensures Modes(hs, hs, isGlobal) && Settled(disk, hs, hs) && Extends(hs, hs)
  {
  }

  // The facts about a whole open, step by step.

  lemma KeptOpen(disk: Disk, names: set<Name>, isGlobal: bool, was: seq<Handle>, now: seq<Handle>)
    requires |was| == |now| == DL_MAX
    requires forall i :: 0 <= i < DL_MAX ==> now[i].used == was[i].used && now[i].name == was[i].name
    ensures Settled(disk, was, now) && Modes(was, now, isGlobal)
    ensures Suffices(disk, names, was) ==> Suffices(disk, names, now)
  {
    hide Suffices;
    if Suffices(disk, names, was) { SufficesSame(disk, names, was, now); }
  }

  lemma EnteredOpen(disk: Disk, names: set<Name>, was: seq<Handle>, now: seq<Handle>, slot: nat, isGlobal: bool)
    requires |was| == |now| == DL_MAX && slot < DL_MAX && !was[slot].used && now == was[slot := now[slot]]
    requires now[slot].used && now[slot].isGlobal == isGlobal && !Live(was, now[slot].name)
    ensures Modes(was, now, isGlobal)
    ensures now[slot].name in names && Suffices(disk, names, was) ==>
              Suffices(disk, names, now) && Supplied(disk, names, now[slot].name)
  {
    hide Suffices, Live;
    if now[slot].name in names && Suffices(disk, names, was) {
      SlotLeft(disk, names, was, now[slot].name);
      EnterSuffices(disk, names, was, now, slot);
    }
  }

  lemma PlacedOpen(disk: Disk, names: set<Name>, was: seq<Handle>, entered: seq<Handle>, loaded: seq<Handle>,
                   now: seq<Handle>, slot: nat, isGlobal: bool)
    requires |was| == |entered| == |loaded| == |now| == DL_MAX && slot < DL_MAX && entered == was[slot := entered[slot]]
    requires entered[slot].used && loaded[slot].used && loaded[slot].name == entered[slot].name
    requires now == loaded[slot := loaded[slot].(tlsOff := now[slot].tlsOff)]
    requires Modes(was, loaded, isGlobal) && Settled(disk, entered, loaded)
    requires Complete(disk, loaded, entered[slot].name)
    ensures Modes(was, now, isGlobal) && Settled(disk, was, now)
    ensures Suffices(disk, names, loaded) ==> Suffices(disk, names, now)
  {
    hide Suffices, Complete;
    assert forall i :: 0 <= i < DL_MAX ==> Same(loaded[i], now[i]);
    ModesOfFewer(was, loaded, now, isGlobal);
    assert Settled(disk, was, loaded);
    SettledSame(disk, was, loaded, now);
    if Suffices(disk, names, loaded) { SufficesSame(disk, names, loaded, now); }
  }

  lemma Opened(disk: Disk, was: seq<Handle>, now: seq<Handle>, next: nat, path: Name, h: nat)
    requires |was| == |now| == DL_MAX && Settled(disk, was, now) && TableOk(now, next)
    requires Extends(was, now) || Live(was, path)
    requires h < DL_MAX && now[h].used && now[h].name == path
    ensures CanOpen(disk, was, path)
  {
    hide Settled, TableOk, Extends, Supplied;
    NamesAreLive(now);
    NamesAreLive(was);
    if Live(was, path) {
      assert {path} - Names(was) == {};
      assert Suffices(disk, {path}, was);
    } else {
      SettledSuffices(disk, was, now, next);
      assert path in Names(now);
    }
  }

  lemma SubsetSize(a: set<Name>, b: set<Name>)
    requires a <= b
    ensures |a| <= |b|
  {
    assert b == a + (b - a);
  }

  function NeedCount(needed: seq<Option<Name>>): (n: nat)
    ensures n <= |needed|
  {
    if |needed| > NEED_MAX then NEED_MAX else |needed|
  }

  class Loader {
    const handles: array<Handle>
    const tlsModOff: array<nat>
    var tlsTotal: nat
    var dlSeq: nat
    ghost var owed: multiset<Name>
    // How many mappings and relocations have failed so far.
    ghost var faults: nat

    ghost predicate Shape() {
      handles.Length == DL_MAX == tlsModOff.Length
    }

    ghost predicate Valid(pending: set<int>)
      reads this, handles, tlsModOff
    {
      Shape() && Inv(handles[..], tlsModOff[..], tlsTotal, dlSeq, owed, pending)
    }

    ghost predicate Tight(pending: set<int>)
      requires Shape()
      reads this, handles
    {
      tlsTotal <= TotalRoom(handles[..], pending) && Grounded(handles[..], pending)
    }

    constructor ()
      ensures Valid({}) && Tight({}) && tlsTotal == 0 && dlSeq == 0 && owed == multiset{}
      ensures fresh(handles) && fresh(tlsModOff)
      ensures forall i :: 0 <= i < DL_MAX ==> !handles[i].used
    {
      handles := new Handle[DL_MAX](_ => Empty);
      tlsModOff := new nat[DL_MAX](_ => 0);
      tlsTotal, dlSeq, owed, faults := 0, 0, multiset{}, 0;
    }

    /** A load that found nothing to do, or gave up before it began. */
    lemma StillTight(pending: set<int>)
      requires Valid(pending) && Tight(pending)
      ensures Tight({})
    {
      RoomWithin(handles[..], dlSeq, pending);
      GroundedAlone(handles[..], pending);
    }

    /** Places module i at the first aligned offset from used on. */
    method PlaceAt(i: nat, used: nat) returns (total: nat)
      requires Shape() && i < DL_MAX && HasTls(handles[i])
      requires 0 < handles[i].tlsAlign <= TLS_MAX && handles[i].tlsMem <= TLS_MAX
      requires used <= 8 * TLS_MAX
      modifies handles, tlsModOff
      ensures handles[..] == old(handles[..])[i := old(handles[i]).(tlsOff := handles[i].tlsOff)]
      ensures tlsModOff[..] == old(tlsModOff[..])[i := handles[i].tlsOff]
      ensures Seated(handles[i].tlsOff, handles[i].tlsAlign) && (used == 0 ==> handles[i].tlsOff == 0)
      ensures used <= handles[i].tlsOff < used + handles[i].tlsAlign && handles[i].tlsOff + handles[i].tlsMem == total
    {
      var al := handles[i].tlsAlign;
      PlaceAbove(used, al);
      var off := Place(used, al);
      handles[i] := handles[i].(tlsOff := off);
      tlsModOff[i] := off;
      Small(off + handles[i].tlsMem, U32);
      total := (off + handles[i].tlsMem) % U32;
    }

    /** tls_layout_rebuild: every module that has TLS is placed anew, in slot order. */
    method Rebuild()
      requires Shape() && TableOk(handles[..], dlSeq)
      modifies this`tlsTotal, handles, tlsModOff
      ensures LayoutOk(handles[..], tlsModOff[..], tlsTotal, {}) && Tight({})
      ensures forall i :: 0 <= i < DL_MAX ==> Same(old(handles[..])[i], handles[..][i])
    {
      hide TableOk, LayoutOk, TotalRoom, PlacedUpTo, GroundedUpTo, Grounded;
      var used: nat := 0;
      ghost var was := handles[..];
      NothingPlaced(was, tlsModOff[..]);
      for i := 0 to DL_MAX
        invariant used <= RoomUpTo(was, i)
        invariant forall k :: 0 <= k < DL_MAX ==> Same(was[k], handles[..][k])
        invariant PlacedUpTo(handles[..], tlsModOff[..], used, i) && GroundedUpTo(handles[..], used, i)
      {
        assert Same(was[i], handles[..][i]);
        RoomBound(was, dlSeq, i);
        if handles[i].used && handles[i].tlsMem != 0 {
          TableEntry(was, dlSeq, i);
          ghost var hs, offs, before := handles[..], tlsModOff[..], used;
          used := PlaceAt(i, used);
          PlaceNext(hs, offs, before, i, handles[i].tlsOff, used);
          GroundNext(hs, before, i, handles[i].tlsOff, used);
        } else {
          PlaceSkip(handles[..], tlsModOff[..], used, i);
        }
      }
      tlsTotal := used;
      AllPlaced(handles[..], tlsModOff[..], used);
      RoomBound(was, dlSeq, 0);
      RoomSame(was, handles[..]);
    }

    /** The live module of this name, or -1. */
    method Find(name: Name) returns (h: int)
      requires Shape()
      ensures h >= 0 ==> h < DL_MAX && handles[h].used && handles[h].name == name
      ensures h < 0 <==> !Live(handles[..], name)
    {
      for i := 0 to DL_MAX
        invariant forall k :: 0 <= k < i ==> !(handles[k].used && handles[k].name == name)
      {
        if handles[i].used && handles[i].name == name {
          assert handles[..][i].used && handles[..][i].name == name;
          return i;
        }
      }
      return -1;
    }

    /** A mapping or a relocation, which may fail. */
    method Attempt() returns (done: bool)
      modifies this`faults
      ensures faults == old(faults) + if done then 0 else 1
    {
      done := *;
      if !done { faults := faults + 1; }
    }

    method FreeSlot() returns (h: int)
      requires Shape()
      ensures h >= 0 ==> h < DL_MAX && !handles[h].used
      ensures h < 0 ==> forall i :: 0 <= i < DL_MAX ==> handles[i].used
    {
      for i := 0 to DL_MAX
        invariant forall k :: 0 <= k < i ==> handles[k].used
      {
        if !handles[i].used { return i; }
      }
      return -1;
    }

    /** One more reference to a live module. */
    method Retain(h: nat, ghost pending: set<int>)
      requires Valid(pending) && h < DL_MAX && handles[h].used
      modifies this`owed, handles
      ensures Valid(pending)
      ensures handles[..] == old(handles[..])[h := old(handles[h]).(refs := old(handles[h]).refs + 1)]
      ensures owed == old(owed) + multiset{old(handles[h]).name}
      ensures old(Tight(pending)) ==> Tight(pending)
    {
      hide TableOk, RefsOk, LayoutOk, TotalRoom, Grounded, Live;
      RetainRoom(handles[..], pending, h);
      RetainGrounded(handles[..], pending, h);
      RetainKeeps(handles[..], tlsModOff[..], tlsTotal, dlSeq, owed, pending, h);
      handles[h] := handles[h].(refs := handles[h].refs + 1);
      owed := owed + multiset{handles[h].name};
    }

    /** A new module in a free slot, its dependencies still to be loaded. */
    method Enter(slot: nat, path: Name, isGlobal: bool, img: Image, ghost pending: set<int>)
      requires Valid(pending) && Tight(pending) && slot < DL_MAX && !handles[slot].used
      requires |path| <= NAME_MAX && !Live(handles[..], path) && ImageFits(img) && Accepted(img.table)
      requires |img.tlsInit| <= img.tlsMem
      modifies this`dlSeq, handles
      ensures Valid(pending + {slot}) && Tight(pending + {slot}) && dlSeq == old(dlSeq) + 1
      ensures handles[..] == old(handles[..])[slot := handles[slot]]
      ensures Holding(handles[slot], path, img, isGlobal, old(dlSeq))
    {
      hide TableOk, RefsOk, LayoutOk, TotalRoom, Grounded, Live, Accepted;
      var h := Handle(true, 1, Cut(path), dlSeq, isGlobal, img.tlsMem, if img.tlsAlign != 0 then img.tlsAlign else 1,
                      img.tlsInit, 0, img.table);
      EnterKeeps(handles[..], tlsModOff[..], tlsTotal, dlSeq, owed, pending, slot, h);
      EnterRoom(handles[..], pending, slot, h);
      EnterGrounded(handles[..], pending, slot, h);
      handles[slot] := h;
      dlSeq := dlSeq + 1;
    }

    /** Assigns the TLS range of a module whose dependencies are loaded. */
    method PlaceTls(slot: nat, ghost pending: set<int>)
      requires Valid(pending) && Tight(pending) && slot < DL_MAX && handles[slot].used && slot in pending
      modifies this`tlsTotal, handles, tlsModOff
      ensures Shape() && TableOk(handles[..], dlSeq) && RefsOk(handles[..], owed, pending)
      ensures LayoutOk(handles[..], tlsModOff[..], tlsTotal, pending - {slot}) && Tight(pending - {slot})
      ensures handles[..] == old(handles[..])[slot := old(handles[slot]).(tlsOff := handles[slot].tlsOff)]
    {
      ghost var hs, offs, total := handles[..], tlsModOff[..], tlsTotal;
      TableEntry(hs, dlSeq, slot);
      hide TableOk, RefsOk, LayoutOk, TotalRoom, Grounded;
      RoomWithin(hs, dlSeq, pending);
      if handles[slot].tlsMem != 0 {
        tlsTotal := PlaceAt(slot, tlsTotal);
        PlacedTable(hs, dlSeq, slot, handles[slot].tlsOff);
        PlacedRefs(hs, owed, pending, slot, handles[slot].tlsOff);
        PlacedLayout(hs, offs, total, pending, slot, handles[slot].tlsOff, tlsTotal);
        PlacedRoom(hs, pending, slot, handles[slot].tlsOff);
        PlacedGrounded(hs, total, pending, slot, handles[slot].tlsOff);
      } else {
        NothingToPlace(hs, offs, total, pending, slot);
        NoRoomNeeded(hs, pending, slot);
        SameGrounded(hs, hs, pending, pending - {slot});
        assert hs == hs[slot := hs[slot].(tlsOff := hs[slot].tlsOff)];
      }
    }

    /** The common failure exit: the slot is freed and the layout rebuilt. */
    method Abandon(slot: nat, ghost pending: set<int>)
      requires Shape() && TableOk(handles[..], dlSeq) && RefsOk(handles[..], owed, pending)
      requires slot < DL_MAX && slot in pending && handles[slot].used && handles[slot].refs == 1
      requires forall i :: i in pending ==> 0 <= i < DL_MAX && handles[i].used
      modifies this`tlsTotal, handles, tlsModOff
      ensures Valid(pending - {slot}) && Tight({})
      ensures !handles[slot].used
      ensures forall k :: 0 <= k < DL_MAX && k != slot ==> Same(old(handles[..])[k], handles[..][k])
    {
      hide TableOk, RefsOk, LayoutOk, TotalRoom, Grounded;
      ghost var was := handles[..];
      FreedTable(was, dlSeq, slot, was[slot].(used := false));
      handles[slot] := handles[slot].(used := false);
      tlsModOff[slot] := 0;
      ghost var mid := handles[..];
      assert mid == was[slot := was[slot].(used := false)];
      Rebuild();
      SameTable(mid, handles[..], dlSeq);
      Dropped(was, handles[..], slot, owed, pending);
      LayoutOfFewer(handles[..], tlsModOff[..], tlsTotal, {}, pending - {slot});
    }

    /** A top-level dl_open_mode: where no mapping and no relocation fails it succeeds
        exactly when the path is live, or the files it takes can be loaded and there are
        slots for all of them. */
    method Open(disk: Disk, path: Name, isGlobal: bool) returns (h: int)
      requires Valid({}) && Tight({}) && DiskFits(disk) && |path| <= NAME_MAX
      modifies this, handles, tlsModOff
      ensures Valid({}) && Tight({})
      ensures h >= 0 <==> old(CanOpen(disk, handles[..], path)) && faults == old(faults)
      ensures h >= 0 ==> h < DL_MAX && handles[h].used && handles[h].name == path
      ensures Modes(old(handles[..]), handles[..], isGlobal)
    {
      hide TableOk, RefsOk, LayoutOk, TotalRoom, Grounded, FreeCount, Suffices, Live, Modes, Extends;
      ghost var was := handles[..];
      ghost var names: set<Name> := {};
      if CanOpen(disk, was, path) { names :| path in names && Suffices(disk, names, was); }
      h := OpenMode(disk, path, isGlobal, {}, names);
      if h >= 0 { Opened(disk, was, handles[..], dlSeq, path, h); }
    }

    /** dl_open_mode on a path.  Nested loads end because each holds a slot. */
    method OpenMode(disk: Disk, path: Name, isGlobal: bool, ghost pending: set<int>, ghost names: set<Name>)
      returns (h: int)
      requires Valid(pending) && Tight(pending) && DiskFits(disk) && |path| <= NAME_MAX
      modifies this, handles, tlsModOff
      ensures Valid(pending) && (if h >= 0 then Tight(pending) else Tight({}))
      ensures h >= 0 ==> h < DL_MAX && handles[h].used && handles[h].name == path
      // Opening a live module again returns it with one more reference.
      ensures old(Live(handles[..], path)) ==>
        && h >= 0 && handles[..] == old(handles[..])[h := handles[h]]
           && handles[h] == old(handles[..])[h].(refs := old(handles[..])[h].refs + 1)
        && tlsModOff[..] == old(tlsModOff[..]) && tlsTotal == old(tlsTotal) && dlSeq == old(dlSeq)
        && owed == old(owed) + multiset{path}
      // Otherwise it is loaded, with its dependencies, or nothing live is lost.
      ensures !old(Live(handles[..], path)) ==> Extends(old(handles[..]), handles[..])
      ensures !old(Live(handles[..], path)) && h >= 0 ==>
        && !old(handles[..])[h].used && Unmoved(old(handles[..]), handles[..]) && path in disk && Loadable(disk[path])
        && Holding(handles[h], path, disk[path], isGlobal, old(dlSeq))
        && NeedsLive(handles[..], disk[path].needed, NeedCount(disk[path].needed))
      // Every module it brings in has the mode of this open, and its dependencies.
      ensures Modes(old(handles[..]), handles[..], isGlobal)
      ensures h >= 0 ==> Settled(disk, old(handles[..]), handles[..]) && faults == old(faults)
      // It fails only where some mapping or relocation does, or names does not suffice.
      ensures path in names && Suffices(disk, names, old(handles[..])) ==>
              if h >= 0 then Suffices(disk, names, handles[..]) else faults > old(faults)
      decreases FreeCount(handles[..]), 2
    {
      hide TableOk, RefsOk, LayoutOk, TotalRoom, Grounded, Accepted, Settled, Suffices, Modes, Live, NeedsLive,
           NeedCount, FreeCount, Extends, Unmoved;
      ghost var was := handles[..];
      h := Find(path);
      if h >= 0 {
        Retain(h, pending);
        KeptOpen(disk, names, isGlobal, was, handles[..]);
        return;
      }
      StillTight(pending);
      if path in names && Suffices(disk, names, was) { SlotLeft(disk, names, was, path); }
      NothingNew(was, isGlobal);
      if path !in disk { return -1; }
      var img := disk[path];
      if !img.headersOk || |img.tlsInit| > img.tlsMem { return -1; }
      var slot := FreeSlot();
      if slot < 0 { return -1; }
      var mapped := Attempt();
      if !mapped { return -1; }
      var initMapped := true;
      if |img.tlsInit| > 0 { initMapped := Attempt(); }
      if !initMapped || !img.dynamicOk || !Accepted(img.table) || |img.table.buckets| > NBUCKET_MAX {
        LaterOrder(handles[..], tlsModOff[..], tlsTotal, dlSeq, owed, pending);
        dlSeq := dlSeq + 1;
        return -1;
      }
      h := Load(disk, path, isGlobal, slot, img, pending, names);
    }

    /** dl_open_mode once the file has been accepted and a slot found. */
    method Load(disk: Disk, path: Name, isGlobal: bool, slot: nat, img: Image,
                ghost pending: set<int>, ghost names: set<Name>)
      returns (h: int)
      requires Valid(pending) && Tight(pending) && DiskFits(disk) && |path| <= NAME_MAX && !Live(handles[..], path)
      requires slot < DL_MAX && !handles[slot].used && path in disk && img == disk[path]
      requires Loadable(img)
      modifies this, handles, tlsModOff
      ensures Valid(pending) && (if h >= 0 then Tight(pending) else Tight({}))
      ensures Extends(old(handles[..]), handles[..])
      ensures h >= 0 ==>
        && h == slot && Holding(handles[h], path, img, isGlobal, old(dlSeq)) && Unmoved(old(handles[..]), handles[..])
        && NeedsLive(handles[..], img.needed, NeedCount(img.needed))
      ensures Modes(old(handles[..]), handles[..], isGlobal)
      ensures h >= 0 ==> Settled(disk, old(handles[..]), handles[..]) && faults == old(faults)
      ensures path in names && Suffices(disk, names, old(handles[..])) ==>
              if h >= 0 then Suffices(disk, names, handles[..]) else faults > old(faults)
      decreases FreeCount(handles[..]), 1
    {
      hide TableOk, RefsOk, LayoutOk, TotalRoom, Grounded, Live, DepPath, FreeCount, Suffices, Modes, Settled, Accepted,
           Extends;
      ghost var was := handles[..];
      Enter(slot, path, isGlobal, img, pending);
      ghost var entered := handles[..];
      EnterExtends(was, entered, slot);
      EnteredOpen(disk, names, was, entered, slot, isGlobal);
      var ok := LoadNeeded(disk, img.needed, path, isGlobal, slot, pending + {slot}, names);
      ghost var loaded := handles[..];
      ExtendsTrans(was, entered, loaded);
      ModesTrans(was, entered, loaded, isGlobal);
      ExtendsAt(entered, loaded, slot);
      if ok {
        PlaceTls(slot, pending + {slot});
        assert pending + {slot} - {slot} == pending;
        PlacedExtends(was, loaded, handles[..], slot);
        LiveGrows(loaded, handles[..]);
        PlacedOpen(disk, names, was, entered, loaded, handles[..], slot, isGlobal);
        var relocated := Attempt();
        if relocated {
          Returned(handles[..], dlSeq, owed, pending, slot);
          owed := owed + multiset{path};
          return slot;
        }
      }
      ghost var last := handles[..];
      Abandon(slot, pending + {slot});
      assert pending + {slot} - {slot} == pending;
      DropExtends(was, last, handles[..], slot);
      ModesOfFewer(was, last, handles[..], isGlobal);
      return -1;
    }

    /** The DT_NEEDED loop of dl_open_mode. */
    method LoadNeeded(disk: Disk, needed: seq<Option<Name>>, path: Name, isGlobal: bool, slot: nat,
                      ghost pending: set<int>, ghost names: set<Name>)
      returns (ok: bool)
      requires Valid(pending) && Tight(pending) && DiskFits(disk)
      requires slot < DL_MAX && handles[slot].used && handles[slot].name == path
      modifies this, handles, tlsModOff
      ensures Valid(pending) && (ok ==> Tight(pending))
      ensures Extends(old(handles[..]), handles[..])
      ensures ok ==> Unmoved(old(handles[..]), handles[..]) && NeedsLive(handles[..], needed, NeedCount(needed))
      ensures Modes(old(handles[..]), handles[..], isGlobal)
      ensures ok ==> Settled(disk, old(handles[..]), handles[..]) && faults == old(faults)
      ensures AllIn(needed, names) && Suffices(disk, names, old(handles[..])) ==>
              if ok then Suffices(disk, names, handles[..]) else faults > old(faults)
      decreases FreeCount(handles[..]), 4
    {
      hide TableOk, RefsOk, LayoutOk, TotalRoom, Live, FreeCount, DepPath, Suffices, Modes, Settled, Grounded, NeedLive;
      ghost var was := handles[..];
      NothingYet(disk, was, isGlobal);
      for j := 0 to NeedCount(needed)
        invariant Valid(pending) && Tight(pending) && faults == old(faults)
        invariant Extends(was, handles[..]) && Unmoved(was, handles[..])
        invariant NeedsLive(handles[..], needed, j)
        invariant Modes(was, handles[..], isGlobal) && Settled(disk, was, handles[..])
        invariant AllIn(needed, names) && Suffices(disk, names, was) ==> Suffices(disk, names, handles[..])
      {
        ghost var now := handles[..];
        ExtendsLive(was, now);
        assert now[slot] == was[slot];
        ok := LoadNeed(disk, needed[j], path, isGlobal, slot, pending, names);
        ExtendsTrans(was, now, handles[..]);
        ModesTrans(was, now, handles[..], isGlobal);
        if !ok { return; }
        NeedsKept(now, handles[..], needed, j);
        SettledTrans(disk, was, now, handles[..]);
      }
      return true;
    }

    /** One turn of it: a name already loaded, this module's own included, is skipped. */
    method LoadNeed(disk: Disk, need: Option<Name>, path: Name, isGlobal: bool, slot: nat,
                    ghost pending: set<int>, ghost names: set<Name>)
      returns (ok: bool)
      requires Valid(pending) && Tight(pending) && DiskFits(disk)
      requires slot < DL_MAX && handles[slot].used && handles[slot].name == path
      modifies this, handles, tlsModOff
      ensures Valid(pending) && (ok ==> Tight(pending))
      ensures Extends(old(handles[..]), handles[..])
      ensures ok ==> Unmoved(old(handles[..]), handles[..]) && NeedLive(handles[..], need)
      ensures Modes(old(handles[..]), handles[..], isGlobal)
      ensures ok ==> Settled(disk, old(handles[..]), handles[..]) && faults == old(faults)
      ensures InNames(need, names) && Suffices(disk, names, old(handles[..])) ==>
              if ok then Suffices(disk, names, handles[..]) else faults > old(faults)
      decreases FreeCount(handles[..]), 3
    {
      hide TableOk, RefsOk, LayoutOk, TotalRoom, FreeCount, Suffices, Complete;
      if need.None? || need.value == [] { return false; }
      var fpath := DepPath(need.value);
      if fpath == path {
        assert handles[..][slot].used && handles[..][slot].name == fpath;
        return true;
      }
      var dup := Find(fpath);
      if dup >= 0 {
        assert handles[..][dup].used && handles[..][dup].name == fpath;
        return true;
      }
      var h := OpenMode(disk, fpath, isGlobal, pending, names);
      ok := h >= 0;
      if ok { assert handles[..][h].used && handles[..][h].name == fpath; }
    }

    /** dl_close.  h is the handle's index, or anything else for a bad pointer. */
    method Close(h: int) returns (r: int)
      requires Valid({}) && Tight({})
      modifies this`tlsTotal, this`owed, handles, tlsModOff
      ensures Valid({}) && Tight({})
      ensures r == if 0 <= h < DL_MAX && old(handles[..])[h].used then 0 else -1
      ensures r < 0 ==> handles[..] == old(handles[..]) && owed == old(owed) && tlsTotal == old(tlsTotal)
      // One open fewer is owed; the module goes exactly when that was the last.
      ensures r == 0 ==>
        && owed == old(owed) - multiset{old(handles[..])[h].name}
        && (handles[h].used <==> old(handles[..])[h].refs > 1)
        && (handles[h].used ==> handles[..] == old(handles[..])[h := handles[h]] && tlsTotal == old(tlsTotal)
                                && handles[h] == old(handles[..])[h].(refs := old(handles[..])[h].refs - 1))
        && forall k :: 0 <= k < DL_MAX && k != h ==> Same(old(handles[..])[k], handles[..][k])
    {
      if h < 0 || h >= DL_MAX || !handles[h].used { return -1; }
      hide TableOk, LayoutOk, TotalRoom, RefsOk;
      if handles[h].refs > 1 {
        Release(h);
      } else {
        Unload(h);
      }
      return 0;
    }

    method Release(h: nat)
      requires Valid({}) && Tight({}) && h < DL_MAX && handles[h].used && handles[h].refs > 1
      modifies this`owed, handles
      ensures Valid({}) && Tight({})
      ensures handles[..] == old(handles[..])[h := old(handles[..])[h].(refs := old(handles[..])[h].refs - 1)]
      ensures owed == old(owed) - multiset{old(handles[..])[h].name}
    {
      hide TableOk, LayoutOk, TotalRoom, RefsOk;
      ReleaseKeeps(handles[..], tlsModOff[..], tlsTotal, dlSeq, owed, h);
      SameGrounded(handles[..], handles[..][h := handles[h].(refs := handles[h].refs - 1)], {}, {});
      owed := owed - multiset{handles[h].name};
      handles[h] := handles[h].(refs := handles[h].refs - 1);
    }

    method Unload(h: nat)
      requires Valid({}) && h < DL_MAX && handles[h].used && handles[h].refs <= 1
      modifies this`tlsTotal, this`owed, handles, tlsModOff
      ensures Valid({}) && Tight({}) && !handles[h].used
      ensures owed == old(owed) - multiset{old(handles[..])[h].name}
      ensures forall k :: 0 <= k < DL_MAX && k != h ==> Same(old(handles[..])[k], handles[..][k])
    {
      hide LayoutOk, TotalRoom, RefsOk;
      ghost var was := handles[..];
      assert HandleOk(was[h], dlSeq);
      FreedTable(was, dlSeq, h, Empty);
      handles[h] := Empty;
      tlsModOff[h] := 0;
      ghost var mid := handles[..];
      assert mid == was[h := Empty];
      Rebuild();
      SameTable(mid, handles[..], dlSeq);
      UnloadRefs(was, handles[..], dlSeq, owed, h);
      owed := owed - multiset{was[h].name};
    }

    /** tls_block_make, its mapping given, whatever is still loading: each byte of the
        block is the one the last image over it has there, 0 if there is none.  Bytes
        past the block's end are not in the model; spilled says there were some. */
    method BlockMake(ghost pending: set<int>) returns (block: array<bv8>, spilled: bool)
      requires Valid(pending) && tlsTotal > 0
      ensures fresh(block) && tlsTotal <= block.Length < tlsTotal + 16 && block.Length % 16 == 0
      ensures forall b :: 0 <= b < block.Length ==> block[b] == ByteAt(handles[..], DL_MAX, b)
      ensures spilled <==> exists i :: 0 <= i < DL_MAX && Spills(handles[i], block.Length)
      // Between top-level calls every live module finds its initial image at its
      // offset, followed by zeros, and nothing else is written.
      ensures pending == {} ==>
              !spilled && forall i :: 0 <= i < DL_MAX && HasTls(handles[i]) ==> Holds(block[..], handles[i])
    {
      hide RefsOk, TotalRoom, TableOk, LayoutOk, Holds;
      ghost var hs, offs := handles[..], tlsModOff[..];
      var total := (tlsTotal + 15) / 16 * 16;
      block := new bv8[total](_ => 0);
      spilled := false;
      for i := 0 to DL_MAX
        invariant handles[..] == hs && block.Length == total
        invariant forall b :: 0 <= b < total ==> block[b] == ByteAt(hs, i, b)
        invariant spilled <==> exists k :: 0 <= k < i && Spills(hs[k], total)
      {
        if handles[i].used && handles[i].tlsInit != [] {
          CopyInto(block, handles[i].tlsOff, handles[i].tlsInit);
          spilled := spilled || handles[i].tlsOff + |handles[i].tlsInit| > total;
        }
      }
      if pending == {} { QuietBlock(block[..], hs, offs, tlsTotal, dlSeq); }
    }
  }

  /** The image of h lies over byte b. */
  predicate Covers(h: Handle, b: int) {
    h.used && h.tlsOff <= b < h.tlsOff + |h.tlsInit|
  }

  /** The image of h does not end inside the block. */
  predicate Spills(h: Handle, length: nat) {
    h.used && h.tlsInit != [] && h.tlsOff + |h.tlsInit| > length
  }

  /** What the images of the first n modules, copied in slot order, leave at byte b. */
  function ByteAt(hs: seq<Handle>, n: nat, b: nat): bv8
    requires n <= |hs|
  {
    if n == 0 then 0
    else if Covers(hs[n - 1], b) then hs[n - 1].tlsInit[b - hs[n - 1].tlsOff]
    else ByteAt(hs, n - 1, b)
  }

  /** A module's byte of its own range: its image, then zeros. */
  function OwnByte(h: Handle, b: nat): bv8
    requires h.tlsOff <= b
  {
    if b - h.tlsOff < |h.tlsInit| then h.tlsInit[b - h.tlsOff] else 0
  }

  ghost predicate Holds(block: seq<bv8>, h: Handle) {
    && |h.tlsInit| <= h.tlsMem && h.tlsOff + h.tlsMem <= |block|
    && forall b: nat :: h.tlsOff <= b < h.tlsOff + h.tlsMem ==> block[b] == OwnByte(h, b)
  }

  /** Where no other image lies the module's own byte is found. */
  lemma {:induction false} ByteIsOwn(hs: seq<Handle>, n: nat, m: nat, b: nat)
    requires m < n <= |hs| && hs[m].used && hs[m].tlsOff <= b
    requires forall k :: 0 <= k < n && k != m ==> !Covers(hs[k], b)
    ensures ByteAt(hs, n, b) == OwnByte(hs[m], b)
  {
    if n - 1 == m {
      if !Covers(hs[m], b) { NothingThere(hs, m, b); }
    } else {
      ByteIsOwn(hs, n - 1, m, b);
    }
  }

  lemma {:induction false} NothingThere(hs: seq<Handle>, n: nat, b: nat)
    requires n <= |hs| && forall k :: 0 <= k < n ==> !Covers(hs[k], b)
    ensures ByteAt(hs, n, b) == 0
  {
    if n > 0 { NothingThere(hs, n - 1, b); }
  }

  lemma QuietBlock(block: seq<bv8>, hs: seq<Handle>, offs: seq<nat>, total: nat, next: nat)
    requires |hs| == |offs| == DL_MAX && TableOk(hs, next) && LayoutOk(hs, offs, total, {}) && total <= |block|
    requires forall b :: 0 <= b < |block| ==> block[b] == ByteAt(hs, DL_MAX, b)
    ensures forall i :: 0 <= i < DL_MAX ==> !Spills(hs[i], |block|)
    ensures forall i :: 0 <= i < DL_MAX && HasTls(hs[i]) ==> Holds(block, hs[i])
  {
    forall i | 0 <= i < DL_MAX
      ensures !Spills(hs[i], |block|) && (HasTls(hs[i]) ==> Holds(block, hs[i]))
    {
      if hs[i].used {
        TableEntry(hs, next, i);
        if HasTls(hs[i]) { QuietModule(block, hs, offs, total, next, i); }
      }
    }
  }

  lemma QuietModule(block: seq<bv8>, hs: seq<Handle>, offs: seq<nat>, total: nat, next: nat, i: nat)
    requires |hs| == |offs| == DL_MAX && TableOk(hs, next) && LayoutOk(hs, offs, total, {}) && total <= |block|
    requires i < DL_MAX && HasTls(hs[i]) && HandleOk(hs[i], next)
    requires forall b :: 0 <= b < |block| ==> block[b] == ByteAt(hs, DL_MAX, b)
    ensures Holds(block, hs[i])
  {
    forall b: nat | hs[i].tlsOff <= b < hs[i].tlsOff + hs[i].tlsMem
      ensures block[b] == OwnByte(hs[i], b)
    {
      forall k | 0 <= k < DL_MAX && k != i
        ensures !Covers(hs[k], b)
      {
        if hs[k].used {
          TableEntry(hs, next, k);
          if HasTls(hs[k]) { assert Apart(hs[i], hs[k]); }
        }
      }
      ByteIsOwn(hs, DL_MAX, i, b);
    }
  }

  /** dl_memcpy into a block, as far as the block goes. */
  method CopyInto(block: array<bv8>, off: nat, src: seq<bv8>)
    modifies block
    ensures forall b :: 0 <= b < block.Length ==>
      block[b] == if off <= b < off + |src| then src[b - off] else old(block[b])
  {
    var b := 0;
    while b < |src| && off + b < block.Length
      invariant 0 <= b <= |src|
      invariant forall c :: 0 <= c < block.Length ==>
        block[c] == if off <= c < off + b then src[c - off] else old(block[c])
    {
      block[off + b] := src[b];
      b := b + 1;
    }
  }

  // ----- While a module waits for its dependencies --------------------------------------

  /** While module p is still loading its range is at 0, where the first placed module
      is: their ranges collide exactly when p has TLS, p's image lies over another
      module's range exactly when it is not empty, and past the layout's end exactly
      when it is longer than that. */
  lemma LoadingOverlaps(hs: seq<Handle>, total: nat, pending: set<int>, p: nat)
    requires p < |hs| && p in pending && hs[p].used && Grounded(hs, pending) && exists i :: Placed(hs, pending, i)
    ensures (exists m :: Placed(hs, pending, m) && !Apart(hs[p], hs[m])) <==> hs[p].tlsMem > 0
    ensures (exists m, b :: Placed(hs, pending, m) && Covers(hs[p], b) && InRange(hs[m], b)) <==> hs[p].tlsInit != []
    ensures (exists b :: Covers(hs[p], b) && b >= total) <==> |hs[p].tlsInit| > total
  {
    var z :| Placed(hs, pending, z) && hs[z].tlsOff == 0;
    if hs[p].tlsMem > 0 { assert !Apart(hs[p], hs[z]); }
    if hs[p].tlsInit != [] { assert Covers(hs[p], 0) && InRange(hs[z], 0); }
    if |hs[p].tlsInit| > total { assert Covers(hs[p], total); }
  }

  predicate InRange(h: Handle, b: int) {
    h.tlsOff <= b < h.tlsOff + h.tlsMem
  }

  /** How such a state comes about, for any two loadable files: the first steps of
      opening the one, and of opening the other as its dependency. */
  method NestedOpen(path: Name, parent: Image, dep: Name, child: Image) returns (l: Loader)
    requires |path| <= NAME_MAX && |dep| <= NAME_MAX && path != dep
    requires Loadable(parent) && ImageFits(parent) && Loadable(child) && ImageFits(child)
    ensures fresh(l) && fresh(l.handles) && fresh(l.tlsModOff) && l.Shape()
    ensures l.Valid({0}) && l.Tight({0})
    ensures l.handles[0].tlsOff == 0 && Holding(l.handles[0], path, parent, false, 0)
    ensures Holding(l.handles[1], dep, child, false, 1) && !l.handles[2].used && !l.handles[3].used
    ensures child.tlsMem > 0 ==> l.handles[1].tlsOff == 0 && child.tlsMem <= l.tlsTotal
  {
    hide TableOk, RefsOk, LayoutOk, TotalRoom, Grounded, ImageFits, Accepted;
    l := new Loader();
    NoneLive(l.handles[..], path);
    l.Enter(0, path, false, parent, {});
    assert {} + {0} == {0};
    OtherLive(l.handles[..], 0, dep);
    l.Enter(1, dep, false, child, {0});
    assert {0} + {1} == {0, 1};
    l.PlaceTls(1, {0, 1});
    assert {0, 1} - {1} == {0};
    Returned(l.handles[..], l.dlSeq, l.owed, {0}, 1);
    l.owed := l.owed + multiset{dep};
    AtZero(l.handles[..], l.tlsModOff[..], l.tlsTotal);
  }

  lemma AtZero(hs: seq<Handle>, offs: seq<nat>, total: nat)
    requires |hs| == |offs| == DL_MAX && Grounded(hs, {0}) && LayoutOk(hs, offs, total, {0})
    requires !hs[2].used && !hs[3].used
    ensures hs[0].tlsOff == 0
    ensures HasTls(hs[1]) ==> hs[1].tlsOff == 0 && hs[1].tlsMem <= total
  {
    assert HasTls(hs[1]) ==> Placed(hs, {0}, 1);
  }

  /** What the thread block that dl_tls_main makes for the child looks like at that
      moment: the parent's image was copied under it.  It reaches past the block exactly
      when it is longer, and the child finds its own image exactly when what the parent
      left between the child's image and the end of its range is zero. */
  method NestedBlock(path: Name, parent: Image, dep: Name, child: Image)
    returns (l: Loader, block: array<bv8>, spilled: bool)
    requires |path| <= NAME_MAX && |dep| <= NAME_MAX && path != dep && child.tlsMem > 0
    requires Loadable(parent) && ImageFits(parent) && Loadable(child) && ImageFits(child)
    ensures l.handles.Length == DL_MAX && Holding(l.handles[1], dep, child, false, 1)
    ensures spilled <==> |parent.tlsInit| > block.Length
    ensures Holds(block[..], l.handles[1]) <==>
      forall b :: |child.tlsInit| <= b < child.tlsMem && b < |parent.tlsInit| ==> parent.tlsInit[b] == 0
  {
    l := NestedOpen(path, parent, dep, child);
    block, spilled := l.BlockMake({0});
    hide TableOk, RefsOk, LayoutOk, TotalRoom, Grounded;
    NestedBytes(l.handles[..], block[..]);
    assert spilled <==> Spills(l.handles[0], block.Length);
  }

  lemma NestedBytes(hs: seq<Handle>, block: seq<bv8>)
    requires |hs| == DL_MAX && hs[0].used && hs[1].used && !hs[2].used && !hs[3].used
    requires hs[0].tlsOff == hs[1].tlsOff == 0 && |hs[1].tlsInit| <= hs[1].tlsMem <= |block|
    requires forall b :: 0 <= b < |block| ==> block[b] == ByteAt(hs, DL_MAX, b)
    ensures !Spills(hs[1], |block|)
    ensures Holds(block, hs[1]) <==>
      forall b :: |hs[1].tlsInit| <= b < hs[1].tlsMem && b < |hs[0].tlsInit| ==> hs[0].tlsInit[b] == 0
  {
    forall b: nat | b < |block|
      ensures block[b] == if b < |hs[1].tlsInit| then hs[1].tlsInit[b] else OwnByte(hs[0], b)
    {
      assert ByteAt(hs, 4, b) == ByteAt(hs, 3, b) == ByteAt(hs, 2, b);
      assert ByteAt(hs, 1, b) == OwnByte(hs[0], b) by { assert ByteAt(hs, 0, b) == 0; }
    }
    if forall b :: |hs[1].tlsInit| <= b < hs[1].tlsMem && b < |hs[0].tlsInit| ==> hs[0].tlsInit[b] == 0 {
    } else {
      var b :| |hs[1].tlsInit| <= b < hs[1].tlsMem && b < |hs[0].tlsInit| && hs[0].tlsInit[b] != 0;
      assert block[b] != OwnByte(hs[1], b);
    }
  }

  lemma NoneLive(hs: seq<Handle>, name: Name)
    requires forall i :: 0 <= i < |hs| ==> !hs[i].used
    ensures !Live(hs, name)
  {
  }

  lemma OtherLive(hs: seq<Handle>, slot: nat, name: Name)
    requires slot < |hs| && hs[slot].name != name && forall i :: 0 <= i < |hs| && i != slot ==> !hs[i].used
    ensures !Live(hs, name)
  {
  }

  lemma FreedTable(hs: seq<Handle>, next: nat, slot: nat, h: Handle)
    requires |hs| == DL_MAX && TableOk(hs, next) && slot < DL_MAX && !h.used
    ensures TableOk(hs[slot := h], next)
  {
  }

  lemma SameTable(was: seq<Handle>, now: seq<Handle>, next: nat)
    requires |was| == |now| == DL_MAX && TableOk(was, next)
    requires forall i :: 0 <= i < DL_MAX ==> Same(was[i], now[i])
    ensures TableOk(now, next)
  {
    forall i | 0 <= i < DL_MAX && now[i].used
      ensures HandleOk(now[i], next)
    {
      assert Same(was[i], now[i]) && HandleOk(was[i], next);
    }
    forall i, j | 0 <= i < j < DL_MAX && now[i].used && now[j].used
      ensures now[i].name != now[j].name && now[i].order != now[j].order
    {
      assert Same(was[i], now[i]) && Same(was[j], now[j]);
    }
  }

  /** A close that leaves other references. */
  lemma ReleaseKeeps(hs: seq<Handle>, offs: seq<nat>, total: nat, next: nat, owed: multiset<Name>, h: nat)
    requires Inv(hs, offs, total, next, owed, {}) && h < DL_MAX && hs[h].used && hs[h].refs > 1
    ensures Inv(hs[h := hs[h].(refs := hs[h].refs - 1)], offs, total, next, owed - multiset{hs[h].name}, {})
    ensures TotalRoom(hs[h := hs[h].(refs := hs[h].refs - 1)], {}) == TotalRoom(hs, {})
  {
    var now := hs[h := hs[h].(refs := hs[h].refs - 1)];
    ReleaseTable(hs, now, next, h);
    ReleaseRefs(hs, now, next, owed, h);
    SameLayout(hs, now, offs, total, {});
    ReleaseRoom(hs, now, h);
  }

  lemma ReleaseTable(hs: seq<Handle>, now: seq<Handle>, next: nat, h: nat)
    requires |hs| == DL_MAX && TableOk(hs, next) && h < DL_MAX && hs[h].used && hs[h].refs > 1
    requires now == hs[h := hs[h].(refs := hs[h].refs - 1)]
    ensures TableOk(now, next)
  {
    assert HandleOk(hs[h], next);
  }

  lemma ReleaseRefs(hs: seq<Handle>, now: seq<Handle>, next: nat, owed: multiset<Name>, h: nat)
    requires |hs| == DL_MAX && TableOk(hs, next) && RefsOk(hs, owed, {}) && h < DL_MAX && hs[h].used
    requires |now| == DL_MAX && now == hs[h := now[h]] && now[h] == hs[h].(refs := now[h].refs)
             && now[h].refs + 1 == hs[h].refs
    ensures RefsOk(now, owed - multiset{hs[h].name}, {})
  {
    LiveGrows(hs, now);
  }

  lemma ReleaseRoom(hs: seq<Handle>, now: seq<Handle>, h: nat)
    requires |hs| == DL_MAX && h < DL_MAX && hs[h].refs > 0 && now == hs[h := hs[h].(refs := hs[h].refs - 1)]
    ensures TotalRoom(now, {}) == TotalRoom(hs, {})
  {
  }

  /** The close that balances the last open. */
  lemma UnloadRefs(hs: seq<Handle>, now: seq<Handle>, next: nat, owed: multiset<Name>, h: nat)
    requires |hs| == |now| == DL_MAX && TableOk(hs, next) && RefsOk(hs, owed, {}) && h < DL_MAX && hs[h].used
             && hs[h].refs == 1
    requires !now[h].used && forall k :: 0 <= k < DL_MAX && k != h ==> Same(hs[k], now[k])
    ensures RefsOk(now, owed - multiset{hs[h].name}, {})
  {
    forall i | 0 <= i < DL_MAX && now[i].used
      ensures hs[i].used && now[i].name == hs[i].name && now[i].refs == hs[i].refs && hs[i].name != hs[h].name
    {
      assert Same(hs[i], now[i]);
    }
    forall n | n in owed - multiset{hs[h].name}
      ensures Live(now, n)
    {
      var i :| 0 <= i < DL_MAX && hs[i].used && hs[i].name == n;
      assert i != h && Same(hs[i], now[i]);
    }
  }

  /** A loading module that goes away was owed to nobody. */
  lemma Dropped(was: seq<Handle>, now: seq<Handle>, slot: nat, owed: multiset<Name>, pending: set<int>)
    requires |was| == |now| && slot < |was| && RefsOk(was, owed, pending) && !now[slot].used
    requires was[slot].used && slot in pending && was[slot].refs == 1
    requires forall k :: 0 <= k < |was| && k != slot ==> Same(was[k], now[k])
    ensures RefsOk(now, owed, pending - {slot})
  {
    forall n | n in owed
      ensures Live(now, n)
    {
      var i :| 0 <= i < |was| && was[i].used && was[i].name == n;
      assert Same(was[i], now[i]);
    }
    assert forall k :: 0 <= k < |was| && now[k].used ==> Same(was[k], now[k]);
  }

  /** The first n modules are laid out below used. */
  predicate PlacedUpTo(hs: seq<Handle>, offs: seq<nat>, used: nat, n: nat)
    requires |hs| == |offs| == DL_MAX
  {
    && (forall k :: 0 <= k < n && k < DL_MAX && HasTls(hs[k]) ==>
          Seated(hs[k].tlsOff, hs[k].tlsAlign) && hs[k].tlsOff + hs[k].tlsMem <= used && offs[k] == hs[k].tlsOff)
    && forall k, m :: 0 <= k < m < n && m < DL_MAX && HasTls(hs[k]) && HasTls(hs[m]) ==> Apart(hs[k], hs[m])
  }

  /** Of the first n modules the first with TLS is at 0. */
  ghost predicate GroundedUpTo(hs: seq<Handle>, used: nat, n: nat)
    requires n <= |hs|
  {
    if exists k :: 0 <= k < n && HasTls(hs[k])
    then exists k :: 0 <= k < n && HasTls(hs[k]) && hs[k].tlsOff == 0
    else used == 0
  }

  lemma GroundNext(hs: seq<Handle>, used: nat, i: nat, off: nat, used': nat)
    requires i < |hs| && GroundedUpTo(hs, used, i) && HasTls(hs[i])
    requires used == 0 ==> off == 0
    ensures GroundedUpTo(hs[i := hs[i].(tlsOff := off)], used', i + 1)
  {
    var now := hs[i := hs[i].(tlsOff := off)];
    assert HasTls(now[i]);
    if k :| 0 <= k < i && HasTls(hs[k]) && hs[k].tlsOff == 0 {
      assert HasTls(now[k]) && now[k].tlsOff == 0;
    } else {
      assert now[i].tlsOff == 0;
    }
  }

  lemma NothingPlaced(hs: seq<Handle>, offs: seq<nat>)
    requires |hs| == |offs| == DL_MAX
    ensures PlacedUpTo(hs, offs, 0, 0) && GroundedUpTo(hs, 0, 0)
  {
  }

  lemma PlaceSkip(hs: seq<Handle>, offs: seq<nat>, used: nat, i: nat)
    requires |hs| == |offs| == DL_MAX && i < DL_MAX && !HasTls(hs[i])
    requires PlacedUpTo(hs, offs, used, i) && GroundedUpTo(hs, used, i)
    ensures PlacedUpTo(hs, offs, used, i + 1) && GroundedUpTo(hs, used, i + 1)
  {
  }

  lemma AllPlaced(hs: seq<Handle>, offs: seq<nat>, used: nat)
    requires |hs| == |offs| == DL_MAX
    requires PlacedUpTo(hs, offs, used, DL_MAX) && GroundedUpTo(hs, used, DL_MAX)
    ensures LayoutOk(hs, offs, used, {}) && Grounded(hs, {})
  {
    if i :| Placed(hs, {}, i) {
      var k :| 0 <= k < |hs| && HasTls(hs[k]) && hs[k].tlsOff == 0;
      assert Placed(hs, {}, k);
    }
  }

  lemma TableEntry(hs: seq<Handle>, next: nat, i: nat)
    requires |hs| == DL_MAX && TableOk(hs, next) && i < DL_MAX && hs[i].used
    ensures HandleOk(hs[i], next)
  {
  }

  lemma PlaceNext(hs: seq<Handle>, offs: seq<nat>, used: nat, i: nat, off: nat, used': nat)
    requires |hs| == |offs| == DL_MAX && i < DL_MAX && PlacedUpTo(hs, offs, used, i)
    requires Seated(off, hs[i].tlsAlign) && used <= off && off + hs[i].tlsMem == used'
    ensures PlacedUpTo(hs[i := hs[i].(tlsOff := off)], offs[i := off], used', i + 1)
  {
  }

  lemma RoomSame(was: seq<Handle>, now: seq<Handle>)
    requires |was| == |now| == DL_MAX && forall i :: 0 <= i < DL_MAX ==> Same(was[i], now[i])
    ensures TotalRoom(was, {}) == TotalRoom(now, {})
  {
    assert Same(was[0], now[0]) && Same(was[1], now[1]) && Same(was[2], now[2]) && Same(was[3], now[3]);
  }

  /** A table that keeps every live name keeps every name live. */
  lemma LiveGrows(was: seq<Handle>, now: seq<Handle>)
    requires |was| == |now|
    requires forall i :: 0 <= i < |was| && was[i].used ==> now[i].used && now[i].name == was[i].name
    ensures forall n :: Live(was, n) ==> Live(now, n)
  {
    forall n | Live(was, n)
      ensures Live(now, n)
    {
      var i :| 0 <= i < |was| && was[i].used && was[i].name == n;
      assert now[i].used && now[i].name == n;
    }
  }

  function RoomUpTo(hs: seq<Handle>, n: nat): nat
    requires n <= |hs|
  {
    if n == 0 then 0 else RoomUpTo(hs, n - 1) + Room(hs[n - 1])
  }

  /** The sums of the layout stay far below 2^32. */
  lemma RoomBound(hs: seq<Handle>, next: nat, n: nat)
    requires |hs| == DL_MAX && TableOk(hs, next) && n < DL_MAX
    ensures RoomUpTo(hs, n) <= 2 * TLS_MAX * n && Room(hs[n]) <= 2 * TLS_MAX
    ensures TotalRoom(hs, {}) == RoomUpTo(hs, DL_MAX)
  {
    assert forall i :: 0 <= i < DL_MAX && hs[i].used ==> HandleOk(hs[i], next);
    assert RoomUpTo(hs, 1) == Room(hs[0]);
    assert RoomUpTo(hs, 2) == Room(hs[0]) + Room(hs[1]);
    assert RoomUpTo(hs, 3) == Room(hs[0]) + Room(hs[1]) + Room(hs[2]);
  }
}

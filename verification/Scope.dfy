// Symbol resolution across the loaded modules: dl_export_find, dl_scope_search,
// dl_sym_next and dl_sym of user/dl.c.

module Scope {
  import opened ElfSymbols
  import opened Loader
  import opened Words

  /** An address that is not the null pointer. */
  type Addr = v: int | 0 < v < 0x1_0000_0000 witness 1

  /** A registered name, from dl_copies or one of the export arrays. */
  datatype Binding = Binding(name: Name, addr: Addr)

  ghost predicate Bound(bs: seq<Binding>, name: Name) {
    exists b :: 0 <= b < |bs| && bs[b].name == name
  }

  /** a is the address of the first binding of the name. */
  ghost predicate IsFirst(bs: seq<Binding>, name: Name, a: u32) {
    exists b :: 0 <= b < |bs| && bs[b].name == name && bs[b].addr == a && forall c :: 0 <= c < b ==> bs[c].name != name
  }

  /** dl_copy_find, and the search of an export array. */
  method FindBinding(bs: seq<Binding>, name: Name) returns (a: u32)
    ensures a == 0 <==> !Bound(bs, name)
    ensures a != 0 ==> IsFirst(bs, name, a)
  {
    for b := 0 to |bs|
      invariant forall c :: 0 <= c < b ==> bs[c].name != name
    {
      if bs[b].name == name { return bs[b].addr; }
    }
    return 0;
  }

  /** Module i, which is not self, has a usable definition of the name. */
  ghost predicate Offers(hs: seq<Handle>, self: int, name: Name, i: int) {
    0 <= i < |hs| && i != self && hs[i].used && Accepted(hs[i].table) && LookupAddress(hs[i].table, name) != 0
  }

  /** Global modules come before local ones, later ones before earlier ones. */
  ghost predicate Precedes(h: Handle, g: Handle) {
    (h.isGlobal && !g.isGlobal) || (h.isGlobal == g.isGlobal && h.order > g.order)
  }

  /** from, if any module offers the name, is the one that precedes all others;
      a is its definition. */
  ghost predicate IsBest(hs: seq<Handle>, self: int, name: Name, from: int, a: u32) {
    if a == 0 then forall j :: !Offers(hs, self, name, j)
    else
      && Offers(hs, self, name, from) && a == LookupAddress(hs[from].table, name)
      && forall j :: Offers(hs, self, name, j) && j != from ==> Precedes(hs[from], hs[j])
  }

  /** The loaded table is one dl_open_mode and dl_close leave behind. */
  lemma TableFacts(hs: seq<Handle>, next: nat)
    requires |hs| == DL_MAX && TableOk(hs, next)
    ensures forall i :: 0 <= i < DL_MAX && hs[i].used ==> hs[i].order < next && Accepted(hs[i].table)
    ensures forall i, j :: 0 <= i < DL_MAX && 0 <= j < DL_MAX && i != j && hs[i].used && hs[j].used ==>
            hs[i].order != hs[j].order
  {
    assert forall i :: 0 <= i < DL_MAX && hs[i].used ==> HandleOk(hs[i], next);
  }

  /** The innermost loop: the module with this load order number, if it qualifies. */
  method ScanSlots(l: Loader, self: int, name: Name, isGlobal: bool, sq: nat) returns (a: u32, ghost from: int)
    requires l.Shape() && TableOk(l.handles[..], l.dlSeq)
    ensures a == 0 ==> forall j :: Offers(l.handles[..], self, name, j) && l.handles[j].order == sq ==>
            l.handles[j].isGlobal != isGlobal
    ensures a != 0 ==>
      && Offers(l.handles[..], self, name, from) && a == LookupAddress(l.handles[from].table, name)
      && l.handles[from].order == sq && l.handles[from].isGlobal == isGlobal
  {
    ghost var hs := l.handles[..];
    TableFacts(hs, l.dlSeq);
    from := -1;
    for i := 0 to DL_MAX
      invariant forall j :: 0 <= j < i && Offers(hs, self, name, j) && hs[j].order == sq ==> hs[j].isGlobal != isGlobal
    {
      var o := l.handles[i];
      assert o == hs[i];
      if o.used && o.order == sq && i != self && o.isGlobal == isGlobal {
        a := HandleLookup(o.table, name);
        if a != 0 { return a, i; }
      }
    }
    return 0, -1;
  }

  /** One pass: the latest module of a class that offers the name. */
  method ScanClass(l: Loader, self: int, name: Name, isGlobal: bool) returns (a: u32, ghost from: int)
    requires l.Shape() && TableOk(l.handles[..], l.dlSeq)
    ensures a == 0 ==> forall j :: Offers(l.handles[..], self, name, j) ==> l.handles[j].isGlobal != isGlobal
    ensures a != 0 ==>
      && Offers(l.handles[..], self, name, from) && a == LookupAddress(l.handles[from].table, name)
      && l.handles[from].isGlobal == isGlobal
      && forall j :: Offers(l.handles[..], self, name, j) && l.handles[j].isGlobal == isGlobal && j != from ==>
           l.handles[j].order < l.handles[from].order
  {
    ghost var hs := l.handles[..];
    TableFacts(hs, l.dlSeq);
    for sq := l.dlSeq + 1 downto 0
      invariant forall j :: Offers(hs, self, name, j) && hs[j].order >= sq ==> hs[j].isGlobal != isGlobal
    {
      a, from := ScanSlots(l, self, name, isGlobal, sq);
      if a != 0 { return; }
    }
    return 0, -1;
  }

  /** dl_scope_search.  self is the slot of the module that asks, -1 for none:
      the copied variable, else the export, else the best module. */
  method ScopeSearch(l: Loader, copies: seq<Binding>, exports: seq<Binding>, self: int, name: Name) returns (a: u32)
    requires l.Shape() && TableOk(l.handles[..], l.dlSeq)
    ensures
      if Bound(copies, name) then IsFirst(copies, name, a)
      else if Bound(exports, name) then IsFirst(exports, name, a)
      else exists from :: IsBest(l.handles[..], self, name, from, a)
  {
    a := FindBinding(copies, name);
    if a != 0 { return; }
    a := FindBinding(exports, name);
    if a != 0 { return; }
    ghost var from;
    a, from := ScanClass(l, self, name, true);
    if a == 0 { a, from := ScanClass(l, self, name, false); }
    assert IsBest(l.handles[..], self, name, from, a);
  }

  /** The best module is unique, so the search is determined by the table. */
  lemma BestIsUnique(hs: seq<Handle>, next: nat, self: int, name: Name, f: int, a: u32, g: int, b: u32)
    requires |hs| == DL_MAX && TableOk(hs, next) && IsBest(hs, self, name, f, a) && IsBest(hs, self, name, g, b)
    ensures a == b && (a != 0 ==> f == g)
  {
    TableFacts(hs, next);
  }

  /** So a global module is found whenever one offers the name, and of those of its class the
      one that was loaded last. */
  lemma GlobalsFirst(hs: seq<Handle>, self: int, name: Name, from: int, a: u32, j: int)
    requires IsBest(hs, self, name, from, a) && Offers(hs, self, name, j)
    ensures a != 0 && Offers(hs, self, name, from)
    ensures hs[j].isGlobal ==> hs[from].isGlobal
    ensures hs[j].isGlobal == hs[from].isGlobal ==> hs[j].order <= hs[from].order
  {
  }

  /** from, if any module loaded after h offers the name, is the first of them. */
  ghost predicate IsNext(hs: seq<Handle>, h: nat, name: Name, from: int, a: u32)
    requires h < |hs|
  {
    if a == 0 then forall j :: Offers(hs, -1, name, j) ==> hs[j].order <= hs[h].order
    else
      && Offers(hs, -1, name, from) && hs[from].order > hs[h].order && a == LookupAddress(hs[from].table, name)
      && forall j :: Offers(hs, -1, name, j) && hs[j].order > hs[h].order ==> hs[from].order <= hs[j].order
  }

  /** dl_sym_next (RTLD_NEXT).  h is the handle's index, or anything else for a bad pointer. */
  method SymNext(l: Loader, h: int, name: Name) returns (a: u32)
    requires l.Shape() && TableOk(l.handles[..], l.dlSeq)
    ensures if 0 <= h < DL_MAX && l.handles[h].used
            then exists from :: IsNext(l.handles[..], h, name, from, a) else a == 0
  {
    if h < 0 || h >= DL_MAX || !l.handles[h].used { return 0; }
    ghost var hs := l.handles[..];
    TableFacts(hs, l.dlSeq);
    for sq := l.handles[h].order + 1 to l.dlSeq + 1
      invariant forall j :: Offers(hs, -1, name, j) && hs[j].order > hs[h].order ==> hs[j].order >= sq
    {
      ghost var from;
      a, from := ScanAny(l, name, sq);
      if a != 0 {
        assert IsNext(hs, h, name, from, a);
        return;
      }
    }
    ghost var none := -1;
    assert IsNext(l.handles[..], h, name, none, 0);
    return 0;
  }

  /** The slots at one load order number, whatever their class. */
  method ScanAny(l: Loader, name: Name, sq: nat) returns (a: u32, ghost from: int)
    requires l.Shape() && TableOk(l.handles[..], l.dlSeq)
    ensures a == 0 ==> forall j :: Offers(l.handles[..], -1, name, j) ==> l.handles[j].order != sq
    ensures a != 0 ==>
      Offers(l.handles[..], -1, name, from) && a == LookupAddress(l.handles[from].table, name)
          && l.handles[from].order == sq
  {
    ghost var hs := l.handles[..];
    TableFacts(hs, l.dlSeq);
    for i := 0 to DL_MAX
      invariant forall j :: 0 <= j < i && Offers(hs, -1, name, j) ==> hs[j].order != sq
    {
      var o := l.handles[i];
      assert o == hs[i];
      if o.used && o.order == sq {
        a := HandleLookup(o.table, name);
        if a != 0 { return a, i; }
      }
    }
    return 0, -1;
  }
}

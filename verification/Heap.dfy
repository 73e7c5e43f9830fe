// The heap of user/libcharos.c: a linked list of blocks over the program break,
// first fit, with coalescing towards higher addresses.

module Heap {
  import opened Brk
  import opened Words

  /** sizeof(struct lib_block). */
  const HEADER := 12

  /** struct lib_block, as it lies in memory; next is an address, 0 for none. */
  datatype Header = Header(size: nat, free: bool, next: nat)

  /** A block of the list, with its address. */
  datatype Block = Block(addr: nat, size: nat, free: bool)

  function Payload(b: Block): nat {
    b.addr + HEADER
  }

  function End(b: Block): nat {
    b.addr + HEADER + b.size
  }

  /** Block i begins where the one before it ends. */
  predicate Adjoins(bs: seq<Block>, i: nat)
    requires i < |bs|
  {
    bs[i].addr == if i == 0 then BRK_BASE else End(bs[i - 1])
  }

  /** The blocks lie end to end from the heap's base up to brk. */
  ghost predicate Tiled(bs: seq<Block>, brk: nat) {
    && (forall i :: 0 <= i < |bs| ==> Adjoins(bs, i))
    && brk == if bs == [] then BRK_BASE else End(bs[|bs| - 1])
  }

  /** The word at block i's address is its header, with a pointer to the next block. */
  predicate LinkAt(mem: map<nat, Header>, bs: seq<Block>, i: nat)
    requires i < |bs|
  {
    bs[i].addr in mem && mem[bs[i].addr] == Header(bs[i].size, bs[i].free, AddressOf(bs, i + 1))
  }

  function AddressOf(bs: seq<Block>, i: nat): nat {
    if i < |bs| then bs[i].addr else 0
  }

  ghost predicate Linked(mem: map<nat, Header>, head: nat, bs: seq<Block>) {
    head == AddressOf(bs, 0) && forall i :: 0 <= i < |bs| ==> LinkAt(mem, bs, i)
  }

  /** The request in whole 8-byte units, in 32 bits. */
  function Rounded(size: u32): nat {
    (if size == 0 then 8 else (size + 7) % U32 / 8 * 8)
  }

  /** What a new block takes of the heap, in 32 bits. */
  function NewSize(size: u32): u32 {
    (Rounded(size) + HEADER) % U32
  }

  /** The least positive multiple of 8 that is at least the request, or none, 0, where that
      does not fit in 32 bits. */
  lemma RoundedIs(size: u32)
    ensures size > 0xFFFF_FFF8 ==> Rounded(size) == 0
    ensures size <= 0xFFFF_FFF8 ==> Rounded(size) % 8 == 0 && Rounded(size) >= size && Rounded(size) > 0
    ensures size <= 0xFFFF_FFF8 ==> forall m :: m % 8 == 0 && m >= size && m > 0 ==> Rounded(size) <= m
  {
  }

  /** The first free block that is large enough, or the number of blocks. */
  function FirstFit(bs: seq<Block>, size: nat): (i: nat)
    ensures i <= |bs| && (i < |bs| ==> bs[i].free && bs[i].size >= size)
    ensures forall j :: 0 <= j < i ==> !(bs[j].free && bs[j].size >= size)
  {
    if bs == [] || (bs[0].free && bs[0].size >= size) then 0 else
      var i := FirstFit(bs[1..], size);
      assert forall j :: 0 < j <= i ==> bs[j] == bs[1..][j - 1];
      1 + i
  }

  /** Block i takes over the block behind it. */
  function Merge(bs: seq<Block>, i: nat): seq<Block>
    requires i + 1 < |bs|
  {
    bs[..i] + [bs[i].(size := bs[i].size + HEADER + bs[i + 1].size)] + bs[i + 2..]
  }

  /** Block i takes over all the free blocks that follow it. */
  function Coalesced(bs: seq<Block>, i: nat): seq<Block>
    requires i < |bs|
    decreases |bs|
  {
    if i + 1 < |bs| && bs[i + 1].free then Coalesced(Merge(bs, i), i) else bs
  }

  function Freed(bs: seq<Block>, i: nat): seq<Block>
    requires i < |bs|
  {
    Coalesced(bs[i := bs[i].(free := true)], i)
  }

  /** A pointer lib_malloc gave out and that still heads a block. */
  predicate Allocated(bs: seq<Block>, p: nat) {
    exists i :: 0 <= i < |bs| && Payload(bs[i]) == p
  }

  /** The block a pointer heads. */
  function IndexOf(bs: seq<Block>, p: nat): (i: nat)
    ensures i <= |bs| && (i < |bs| ==> Payload(bs[i]) == p) && (i < |bs| <==> Allocated(bs, p))
  {
    if bs == [] then 0
    else if Payload(bs[|bs| - 1]) == p then |bs| - 1
    else
      var i := IndexOf(bs[..|bs| - 1], p);
      assert Allocated(bs, p) ==> Allocated(bs[..|bs| - 1], p);
      if i == |bs| - 1 then |bs| else i
  }

  function Taken(bs: seq<Block>, i: nat): seq<Block>
    requires i < |bs|
  {
    bs[i := bs[i].(free := false)]
  }

  /** The blocks, the heap's end and the pointer after lib_malloc; grows says
      whether the break can move, if it has to. */
  datatype Grant = Grant(blocks: seq<Block>, top: nat, p: nat)

  function Granted(bs: seq<Block>, top: nat, size: u32, grows: bool): Grant {
    var n := Rounded(size);
    var i := FirstFit(bs, n);
    if i < |bs| then Grant(Taken(bs, i), top, Payload(bs[i]))
    else if grows then Grant(bs + [Block(top, n, false)], top + HEADER + n, top + HEADER)
    else Grant(bs, top, 0)
  }

  /** The numbers of a request stay within 32 bits. */
  predicate NoWrap(bs: seq<Block>, top: nat, size: u32) {
    FirstFit(bs, Rounded(size)) < |bs| || top + HEADER + Rounded(size) < U32
  }

  class Heap {
    var mem: map<nat, Header>
    var head: nat
    var brk: nat
    const kernel: Break
    ghost var blocks: seq<Block>

    /** The heap's end, once the break is known. */
    ghost function Top(): nat
      reads this
    {
      if brk == 0 then BRK_BASE else brk
    }

    /** The list structure, whatever the numbers in it are. */
    ghost predicate Shape()
      reads this, kernel
    {
      && kernel.Valid() && Linked(mem, head, blocks)
      && brk < U32 && (brk == 0 ==> kernel.cur == BRK_BASE && blocks == [])
    }

    ghost predicate Valid()
      reads this, kernel
    {
      Shape() && Tiled(blocks, Top()) && Top() <= kernel.cur
    }

    constructor (frames: nat)
      ensures Valid() && blocks == [] && brk == 0 && fresh(kernel) && kernel.frames == frames
    {
      mem, head, brk, blocks := map[], 0, 0, [];
      kernel := new Break(frames);
    }

    /** Moving the heap's end by inc succeeds: the break can follow, or the sum wraps. */
    ghost predicate Moves(inc: u32)
      reads this, kernel
    {
      Top() + inc >= U32 || Reaches(kernel.mapped, kernel.cur, kernel.frames, Top() + inc)
    }

    /** lib_sbrk. */
    method Sbrk(inc: u32) returns (p: u32)
      requires Valid() && inc > 0
      modifies this`brk, kernel
      ensures kernel.Valid() && (p == 0 || p == old(Top())) && 0 < brk < U32
      ensures p == 0 ==> brk == old(Top()) <= kernel.cur
      ensures p != 0 && old(Top()) + inc < U32 ==> brk == kernel.cur == p + inc
      ensures p != 0 <==> old(Moves(inc))
    {
      hide Tiled, Linked, Covered, Needed, PageUp;
      TopAtBase(blocks, Top());
      if brk == 0 {
        // At least BRK_BASE, so never the failure value 0.
        brk := kernel.Set(0);
      }
      var was: u32 := brk;
      var want := (was + inc) % U32;
      var got := kernel.Set(want);
      if got < want { return 0; }
      brk := got;
      return was;
    }

    /** lib_malloc.  A free block is reused if one is large enough; only otherwise
        does the break move, and it may fail to. */
    method Malloc(size: u32) returns (p: u32)
      requires Valid()
      modifies this, kernel
      ensures Shape()
      ensures var g := Granted(old(blocks), old(Top()), size, p != 0);
              p == g.p && blocks == g.blocks && (Valid() ==> Top() == g.top)
      ensures p != 0 <==> FirstFit(old(blocks), Rounded(size)) < |old(blocks)| || old(Moves(NewSize(size)))
      ensures FirstFit(old(blocks), Rounded(size)) < |old(blocks)| ==> kernel.cur == old(kernel.cur)
      // The heap stays a heap exactly when the numbers do not wrap.
      ensures Valid() <==> p == 0 || NoWrap(old(blocks), old(Top()), size)
    {
      ghost var bs, top := blocks, Top();
      var n := Round(size);
      hide Tiled, FirstFit, Rounded;
      var b, prev := head, 0;
      ghost var k := 0;
      while b != 0
        invariant k <= |bs| && b == AddressOf(bs, k) && prev == if k > 0 then bs[k - 1].addr else 0
        invariant forall j :: 0 <= j < k ==> !(bs[j].free && bs[j].size >= n)
        decreases |bs| - k
      {
        assert LinkAt(mem, bs, k);
        if mem[b].free && mem[b].size >= n {
          LinkTaken(mem, head, bs, top, k);
          TiledTaken(bs, top, k);
          InRange(bs, top, k);
          mem := mem[b := mem[b].(free := false)];
          blocks := Taken(bs, k);
          return b + HEADER;
        }
        prev := b;
        b := mem[b].next;
        k := k + 1;
      }
      if k < |bs| { InRange(bs, top, k); }
      p := Extend(n, prev);
    }

    /** The end of lib_malloc: a new block behind the last. */
    method Extend(n: u32, prev: nat) returns (p: u32)
      requires Valid() && n % 8 == 0 && prev == if blocks == [] then 0 else blocks[|blocks| - 1].addr
      modifies this, kernel
      ensures Shape()
      ensures p != 0 <==> old(Moves((n + HEADER) % U32))
      ensures p == 0 ==> blocks == old(blocks) && Top() == old(Top())
      ensures p != 0 ==> p == old(Top()) + HEADER && blocks == old(blocks) + [Block(old(Top()), n, false)]
      ensures Valid() <==> p == 0 || old(Top()) + HEADER + n < U32
      ensures p != 0 && Valid() ==> Top() == old(Top()) + HEADER + n
    {
      ghost var bs, top := blocks, Top();
      var total := (n + HEADER) % U32;
      var addr := Sbrk(total);
      if addr == 0 { return 0; }
      TopIsFree(mem, head, bs, top);
      LinkAdded(mem, head, bs, top, n);
      TiledAdded(bs, top, n);
      var b := addr;
      mem := mem[b := Header(n, false, 0)];
      if prev != 0 { mem := mem[prev := mem[prev].(next := b)]; } else { head := b; }
      blocks := bs + [Block(b, n, false)];
      return b + HEADER;
    }

    /** lib_free of a pointer that heads a block, or of the null pointer. */
    method Free(p: u32)
      requires Valid() && (p == 0 || Allocated(blocks, p))
      modifies this
      ensures Valid() && brk == old(brk)
      ensures blocks == if p == 0 then old(blocks) else Freed(old(blocks), IndexOf(old(blocks), p))
    {
      TopAtBase(blocks, Top());
      ghost var bs := blocks;
      if p == 0 { return; }
      ghost var i := IndexOf(bs, p);
      Distinct(bs, Top(), i);
      var b := p - HEADER;
      Mark(b, i);
      hide Tiled;
      while mem[b].next != 0 && mem[mem[b].next].free && b + HEADER + mem[b].size == mem[b].next
        invariant Valid() && i < |blocks| && blocks[i].addr == b && b in mem && LinkAt(mem, blocks, i)
        invariant mem[b].next != 0 ==> mem[b].next in mem
        invariant brk == old(brk) && blocks[i].free && Coalesced(blocks, i) == Freed(bs, i)
        decreases |blocks|
      {
        Absorb(b, i);
      }
      NothingToMerge(mem, head, blocks, Top(), i);
    }

    /** b->free = 1. */
    method Mark(b: nat, ghost i: nat)
      requires Valid() && i < |blocks| && blocks[i].addr == b
      modifies this`mem, this`blocks
      ensures Valid() && blocks == old(blocks)[i := old(blocks)[i].(free := true)]
      ensures b in mem && LinkAt(mem, blocks, i) && (mem[b].next != 0 ==> mem[b].next in mem)
    {
      ghost var bs, top := blocks, Top();
      assert LinkAt(mem, bs, i);
      LinkMarked(mem, head, bs, top, i);
      TiledMarked(bs, top, i);
      mem := mem[b := mem[b].(free := true)];
      blocks := bs[i := bs[i].(free := true)];
      NextInMemory(mem, head, blocks, i);
    }

    /** Block i takes over the block behind it. */
    method Absorb(b: nat, ghost i: nat)
      requires Valid() && i < |blocks| && blocks[i].addr == b && b in mem && LinkAt(mem, blocks, i) && blocks[i].free
      requires mem[b].next != 0 && mem[b].next in mem && mem[mem[b].next].free
      modifies this`mem, this`blocks
      ensures Valid() && i + 1 < |old(blocks)| && old(blocks)[i + 1].free && blocks == Merge(old(blocks), i)
      ensures b in mem && LinkAt(mem, blocks, i) && (mem[b].next != 0 ==> mem[b].next in mem)
    {
      ghost var bs, top := blocks, Top();
      assert LinkAt(mem, bs, i + 1);
      LinkMerged(mem, head, bs, top, i);
      TiledMerged(bs, top, i);
      InRange(Merge(bs, i), top, i);
      var next := mem[mem[b].next];
      Small(mem[b].size + HEADER + next.size, U32);
      mem := mem[b := mem[b].(size := (mem[b].size + HEADER + next.size) % U32)];
      mem := mem[b := mem[b].(next := next.next)];
      assert mem == old(mem)[b := Header(old(mem)[b].size + HEADER + next.size, old(mem)[b].free, next.next)];
      blocks := Merge(bs, i);
      NextInMemory(mem, head, blocks, i);
    }
  }

  /** The rounding of lib_malloc. */
  method Round(size: u32) returns (n: u32)
    ensures n == Rounded(size) && n % 8 == 0
    ensures size <= 0xFFFF_FFF8 <==> n >= size
    ensures n >= size ==> 0 < n <= size + 8
  {
    n := (if size == 0 then 1 else size);
    n := (n + 7) % U32 / 8 * 8;
  }

  // ----- Blocks that lie end to end ----------------------------------------------------

  lemma InRange(bs: seq<Block>, brk: nat, i: nat)
    requires Tiled(bs, brk) && i < |bs|
    ensures BRK_BASE <= bs[i].addr < End(bs[i]) <= brk
  {
    FromBase(bs, brk, i);
    if i < |bs| - 1 { Ordered(bs, brk, i, |bs| - 1); }
  }

  lemma TopAtBase(bs: seq<Block>, brk: nat)
    requires Tiled(bs, brk)
    ensures BRK_BASE <= brk
  {
    if bs != [] { InRange(bs, brk, 0); }
  }

  lemma {:induction false} FromBase(bs: seq<Block>, brk: nat, i: nat)
    requires Tiled(bs, brk) && i < |bs|
    ensures BRK_BASE <= bs[i].addr
  {
    assert Adjoins(bs, i);
    if i > 0 { FromBase(bs, brk, i - 1); }
  }

  /** The list is in address order and its blocks, headers included, do not overlap. */
  lemma {:induction false} Ordered(bs: seq<Block>, brk: nat, i: nat, j: nat)
    requires Tiled(bs, brk) && i < j < |bs|
    ensures End(bs[i]) <= bs[j].addr
    decreases j
  {
    assert Adjoins(bs, j);
    if i < j - 1 { Ordered(bs, brk, i, j - 1); }
  }

  lemma Distinct(bs: seq<Block>, brk: nat, i: nat)
    requires Tiled(bs, brk) && i < |bs|
    ensures forall j :: 0 <= j < |bs| && j != i ==> bs[i].addr != bs[j].addr
  {
    forall j | 0 <= j < |bs| && j != i
      ensures bs[i].addr != bs[j].addr
    {
      if i < j { Ordered(bs, brk, i, j); } else { Ordered(bs, brk, j, i); }
    }
  }

  lemma LinkTaken(mem: map<nat, Header>, head: nat, bs: seq<Block>, brk: nat, i: nat)
    requires Linked(mem, head, bs) && Tiled(bs, brk) && i < |bs| && LinkAt(mem, bs, i)
    ensures Linked(mem[bs[i].addr := mem[bs[i].addr].(free := false)], head, Taken(bs, i))
  {
    var mem' := mem[bs[i].addr := mem[bs[i].addr].(free := false)];
    Distinct(bs, brk, i);
    forall j | 0 <= j < |bs|
      ensures LinkAt(mem', Taken(bs, i), j)
    {
      assert LinkAt(mem, bs, j);
    }
  }

  lemma TiledTaken(bs: seq<Block>, brk: nat, i: nat)
    requires Tiled(bs, brk) && i < |bs|
    ensures Tiled(Taken(bs, i), brk)
  {
    forall j | 0 <= j < |bs|
      ensures Adjoins(Taken(bs, i), j)
    {
      assert Adjoins(bs, j);
    }
  }

  /** The last block, if any, is in memory, and no block is at the heap's end. */
  lemma TopIsFree(mem: map<nat, Header>, head: nat, bs: seq<Block>, brk: nat)
    requires Linked(mem, head, bs) && Tiled(bs, brk)
    ensures bs != [] ==> LinkAt(mem, bs, |bs| - 1) && 0 < bs[|bs| - 1].addr
    ensures forall j :: 0 <= j < |bs| ==> bs[j].addr < brk
  {
    forall j | 0 <= j < |bs|
      ensures 0 < bs[j].addr < brk
    {
      InRange(bs, brk, j);
    }
  }

  lemma LinkAdded(mem: map<nat, Header>, head: nat, bs: seq<Block>, brk: nat, n: nat)
    requires Linked(mem, head, bs) && Tiled(bs, brk) && (bs != [] ==> LinkAt(mem, bs, |bs| - 1))
    requires forall j :: 0 <= j < |bs| ==> bs[j].addr < brk
    ensures var bs' := bs + [Block(brk, n, false)];
      var mem' := mem[brk := Header(n, false, 0)];
      if bs == [] then Linked(mem', brk, bs')
      else Linked(mem'[bs[|bs| - 1].addr := mem[bs[|bs| - 1].addr].(next := brk)], head, bs')
  {
    var bs' := bs + [Block(brk, n, false)];
    var mem' := mem[brk := Header(n, false, 0)];
    if bs != [] {
      var last := bs[|bs| - 1].addr;
      var mem'' := mem'[last := mem[last].(next := brk)];
      Distinct(bs, brk, |bs| - 1);
      forall j | 0 <= j < |bs'|
        ensures LinkAt(mem'', bs', j)
      {
        assert j < |bs| ==> LinkAt(mem, bs, j);
      }
    }
  }

  lemma TiledAdded(bs: seq<Block>, brk: nat, n: nat)
    requires Tiled(bs, brk)
    ensures forall to :: Tiled(bs + [Block(brk, n, false)], to) <==> to == brk + HEADER + n
  {
    var bs' := bs + [Block(brk, n, false)];
    forall j | 0 <= j < |bs'|
      ensures Adjoins(bs', j)
    {
      assert j < |bs| ==> Adjoins(bs, j);
    }
  }

  lemma NextInMemory(mem: map<nat, Header>, head: nat, bs: seq<Block>, i: nat)
    requires Linked(mem, head, bs) && i < |bs|
    ensures LinkAt(mem, bs, i) && (mem[bs[i].addr].next != 0 ==> mem[bs[i].addr].next in mem)
  {
    assert LinkAt(mem, bs, i);
    assert i + 1 < |bs| ==> LinkAt(mem, bs, i + 1);
  }

  lemma LinkMarked(mem: map<nat, Header>, head: nat, bs: seq<Block>, brk: nat, i: nat)
    requires Linked(mem, head, bs) && Tiled(bs, brk) && i < |bs| && LinkAt(mem, bs, i)
    ensures Linked(mem[bs[i].addr := mem[bs[i].addr].(free := true)], head, bs[i := bs[i].(free := true)])
  {
    var mem' := mem[bs[i].addr := mem[bs[i].addr].(free := true)];
    var bs' := bs[i := bs[i].(free := true)];
    Distinct(bs, brk, i);
    forall j | 0 <= j < |bs'|
      ensures LinkAt(mem', bs', j)
    {
      assert LinkAt(mem, bs, j);
    }
  }

  lemma TiledMarked(bs: seq<Block>, brk: nat, i: nat)
    requires Tiled(bs, brk) && i < |bs|
    ensures Tiled(bs[i := bs[i].(free := true)], brk)
  {
    var bs' := bs[i := bs[i].(free := true)];
    forall j | 0 <= j < |bs'|
      ensures Adjoins(bs', j)
    {
      assert Adjoins(bs, j);
    }
  }

  lemma LinkMerged(mem: map<nat, Header>, head: nat, bs: seq<Block>, brk: nat, i: nat)
    requires Linked(mem, head, bs) && Tiled(bs, brk) && i + 1 < |bs| && LinkAt(mem, bs, i) && LinkAt(mem, bs, i + 1)
    ensures var h, n := mem[bs[i].addr], mem[bs[i + 1].addr];
      Linked(mem[bs[i].addr := Header(h.size + HEADER + n.size, h.free, n.next)], head, Merge(bs, i))
  {
    var h, n := mem[bs[i].addr], mem[bs[i + 1].addr];
    var mem' := mem[bs[i].addr := Header(h.size + HEADER + n.size, h.free, n.next)];
    var r := Merge(bs, i);
    Distinct(bs, brk, i);
    forall j | 0 <= j < |r|
      ensures LinkAt(mem', r, j)
    {
      assert if j <= i then LinkAt(mem, bs, j) else LinkAt(mem, bs, j + 1);
    }
  }

  lemma TiledMerged(bs: seq<Block>, brk: nat, i: nat)
    requires Tiled(bs, brk) && i + 1 < |bs|
    ensures Tiled(Merge(bs, i), brk)
  {
    var r := Merge(bs, i);
    assert Adjoins(bs, i + 1);
    forall j | 0 <= j < |r|
      ensures Adjoins(r, j)
    {
      assert if j <= i then Adjoins(bs, j) else Adjoins(bs, j + 1);
    }
  }

  /** When the loop of lib_free stops nothing is left to merge: neighbours always touch. */
  lemma NothingToMerge(mem: map<nat, Header>, head: nat, bs: seq<Block>, brk: nat, i: nat)
    requires Linked(mem, head, bs) && Tiled(bs, brk) && i < |bs| && LinkAt(mem, bs, i)
    requires var h := mem[bs[i].addr];
      !(h.next != 0 && h.next in mem && mem[h.next].free && End(bs[i]) == h.next)
    ensures Coalesced(bs, i) == bs
  {
    if i + 1 < |bs| {
      assert LinkAt(mem, bs, i + 1) && Adjoins(bs, i + 1);
      InRange(bs, brk, i + 1);
    }
  }

  // ----- What lib_free does to the list --------------------------------------------------

  /** Headers and payloads together, over the whole list. */
  function Total(bs: seq<Block>): nat {
    if bs == [] then 0 else Total(bs[..|bs| - 1]) + HEADER + bs[|bs| - 1].size
  }

  /** They always add up to the heap's extent, so lib_free, which does not move
      its end, conserves them. */
  lemma {:induction false} TotalIsExtent(bs: seq<Block>, brk: nat)
    requires Tiled(bs, brk)
    ensures BRK_BASE + Total(bs) == brk
  {
    if bs != [] {
      var init := bs[..|bs| - 1];
      assert Adjoins(bs, |bs| - 1);
      forall j | 0 <= j < |init|
        ensures Adjoins(init, j)
      {
        assert Adjoins(bs, j);
      }
      TotalIsExtent(init, bs[|bs| - 1].addr);
    }
  }

  predicate InUse(bs: seq<Block>, b: Block) {
    !b.free && b in bs
  }

  lemma MergeKeepsLive(bs: seq<Block>, i: nat, b: Block)
    requires i + 1 < |bs| && bs[i].free && bs[i + 1].free
    ensures InUse(Merge(bs, i), b) <==> InUse(bs, b)
  {
    var r := Merge(bs, i);
    if InUse(bs, b) {
      var j :| 0 <= j < |bs| && bs[j] == b;
      assert r[if j < i then j else j - 1] == b;
    }
    if InUse(r, b) {
      var j :| 0 <= j < |r| && r[j] == b;
      assert bs[if j < i then j else j + 1] == b;
    }
  }

  /** Coalescing: every block in use stays as it is, what was free before i stays,
      and the block behind block i, if any, is in use. */
  lemma {:induction false} CoalescedIs(bs: seq<Block>, brk: nat, i: nat)
    requires Tiled(bs, brk) && i < |bs| && bs[i].free
    ensures var r := Coalesced(bs, i);
      && Tiled(r, brk) && i < |r| <= |bs| && r[..i] == bs[..i]
      && r[i].addr == bs[i].addr && r[i].free && r[i].size >= bs[i].size
      && (i + 1 < |r| ==> !r[i + 1].free)
    ensures forall b :: InUse(Coalesced(bs, i), b) <==> InUse(bs, b)
    decreases |bs|
  {
    if i + 1 < |bs| && bs[i + 1].free {
      TiledMerged(bs, brk, i);
      CoalescedIs(Merge(bs, i), brk, i);
      forall b
        ensures InUse(Merge(bs, i), b) <==> InUse(bs, b)
      {
        MergeKeepsLive(bs, i, b);
      }
    }
  }

  /** lib_free of a block in use gives up exactly that block. */
  lemma FreedIs(bs: seq<Block>, brk: nat, i: nat)
    requires Tiled(bs, brk) && i < |bs|
    ensures Tiled(Freed(bs, i), brk) && Total(Freed(bs, i)) == Total(bs)
    ensures forall b :: InUse(Freed(bs, i), b) <==> InUse(bs, b) && b != bs[i]
  {
    var marked := bs[i := bs[i].(free := true)];
    TiledMarked(bs, brk, i);
    CoalescedIs(marked, brk, i);
    TotalIsExtent(bs, brk);
    TotalIsExtent(Freed(bs, i), brk);
    Distinct(bs, brk, i);
    forall b | InUse(bs, b) && b != bs[i]
      ensures InUse(marked, b)
    {
      var j :| 0 <= j < |bs| && bs[j] == b;
      assert marked[j] == b;
    }
    forall b | InUse(marked, b)
      ensures InUse(bs, b) && b != bs[i]
    {
      var j :| 0 <= j < |marked| && marked[j] == b;
      assert bs[j] == b;
    }
  }

  /** A program's own writes, as long as they stay inside the payloads it was given,
      leave every word of the list alone. */
  lemma WritesKeepList(mem: map<nat, Header>, mem': map<nat, Header>, head: nat, bs: seq<Block>, brk: nat)
    requires Linked(mem, head, bs) && Tiled(bs, brk)
    requires forall a :: a in mem && (forall b :: InUse(bs, b) ==> a + HEADER <= Payload(b) || End(b) <= a) ==>
               a in mem' && mem'[a] == mem[a]
    ensures Linked(mem', head, bs)
  {
    forall j | 0 <= j < |bs|
      ensures LinkAt(mem', bs, j)
    {
      assert LinkAt(mem, bs, j);
      forall b | InUse(bs, b)
        ensures bs[j].addr + HEADER <= Payload(b) || End(b) <= bs[j].addr
      {
        var i :| 0 <= i < |bs| && bs[i] == b;
        if i < j { Ordered(bs, brk, i, j); }
        if j < i { Ordered(bs, brk, j, i); }
      }
    }
  }

  // ----- Runs ------------------------------------------------------------------------------

  datatype Op = Allocate(size: u32, grows: bool) | Release(p: nat)

  /** owned are the pointers given out and not freed, with the size asked for. */
  datatype State = State(blocks: seq<Block>, top: nat, owned: map<nat, nat>)

  /** Requests that do not wrap, and frees of pointers that are owned (or null). */
  predicate Allowed(s: State, op: Op) {
    match op
    case Allocate(size, _) => size <= 0xFFFF_FFF8 && NoWrap(s.blocks, s.top, size)
    case Release(p) => p == 0 || p in s.owned
  }

  predicate Serves(b: Block, p: nat, size: nat) {
    !b.free && Payload(b) == p && size <= b.size
  }

  ghost predicate Inv(s: State) {
    && Tiled(s.blocks, s.top)
    && (forall p :: p in s.owned ==> exists b :: InUse(s.blocks, b) && Serves(b, p, s.owned[p]))
    && forall b :: InUse(s.blocks, b) ==> Payload(b) in s.owned
  }

  ghost function Apply(s: State, op: Op): State
    requires Inv(s) && Allowed(s, op)
  {
    match op
    case Allocate(size, grows) =>
      var g := Granted(s.blocks, s.top, size, grows);
      State(g.blocks, g.top, if g.p == 0 then s.owned else s.owned[g.p := size])
    case Release(p) =>
      if p == 0 then s else
      OwnedIndex(s, p);
      State(Freed(s.blocks, IndexOf(s.blocks, p)), s.top, s.owned - {p})
  }

  /** An allocation hands out memory that was not in use and keeps the rest. */
  lemma AllocateKeeps(s: State, size: u32, grows: bool)
    requires Inv(s) && Allowed(s, Allocate(size, grows))
    ensures var s' := Apply(s, Allocate(size, grows));
      var p := Granted(s.blocks, s.top, size, grows).p;
      Inv(s') && (p != 0 ==> p !in s.owned) && forall b :: InUse(s.blocks, b) ==> InUse(s'.blocks, b)
  {
    hide Tiled, Rounded, FirstFit, Taken;
    var n := Rounded(size);
    var i := FirstFit(s.blocks, n);
    RoundedIs(size);
    TopAtBase(s.blocks, s.top);
    if i < |s.blocks| {
      InRange(s.blocks, s.top, i);
      ReuseKeeps(s, size, i);
    } else if grows {
      GrowthKeeps(s, size, n);
    }
  }

  /** A request that gets a pointer is served, within the 32-bit address space,
      exactly when its size rounds up and the heap's end does not wrap. */
  lemma ServedExactly(bs: seq<Block>, top: nat, size: u32, grows: bool)
    requires Tiled(bs, top) && top < U32 && Granted(bs, top, size, grows).p != 0
    ensures var g := Granted(bs, top, size, grows);
      ((exists b :: b in g.blocks && Serves(b, g.p, size)) && g.top < U32)
      <==> size <= 0xFFFF_FFF8 && NoWrap(bs, top, size)
  {
    var g, n := Granted(bs, top, size, grows), Rounded(size);
    var i := FirstFit(bs, n);
    if size <= 0xFFFF_FFF8 { RoundedIs(size); }
    if i < |bs| {
      TiledTaken(bs, top, i);
      InRange(bs, top, i);
      assert g.blocks[i] in g.blocks && Serves(g.blocks[i], g.p, bs[i].size);
      forall b | b in g.blocks && Serves(b, g.p, size)
        ensures b == g.blocks[i]
      {
        SamePayload(g.blocks, top, b, i);
      }
    } else {
      TiledAdded(bs, top, n);
      assert g.blocks[|bs|] in g.blocks && Serves(g.blocks[|bs|], g.p, n);
      forall b | b in g.blocks && Serves(b, g.p, size)
        ensures b == g.blocks[|bs|]
      {
        SamePayload(g.blocks, g.top, b, |bs|);
      }
    }
  }

  /** Two blocks with one payload address are one block. */
  lemma SamePayload(bs: seq<Block>, brk: nat, b: Block, i: nat)
    requires Tiled(bs, brk) && i < |bs| && b in bs && Payload(b) == Payload(bs[i])
    ensures b == bs[i]
  {
    var j :| 0 <= j < |bs| && bs[j] == b;
    Distinct(bs, brk, i);
  }

  lemma ReuseKeeps(s: State, size: u32, i: nat)
    requires Inv(s) && i < |s.blocks| && s.blocks[i].free && size <= s.blocks[i].size
    ensures var p := Payload(s.blocks[i]);
      p !in s.owned && Inv(State(Taken(s.blocks, i), s.top, s.owned[p := size]))
    ensures forall b :: InUse(s.blocks, b) ==> InUse(Taken(s.blocks, i), b)
  {
    var p, bs := Payload(s.blocks[i]), Taken(s.blocks, i);
    TiledTaken(s.blocks, s.top, i);
    if p in s.owned {
      var b :| InUse(s.blocks, b) && Serves(b, p, s.owned[p]);
      SamePayload(s.blocks, s.top, b, i);
    }
    forall b | InUse(s.blocks, b)
      ensures InUse(bs, b)
    {
      var j :| 0 <= j < |s.blocks| && s.blocks[j] == b;
      assert bs[j] == b;
    }
    forall b | InUse(bs, b)
      ensures b == bs[i] || InUse(s.blocks, b)
    {
      var j :| 0 <= j < |bs| && bs[j] == b;
      assert j == i || s.blocks[j] == b;
    }
    assert InUse(bs, bs[i]) && Serves(bs[i], p, size);
    OwnedKeeps(s, bs, p, size);
  }

  lemma GrowthKeeps(s: State, size: u32, n: nat)
    requires Inv(s) && size <= n
    ensures var p, bs := s.top + HEADER, s.blocks + [Block(s.top, n, false)];
      p !in s.owned && Inv(State(bs, s.top + HEADER + n, s.owned[p := size]))
    ensures forall b :: InUse(s.blocks, b) ==> InUse(s.blocks + [Block(s.top, n, false)], b)
  {
    var p, bs := s.top + HEADER, s.blocks + [Block(s.top, n, false)];
    TiledAdded(s.blocks, s.top, n);
    if p in s.owned {
      var b :| InUse(s.blocks, b) && Serves(b, p, s.owned[p]);
      var j :| 0 <= j < |s.blocks| && s.blocks[j] == b;
      InRange(s.blocks, s.top, j);
    }
    assert InUse(bs, bs[|s.blocks|]) && Serves(bs[|s.blocks|], p, size);
    OwnedKeeps(s, bs, p, size);
  }

  lemma OwnedKeeps(s: State, bs: seq<Block>, p: nat, size: nat)
    requires Inv(s) && p !in s.owned && forall b :: InUse(s.blocks, b) ==> InUse(bs, b)
    requires forall b :: InUse(bs, b) ==> Payload(b) == p || InUse(s.blocks, b)
    requires exists b :: InUse(bs, b) && Serves(b, p, size)
    ensures var owned := s.owned[p := size];
      && (forall q :: q in owned ==> exists b :: InUse(bs, b) && Serves(b, q, owned[q]))
      && forall b :: InUse(bs, b) ==> Payload(b) in owned
  {
    forall q | q in s.owned
      ensures exists b :: InUse(bs, b) && Serves(b, q, s.owned[q])
    {
      var b :| InUse(s.blocks, b) && Serves(b, q, s.owned[q]);
      assert InUse(bs, b);
    }
  }

  lemma OwnedIndex(s: State, p: nat)
    requires Inv(s) && p in s.owned
    ensures IndexOf(s.blocks, p) < |s.blocks| && !s.blocks[IndexOf(s.blocks, p)].free
  {
    var b :| InUse(s.blocks, b) && Serves(b, p, s.owned[p]);
    var j :| 0 <= j < |s.blocks| && s.blocks[j] == b;
    SamePayload(s.blocks, s.top, b, IndexOf(s.blocks, p));
  }

  /** A free gives up its own block and no other. */
  lemma ReleaseKeeps(s: State, p: nat)
    requires Inv(s) && Allowed(s, Release(p))
    ensures var s' := Apply(s, Release(p));
      Inv(s') && s'.top == s.top && Total(s'.blocks) == Total(s.blocks)
      && forall b :: InUse(s'.blocks, b) <==> InUse(s.blocks, b) && (Payload(b) != p || p == 0)
  {
    if p != 0 {
      hide Freed, Tiled, IndexOf, Total;
      OwnedIndex(s, p);
      var bs, i := Apply(s, Release(p)).blocks, IndexOf(s.blocks, p);
      FreedIs(s.blocks, s.top, i);
      forall b | InUse(s.blocks, b) && Payload(b) == p
        ensures b == s.blocks[i]
      {
        SamePayload(s.blocks, s.top, b, i);
      }
      forall q | q in s.owned && q != p
        ensures exists c :: InUse(bs, c) && Serves(c, q, s.owned[q])
      {
        var c :| InUse(s.blocks, c) && Serves(c, q, s.owned[q]);
        assert InUse(bs, c);
      }
    }
  }

  ghost predicate IsRun(run: seq<State>, ops: seq<Op>) {
    && |run| == |ops| + 1 && run[0] == State([], BRK_BASE, map[])
    && forall i :: 0 <= i < |ops| ==> StepsTo(run[i], ops[i], run[i + 1])
  }

  ghost predicate StepsTo(s: State, op: Op, s': State) {
    Inv(s) ==> Allowed(s, op) && s' == Apply(s, op)
  }

  /** Over every run of allowed requests and frees the heap stays well formed. */
  lemma {:induction false} RunKeepsHeap(run: seq<State>, ops: seq<Op>, i: nat)
    requires IsRun(run, ops) && i < |run|
    ensures Inv(run[i])
  {
    if i > 0 {
      RunKeepsHeap(run, ops, i - 1);
      var s, op := run[i - 1], ops[i - 1];
      assert StepsTo(s, op, run[i]);
      match op
      case Allocate(size, grows) => AllocateKeeps(s, size, grows);
      case Release(p) => ReleaseKeeps(s, p);
    }
  }

  /** While a pointer stays owned its block does not move or change size. */
  lemma OwnedStays(s: State, op: Op, b: Block)
    requires Inv(s) && Allowed(s, op) && InUse(s.blocks, b) && (op.Release? && op.p != 0 ==> Payload(b) != op.p)
    ensures InUse(Apply(s, op).blocks, b)
  {
    match op
    case Allocate(size, grows) => AllocateKeeps(s, size, grows);
    case Release(p) => ReleaseKeeps(s, p);
  }

  /** What a program may rely on: each owned pointer heads as many bytes as it asked
      for, inside the heap, clear of all other payloads and their headers. */
  lemma PayloadsApart(s: State, p: nat, q: nat)
    requires Inv(s) && p in s.owned && q in s.owned && p < q
    ensures BRK_BASE + HEADER <= p && p + s.owned[p] + HEADER <= q && q + s.owned[q] <= s.top
  {
    var b :| InUse(s.blocks, b) && Serves(b, p, s.owned[p]);
    var c :| InUse(s.blocks, c) && Serves(c, q, s.owned[q]);
    var i :| 0 <= i < |s.blocks| && s.blocks[i] == b;
    var j :| 0 <= j < |s.blocks| && s.blocks[j] == c;
    InRange(s.blocks, s.top, i);
    InRange(s.blocks, s.top, j);
    if i < j { Ordered(s.blocks, s.top, i, j); } else if j < i { Ordered(s.blocks, s.top, j, i); }
  }
}

// The futex table of kernel/process/futex.c: a fixed number of wait slots shared by
// all futex words.  Each system call runs under the table's lock, in one step.

module Futex {
  import opened Words

  const FUTEX_MAX := 16

  /** A wait slot; asid is the address space the word is in. */
  datatype Slot = Free | Waiting(uaddr: nat, asid: nat, task: nat)

  predicate On(s: Slot, uaddr: nat, asid: nat) {
    s.Waiting? && s.uaddr == uaddr && s.asid == asid
  }

  /** The first free slot, or the number of slots. */
  function FirstFree(slots: seq<Slot>): (i: nat)
    ensures i <= |slots| && (i < |slots| ==> slots[i].Free?)
    ensures forall j :: 0 <= j < i ==> slots[j].Waiting?
  {
    if slots == [] || slots[0].Free? then 0 else
      var i := FirstFree(slots[1..]);
      assert forall j :: 0 < j <= i ==> slots[j] == slots[1..][j - 1];
      1 + i
  }

  /** How many slots wait on the word. */
  function Count(slots: seq<Slot>, uaddr: nat, asid: nat): nat {
    if slots == [] then 0
    else Count(slots[..|slots| - 1], uaddr, asid) + if On(slots[|slots| - 1], uaddr, asid) then 1 else 0
  }

  /** Slot i is among the first n that wait on the word. */
  predicate Chosen(slots: seq<Slot>, uaddr: nat, asid: nat, n: nat, i: nat)
    requires i < |slots|
  {
    On(slots[i], uaddr, asid) && Count(slots[..i], uaddr, asid) < n
  }

  /** The table after waking the first n waiters of the word. */
  function Woken(slots: seq<Slot>, uaddr: nat, asid: nat, n: nat): (r: seq<Slot>)
    ensures |r| == |slots|
  {
    seq(|slots|, i requires 0 <= i < |slots| => if Chosen(slots, uaddr, asid, n, i) then Free else slots[i])
  }

  lemma {:induction false} CountMonotone(slots: seq<Slot>, uaddr: nat, asid: nat, i: nat)
    requires i <= |slots|
    ensures Count(slots[..i], uaddr, asid) <= Count(slots, uaddr, asid) <= Count(slots[..i], uaddr, asid) + |slots| - i
    decreases |slots|
  {
    if i < |slots| {
      CountMonotone(slots[..|slots| - 1], uaddr, asid, i);
      assert slots[..|slots| - 1][..i] == slots[..i];
    } else {
      assert slots[..i] == slots;
    }
  }

  /** With as many wake-ups as slots nobody is left waiting on the word. */
  lemma AllWoken(slots: seq<Slot>, uaddr: nat, asid: nat, n: nat, i: nat)
    requires n >= |slots| && i < |slots|
    ensures !On(Woken(slots, uaddr, asid, n)[i], uaddr, asid)
  {
    CountMonotone(slots[..i], uaddr, asid, 0);
    assert slots[..i][..0] == [];
  }

  /** A wake-up finds a waiter whenever there is one. */
  lemma {:induction false} OneWoken(slots: seq<Slot>, uaddr: nat, asid: nat, n: nat, k: nat) returns (i: nat)
    requires n > 0 && k < |slots| && On(slots[k], uaddr, asid)
    ensures i < |slots| && Chosen(slots, uaddr, asid, n, i) && Woken(slots, uaddr, asid, n)[i].Free?
    decreases k
  {
    if j :| 0 <= j < k && On(slots[j], uaddr, asid) {
      i := OneWoken(slots, uaddr, asid, n, j);
    } else {
      i := k;
      NoneCounted(slots[..k], uaddr, asid);
    }
  }

  lemma {:induction false} NoneCounted(slots: seq<Slot>, uaddr: nat, asid: nat)
    requires forall j :: 0 <= j < |slots| ==> !On(slots[j], uaddr, asid)
    ensures Count(slots, uaddr, asid) == 0
  {
    if slots != [] { NoneCounted(slots[..|slots| - 1], uaddr, asid); }
  }

  /** The slots that wait on the word in that address space. */
  function WaitersOf(slots: seq<Slot>, uaddr: nat, asid: nat): set<int> {
    set i | 0 <= i < |slots| && slots[i].Waiting? && slots[i].uaddr == uaddr && slots[i].asid == asid
  }

  /** The slots a wake-up frees. */
  function FreedBy(slots: seq<Slot>, uaddr: nat, asid: nat, n: nat): set<int> {
    set i | 0 <= i < |slots| && Woken(slots, uaddr, asid, n)[i] != slots[i]
  }

  /** A wake-up frees as many of the slots that wait on the word as it may, the first of
      them, and changes no other. */
  lemma WokenIs(slots: seq<Slot>, uaddr: nat, asid: nat, n: nat)
    ensures var freed, all := FreedBy(slots, uaddr, asid, n), WaitersOf(slots, uaddr, asid);
      && freed <= all && |freed| == Min(n, |all|)
      && (forall i :: i in freed ==> Woken(slots, uaddr, asid, n)[i] == Free)
      && (forall i, j :: i in all && j in freed && i < j ==> i in freed)
  {
    FreedCount(slots, uaddr, asid, n);
    forall i: int, j: int | i in WaitersOf(slots, uaddr, asid) && j in FreedBy(slots, uaddr, asid, n) && i < j
      ensures i in FreedBy(slots, uaddr, asid, n)
    {
      CountMonotone(slots[..j], uaddr, asid, i);
      assert slots[..j][..i] == slots[..i];
    }
  }

  lemma {:induction false} FreedCount(slots: seq<Slot>, uaddr: nat, asid: nat, n: nat)
    ensures |WaitersOf(slots, uaddr, asid)| == Count(slots, uaddr, asid)
    ensures |FreedBy(slots, uaddr, asid, n)| == Min(n, Count(slots, uaddr, asid))
  {
    hide WaitersOf, FreedBy, On;
    if slots != [] {
      var k := |slots| - 1;
      FreedCount(slots[..k], uaddr, asid, n);
      WaitersMore(slots, uaddr, asid, k);
      FreedMore(slots, uaddr, asid, n, k);
    } else {
      NoneFreed(uaddr, asid, n);
    }
  }

  lemma NoneFreed(uaddr: nat, asid: nat, n: nat)
    ensures WaitersOf([], uaddr, asid) == {} == FreedBy([], uaddr, asid, n)
  {
  }

  lemma WaitersMore(slots: seq<Slot>, uaddr: nat, asid: nat, k: nat)
    requires k == |slots| - 1
    ensures WaitersOf(slots, uaddr, asid)
         == WaitersOf(slots[..k], uaddr, asid) + if On(slots[k], uaddr, asid) then {k} else {}
    ensures k !in WaitersOf(slots[..k], uaddr, asid)
  {
  }

  lemma FreedMore(slots: seq<Slot>, uaddr: nat, asid: nat, n: nat, k: nat)
    requires k == |slots| - 1
    ensures FreedBy(slots, uaddr, asid, n)
         == FreedBy(slots[..k], uaddr, asid, n) + if Chosen(slots, uaddr, asid, n, k) then {k} else {}
    ensures k !in FreedBy(slots[..k], uaddr, asid, n)
  {
    forall i | 0 <= i < k
      ensures Woken(slots[..k], uaddr, asid, n)[i] == Woken(slots, uaddr, asid, n)[i]
    {
      assert slots[..k][..i] == slots[..i];
    }
  }

  class Table {
    const slots: array<Slot>

    ghost predicate Valid()
    {
      slots.Length == FUTEX_MAX
    }

    /** futex_init. */
    constructor ()
      ensures Valid() && forall i :: 0 <= i < FUTEX_MAX ==> slots[i] == Free
    {
      slots := new Slot[FUTEX_MAX](_ => Free);
    }

    /** futex_wait by a task, up to the point where it blocks.  word is what the
        address holds, if it is mapped. */
    method Wait(uaddr: nat, asid: nat, task: nat, word: bool, value: nat, val: nat) returns (blocked: bool)
      requires Valid()
      modifies slots
      ensures blocked <==> uaddr != 0 && word && value == val && FirstFree(old(slots[..])) < FUTEX_MAX
      ensures slots[..] ==
              if blocked then old(slots[..])[FirstFree(old(slots[..])) := Waiting(uaddr, asid, task)]
              else old(slots[..])
    {
      if uaddr == 0 || !word || value != val { return false; }
      var i := 0;
      while i < FUTEX_MAX && slots[i].Waiting?
        invariant 0 <= i <= FUTEX_MAX && forall j :: 0 <= j < i ==> slots[j].Waiting?
      {
        i := i + 1;
      }
      assert i == FirstFree(slots[..]);
      if i >= FUTEX_MAX { return false; }
      slots[i] := Waiting(uaddr, asid, task);
      return true;
    }

    /** futex_wake: the number woken, or an error. */
    method Wake(uaddr: nat, asid: nat, n: int) returns (r: int)
      requires Valid()
      modifies slots
      ensures n <= 0 ==> r == -1
      ensures n > 0 && uaddr == 0 ==> r == 0
      ensures n > 0 && uaddr != 0 ==> r == Min(n, Count(old(slots[..]), uaddr, asid))
      ensures slots[..] == if n > 0 && uaddr != 0 then Woken(old(slots[..]), uaddr, asid, n) else old(slots[..])
    {
      if uaddr == 0 || n <= 0 { return if n <= 0 then -1 else 0; }
      var m := if n > FUTEX_MAX then FUTEX_MAX else n;
      ghost var was := slots[..];
      var woken, i := 0, 0;
      while i < FUTEX_MAX && woken < m
        invariant 0 <= i <= FUTEX_MAX && woken == Count(was[..i], uaddr, asid) <= m
        invariant forall j :: i <= j < FUTEX_MAX ==> slots[j] == was[j]
        invariant forall j :: 0 <= j < i ==> slots[j] == Woken(was, uaddr, asid, n)[j]
      {
        CountMonotone(was[..i], uaddr, asid, 0);
        assert was[..i + 1][..i] == was[..i];
        if slots[i].Waiting? && slots[i].uaddr == uaddr && slots[i].asid == asid {
          slots[i] := Free;
          woken := woken + 1;
        }
        i := i + 1;
      }
      WokenIsRest(was, uaddr, asid, n, m, i, woken);
      return woken;
    }
  }

  lemma WokenIsRest(was: seq<Slot>, uaddr: nat, asid: nat, n: nat, m: nat, i: nat, woken: nat)
    requires |was| == FUTEX_MAX && m == Min(n, FUTEX_MAX) && i <= FUTEX_MAX
    requires woken == Count(was[..i], uaddr, asid) <= m && (i == FUTEX_MAX || woken == m)
    ensures forall j :: i <= j < FUTEX_MAX ==> Woken(was, uaddr, asid, n)[j] == was[j]
    ensures woken == Min(n, Count(was, uaddr, asid))
  {
    CountMonotone(was, uaddr, asid, 0);
    CountMonotone(was, uaddr, asid, i);
    assert was[..FUTEX_MAX] == was;
    forall j | i <= j < FUTEX_MAX
      ensures Woken(was, uaddr, asid, n)[j] == was[j]
    {
      if On(was[j], uaddr, asid) {
        CountMonotone(was[..j], uaddr, asid, i);
        assert was[..j][..i] == was[..i];
        CountMonotone(was[..i], uaddr, asid, 0);
        CountMonotone(was[..j + 1], uaddr, asid, j);
        assert was[..j + 1][..j] == was[..j];
      }
    }
  }
}

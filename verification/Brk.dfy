// The program break of kernel/memory/brk.c, for one address space.

module Brk {
  import opened Words

  const BRK_BASE := 0x500_0000
  const BRK_MAX := 0x600_0000
  const PAGE := 0x1000

  /** The number of pages that begin below the address. */
  function PageUp(addr: nat): nat {
    (addr + PAGE - 1) / PAGE
  }

  /** The pages from a on and below b that are not mapped. */
  function Missing(mapped: set<nat>, a: nat, b: nat): set<nat> {
    set p | a <= p < b && p !in mapped
  }

  /** The mapped pages but for those from a on and below b. */
  function Outside(mapped: set<nat>, a: nat, b: nat): set<nat> {
    set p | p in mapped && !(a <= p < b)
  }

  /** The pages a break at cur lacks for one at want. */
  function Needed(mapped: set<nat>, cur: nat, want: nat): set<nat> {
    Missing(mapped, cur / PAGE, PageUp(want))
  }

  /** The break can be at want: it need not grow, or there are frames for what it lacks. */
  predicate Reaches(mapped: set<nat>, cur: nat, frames: nat, want: nat) {
    want <= BRK_MAX && (want <= cur || |Needed(mapped, cur, want)| <= frames)
  }

  /** Every byte from the base up to the break is on a mapped page. */
  ghost predicate Covered(mapped: set<nat>, cur: nat) {
    forall p: nat :: BRK_BASE <= p * PAGE < cur ==> p in mapped
  }

  class Break {
    var cur: u32
    // The page numbers that paging_get_phys finds mapped.
    var mapped: set<nat>
    // How many frames pmm_alloc_frame can still hand out.
    var frames: nat

    ghost predicate Valid()
      reads this
    {
      BRK_BASE <= cur <= BRK_MAX && Covered(mapped, cur)
    }

    /** The break is set up by the first call. */
    constructor (free: nat)
      ensures Valid() && cur == BRK_BASE && frames == free && mapped == {}
    {
      cur, mapped, frames := BRK_BASE, {}, free;
    }

    /** sys_brk.  Running out of frames leaves the break where the mapping got to. */
    method Set(want: u32) returns (r: u32)
      requires Valid()
      modifies this
      ensures Valid() && r == cur
      ensures want < BRK_BASE || want > BRK_MAX ==>
                cur == old(cur) && mapped == old(mapped) && frames == old(frames)
      // It gets where it should exactly if it can, and otherwise as far as it can.
      ensures BRK_BASE <= want ==> (cur == want <==> Reaches(old(mapped), old(cur), old(frames), want))
      ensures old(cur) < want <= BRK_MAX ==>
        && old(cur) <= cur <= want && mapped == old(mapped) + Needed(old(mapped), old(cur), cur)
        && (cur < want ==> cur % PAGE == 0 && frames == 0 && cur / PAGE !in mapped)
      ensures BRK_BASE <= want <= old(cur) ==>
        mapped == Outside(old(mapped), PageUp(want), PageUp(old(cur)))
      // Frames are neither lost nor found.
      ensures frames + |mapped| == old(frames) + |old(mapped)|
    {
      if want == 0 || want < BRK_BASE || want > BRK_MAX { return cur; }
      if want > cur {
        Grow(want);
      } else if want < cur {
        Shrink(want);
      }
      return cur;
    }

    method Grow(want: u32)
      requires Valid() && cur < want <= BRK_MAX
      modifies this
      ensures Valid() && old(cur) <= cur <= want
      ensures cur == want <==> |Needed(old(mapped), old(cur), want)| <= old(frames)
      ensures mapped == old(mapped) + Needed(old(mapped), old(cur), cur)
      ensures cur < want ==> cur % PAGE == 0 && frames == 0 && cur / PAGE !in mapped
      ensures frames + |mapped| == old(frames) + |old(mapped)|
    {
      hide Missing, Covered, PageUp;
      ghost var was, from := mapped, cur / PAGE;
      var page := MapUpTo(want);
      SizeAdded(was, from, page);
      PageUpAt(page);
      if page * PAGE < want {
        BeforeEnd(page, want);
        CoveredPage(mapped, cur, page);
        MoreMissing(was, from, page, PageUp(want));
        cur := page * PAGE;
        return;
      }
      AtEnd(page, want);
      CoveredBelow(mapped, page * PAGE, want);
      cur := want;
    }

    /** Maps the pages below want, as far as there are frames. */
    method MapUpTo(want: u32) returns (page: nat)
      requires Valid() && cur < want <= BRK_MAX
      modifies this`mapped, this`frames
      ensures cur / PAGE <= page && page * PAGE < want + PAGE && Covered(mapped, cur) && Covered(mapped, page * PAGE)
      ensures mapped == old(mapped) + Missing(old(mapped), cur / PAGE, page)
      ensures frames + |Missing(old(mapped), cur / PAGE, page)| == old(frames)
      ensures page * PAGE < want ==> frames == 0 && page !in mapped && page !in old(mapped)
    {
      hide Missing, Covered, PageUp;
      ghost var was, from := mapped, cur / PAGE;
      page := cur / PAGE;
      MissingNone(was, page);
      CoveredBelow(mapped, cur, page * PAGE);
      while page * PAGE < want
        invariant from <= page && Covered(mapped, cur)
        invariant page * PAGE < want + PAGE && Covered(mapped, page * PAGE)
        invariant mapped == was + Missing(was, from, page) && frames + |Missing(was, from, page)| == old(frames)
        decreases want + PAGE - page * PAGE
      {
        MissingNext(was, from, page);
        ghost var now := mapped;
        var done := MapPage(page);
        if !done { return; }
        CoveredMore(now, cur, page);
        CoveredNext(mapped, page);
        page := page + 1;
      }
    }

    /** One page: mapped already, or mapped to a new frame if there is one. */
    method MapPage(page: nat) returns (done: bool)
      modifies this`mapped, this`frames
      ensures done <==> page in old(mapped) || old(frames) > 0
      ensures mapped == (if done then old(mapped) + {page} else old(mapped))
      ensures frames == old(frames) - if done && page !in old(mapped) then 1 else 0
    {
      if page !in mapped {
        if frames == 0 { return false; }
        frames := frames - 1;
        mapped := mapped + {page};
      }
      return true;
    }

    method Shrink(want: u32)
      requires Valid() && BRK_BASE <= want < cur
      modifies this
      ensures Valid() && cur == want
      ensures mapped == Outside(old(mapped), PageUp(want), PageUp(old(cur)))
      ensures frames + |mapped| == old(frames) + |old(mapped)|
    {
      var page, end := PageUp(want), PageUp(cur);
      cur := want;
      while page < end
        invariant cur == want && PageUp(want) <= page <= end && Valid()
        invariant mapped == Outside(old(mapped), PageUp(want), page)
        invariant frames + |mapped| == old(frames) + |old(mapped)|
      {
        if page in mapped { frames := frames + 1; }
        mapped := mapped - {page};
        page := page + 1;
      }
    }
  }

  lemma CoveredBelow(mapped: set<nat>, cur: nat, addr: nat)
    requires Covered(mapped, cur) && addr <= cur
    ensures Covered(mapped, addr)
  {
  }

  lemma CoveredMore(mapped: set<nat>, cur: nat, page: nat)
    ensures Covered(mapped, cur) ==> Covered(mapped + {page}, cur)
    ensures Covered(mapped, page * PAGE) ==> Covered(mapped + {page}, page * PAGE)
  {
  }

  lemma CoveredNext(mapped: set<nat>, page: nat)
    requires Covered(mapped, page * PAGE) && page in mapped
    ensures Covered(mapped, (page + 1) * PAGE)
  {
  }

  lemma CoveredPage(mapped: set<nat>, cur: nat, page: nat)
    requires Covered(mapped, cur) && page !in mapped && BRK_BASE <= cur && cur / PAGE <= page
    ensures cur <= page * PAGE
  {
    assert page * PAGE < cur ==> BRK_BASE <= page * PAGE < cur;
  }

  lemma BeforeEnd(page: nat, want: nat)
    requires page * PAGE < want
    ensures page < PageUp(want)
  {
  }

  lemma AtEnd(page: nat, want: nat)
    requires want <= page * PAGE < want + PAGE
    ensures page == PageUp(want)
  {
  }

  lemma PageUpAt(page: nat)
    ensures PageUp(page * PAGE) == page && page * PAGE / PAGE == page
  {
  }

  lemma MissingNone(mapped: set<nat>, a: nat)
    ensures Missing(mapped, a, a) == {}
  {
  }

  lemma MissingNext(mapped: set<nat>, a: nat, b: nat)
    requires a <= b
    ensures Missing(mapped, a, b + 1) == Missing(mapped, a, b) + if b in mapped then {} else {b}
    ensures |Missing(mapped, a, b + 1)| == |Missing(mapped, a, b)| + if b in mapped then 0 else 1
    ensures b !in Missing(mapped, a, b)
  {
    assert Missing(mapped, a, b + 1) == Missing(mapped, a, b) + if b in mapped then {} else {b};
  }

  /** A page that cannot be had is one too many. */
  lemma MoreMissing(mapped: set<nat>, a: nat, b: nat, c: nat)
    requires a <= b < c && b !in mapped
    ensures |Missing(mapped, a, b)| < |Missing(mapped, a, c)|
  {
    var few, all := Missing(mapped, a, b) + {b}, Missing(mapped, a, c);
    assert all == few + (all - few);
  }

  lemma SizeAdded(mapped: set<nat>, a: nat, b: nat)
    ensures |mapped + Missing(mapped, a, b)| == |mapped| + |Missing(mapped, a, b)|
  {
  }
}

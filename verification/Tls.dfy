// The alignment arithmetic of user/dl.c's TLS layout, in 32-bit words.

module Tls {
  import opened Words

  /** x & ~m on naturals, bit by bit. */
  function AndNot(x: nat, m: nat): (r: nat)
    ensures r <= x
  {
    if x == 0 then 0
    else 2 * AndNot(x / 2, m / 2) + if x % 2 == 1 && m % 2 == 0 then 1 else 0
  }

  predicate PowerOfTwo(a: nat) {
    a == 1 || (a > 1 && a % 2 == 0 && PowerOfTwo(a / 2))
  }

  /** Clearing the low bits of a power of two rounds down to a multiple. */
  lemma {:induction false} AndNotIsRoundDown(x: nat, a: nat)
    requires PowerOfTwo(a)
    ensures AndNot(x, a - 1) == x / a * a
    decreases a
  {
    if a == 1 {
      AndNotZero(x);
    } else {
      var h := a / 2;
      AndNotIsRoundDown(x / 2, h);
      AndNotHalves(x, h);
      HalveQuotient(x, h);
    }
  }

  lemma AndNotHalves(x: nat, h: nat)
    requires h > 0
    ensures AndNot(x, 2 * h - 1) == 2 * AndNot(x / 2, h - 1)
  {
    assert (2 * h - 1) / 2 == h - 1 && (2 * h - 1) % 2 == 1;
  }

  lemma {:induction false} AndNotZero(x: nat)
    ensures AndNot(x, 0) == x
  {
    if x > 0 { AndNotZero(x / 2); }
  }

  lemma HalveQuotient(x: nat, h: nat)
    requires h > 0
    ensures x / (2 * h) == (x / 2) / h
    ensures x / (2 * h) * (2 * h) == 2 * ((x / 2) / h * h)
  {
    var q := (x / 2) / h;
    assert q * h <= x / 2 < q * h + h;
    assert q * (2 * h) == 2 * (q * h);
    DivIs(x, 2 * h, q);
  }

  /** Where the next module goes: (used + al - 1) & ~(al - 1) in 32 bits. */
  function Place(used: nat, al: nat): nat
    requires al > 0
  {
    AndNot((used + al - 1) % U32, al - 1)
  }

  lemma DivBounds(x: nat, d: nat)
    requires d > 0
    ensures x / d * d <= x < x / d * d + d && x / d * d % d == 0
  {
    MultipleMod(x / d, d);
  }

  /** Without wrap-around it is the least multiple of al from used on. */
  lemma PlaceIs(used: nat, al: nat)
    requires PowerOfTwo(al) && used + al - 1 < U32
    ensures Place(used, al) == (used + al - 1) / al * al
    ensures used <= Place(used, al) < used + al && Place(used, al) % al == 0
  {
    var x := used + al - 1;
    Small(x, U32);
    AndNotIsRoundDown(x, al);
    DivBounds(x, al);
  }

  lemma MultipleMod(q: nat, d: nat)
    requires d > 0
    ensures q * d % d == 0
  {
    DivIs(q * d, d, q);
  }

  /** The words dl_open_mode stores for a new module: its offset and the new total. */
  function NewTotal(used: nat, al: nat, mem: nat): nat
    requires al > 0
  {
    (Place(used, al) + mem) % U32
  }

  /** A mask takes away no more than its own value. */
  lemma {:induction false} AndNotTakes(x: nat, m: nat)
    ensures x <= AndNot(x, m) + m
  {
    if x > 0 { AndNotTakes(x / 2, m / 2); }
  }

  lemma {:induction false} AndNotSelf(m: nat)
    ensures AndNot(m, m) == 0
  {
    if m > 0 { AndNotSelf(m / 2); }
  }

  /** Whatever the alignment, the offset is not below the end of the previous module, and
      less than one alignment above it. */
  lemma PlaceAbove(used: nat, al: nat)
    requires al > 0 && used + al - 1 < U32
    ensures used <= Place(used, al) < used + al && (used == 0 ==> Place(used, al) == 0)
    ensures Seated(Place(used, al), al)
  {
    hide AndNot, Aligned;
    Small(used + al - 1, U32);
    AndNotTakes(used + al - 1, al - 1);
    AndNotSelf(al - 1);
    if PowerOfTwo(al) {
      PlaceIs(used, al);
      AlignedIs(Place(used, al), al);
    }
  }

  /** For every alignment: behind the modules already placed, the new range is clear of
      all of [0, used) exactly when the first sum does not wrap, and inside the new total
      exactly when the second does not.  For a power of two it is aligned besides, and
      the condition can be checked before the call. */
  lemma PlacementExact(used: nat, al: nat, mem: nat)
    requires 0 < al < U32 && used < U32 && 0 < mem < U32
    ensures used <= Place(used, al) <==> used + al - 1 < U32
    ensures Place(used, al) + mem <= NewTotal(used, al, mem) <==> Place(used, al) + mem < U32
    ensures PowerOfTwo(al) ==>
      (Place(used, al) % al == 0 && used <= Place(used, al) && Place(used, al) + mem <= NewTotal(used, al, mem)
       <==> used + al - 1 < U32 && (used + al - 1) / al * al + mem < U32)
  {
    hide AndNot;
    if used + al - 1 < U32 {
      PlaceAbove(used, al);
      if PowerOfTwo(al) { PlaceIs(used, al); }
    } else {
      WrappedWord(used + al - 1);
    }
    if Place(used, al) + mem < U32 {
      Small(Place(used, al) + mem, U32);
    } else {
      WrappedWord(Place(used, al) + mem);
    }
  }

  lemma WrappedWord(x: nat)
    requires U32 <= x < 2 * U32
    ensures x % U32 == x - U32
  {
  }

  /** With an alignment of which nothing is known the mask rounds to multiples of it,
      wherever the sum does not wrap, exactly when it is a power of two. */
  lemma AlignedIff(al: nat)
    requires 0 < al < U32
    ensures (forall used: nat :: used + al - 1 < U32 ==> Place(used, al) % al == 0) <==> PowerOfTwo(al)
  {
    if PowerOfTwo(al) {
      forall used: nat | used + al - 1 < U32
        ensures Place(used, al) % al == 0
      {
        PlaceIs(used, al);
      }
    } else {
      var used := Misplaced(al);
      assert used + al - 1 < U32 && Place(used, al) % al != 0;
    }
  }

  /** Behind this many bytes such an alignment is missed. */
  lemma Misplaced(al: nat) returns (used: nat)
    requires 0 < al < U32 && !PowerOfTwo(al)
    ensures used + al - 1 < U32 && Place(used, al) % al != 0
  {
    hide AndNot;
    var p := Straddle(al);
    if al > U32 / 2 {
      used := U32 - al;
      MissedHigh(al);
    } else {
      used := 2 * p - al + 1;
      MissedLow(al, p);
    }
  }

  lemma MissedHigh(al: nat)
    requires U32 / 2 < al < U32
    ensures Place(U32 - al, al) % al != 0
  {
    hide AndNot, Ones;
    OnesAre();
    AllOnes(32, al - 1);
    Small(U32 - 1, U32);
    Small(U32 - al, al);
  }

  lemma MissedLow(al: nat, p: nat)
    requires PowerOfTwo(p) && p < al < 2 * p < U32
    ensures Place(2 * p - al + 1, al) % al != 0
  {
    hide AndNot;
    Small(2 * p, U32);
    assert 2 * p / 2 == p;
    AndNotAbove(2 * p, al - 1);
    Remainder(2 * p, al);
  }

  lemma Remainder(x: nat, d: nat)
    requires d < x < 2 * d
    ensures x % d != 0
  {
    DivIs(x, d, 1);
  }

  /** The largest power of two below a number that is none. */
  lemma Straddle(al: nat) returns (p: nat)
    requires al > 0 && !PowerOfTwo(al)
    ensures PowerOfTwo(p) && p < al < 2 * p
  {
    p := 1;
    while 2 * p <= al
      invariant PowerOfTwo(p) && p <= al
      decreases al - p
    {
      assert 2 * p / 2 == p && PowerOfTwo(2 * p);
      p := 2 * p;
    }
  }

  /** A power of two keeps its one bit under a mask below it. */
  lemma {:induction false} AndNotAbove(q: nat, m: nat)
    requires PowerOfTwo(q) && m < q
    ensures AndNot(q, m) == q
  {
    if q == 1 {
      assert AndNot(0, 0) == 0;
    } else {
      AndNotAbove(q / 2, m / 2);
    }
  }

  function Ones(n: nat): nat {
    if n == 0 then 0 else 2 * Ones(n - 1) + 1
  }

  lemma OnesAre()
    ensures Ones(32) == U32 - 1
  {
    assert Ones(4) == 0xF;
    assert Ones(8) == 0xFF;
    assert Ones(12) == 0xFFF;
    assert Ones(16) == 0xFFFF;
    assert Ones(20) == 0xF_FFFF;
    assert Ones(24) == 0xFF_FFFF;
    assert Ones(28) == 0xFFF_FFFF;
  }

  /** Clearing bits of a word of ones leaves the complement. */
  lemma {:induction false} AllOnes(n: nat, m: nat)
    requires m <= Ones(n)
    ensures AndNot(Ones(n), m) == Ones(n) - m
  {
    if n > 0 {
      AllOnes(n - 1, m / 2);
    }
  }

  /** For example: behind 4 bytes alignment 3 gives offset 4. */
  lemma PlaceNeedsPowerOfTwo()
    ensures Place(4, 3) == 4 && Place(4, 3) % 3 != 0
  {
    assert AndNot(6, 2) == 4 by {
      assert AndNot(1, 0) == 1 by { assert AndNot(0, 0) == 0; }
      assert AndNot(3, 1) == 2;
    }
  }

  /** off is a multiple of al, counted down so that no division is involved. */
  predicate Aligned(off: nat, al: nat) {
    al > 0 && (off == 0 || (off >= al && Aligned(off - al, al)))
  }

  /** Aligned, as far as the mask can align. */
  predicate Seated(off: nat, al: nat) {
    PowerOfTwo(al) ==> Aligned(off, al)
  }

  lemma {:induction false} AlignedIs(off: nat, al: nat)
    requires al > 0
    ensures Aligned(off, al) <==> off % al == 0
    decreases off
  {
    if off >= al {
      AlignedIs(off - al, al);
      var q, r := off / al, off % al;
      assert (q - 1) * al + r == off - al;
      DivIs(off - al, al, q - 1);
    }
  }
}

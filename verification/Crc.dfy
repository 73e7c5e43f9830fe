// The table-driven CRC-32 of kernel/drivers/gpt.c against the bit-at-a-time CRC.

module Crc {
  const ONES: bv32 := 0xFFFF_FFFF

  // Words and the few facts about them the rest is built on.

  function Xor(x: bv32, y: bv32): bv32 {
    x ^ y
  }

  function Wide(b: bv8): bv32 {
    b as bv32
  }

  function Low(x: bv32): bv32 {
    x & 0xFF
  }

  function High(x: bv32): bv32 {
    x & 0xFFFF_FF00
  }

  /** x >> 8 */
  function Down(x: bv32): bv32 {
    x >> 8
  }

  lemma XorCommutes(x: bv32, y: bv32)
    ensures Xor(x, y) == Xor(y, x)
  {
  }

  lemma XorAssociates(x: bv32, y: bv32, z: bv32)
    ensures Xor(Xor(x, y), z) == Xor(x, Xor(y, z))
  {
  }

  lemma XorCancels(x: bv32, y: bv32)
    ensures Xor(x, x) == 0 && Xor(x, 0) == x && (Xor(x, y) == 0 <==> x == y)
  {
  }

  // ----- One bit at a time ----------------------------------------------------------------

  /** The shift register: one position, with the reflected polynomial fed back. */
  function Shift(c: bv32): bv32 {
    if c & 1 == 1 then 0xEDB8_8320 ^ (c >> 1) else c >> 1
  }

  /** One message bit enters the register. */
  function BitStep(c: bv32, bit: bool): bv32 {
    Shift(Xor(c, if bit then 1 else 0))
  }

  function Bits(c: bv32, bits: seq<bool>): bv32 {
    if bits == [] then c else BitStep(Bits(c, bits[..|bits| - 1]), bits[|bits| - 1])
  }

  function Half(x: bv32): bv32 {
    x >> 1
  }

  predicate Odd(x: bv32) {
    x & 1 == 1
  }

  /** A byte without its k lowest bits. */
  function Drop(b: bv8, k: nat): bv32 {
    if k == 0 then Wide(b) else Half(Drop(b, k - 1))
  }

  /** The bits of a byte, least significant first. */
  function BitsOf(b: bv8): seq<bool> {
    seq(8, k requires 0 <= k < 8 => Odd(Drop(b, k)))
  }

  function AllBits(p: seq<bv8>): seq<bool> {
    if p == [] then [] else AllBits(p[..|p| - 1]) + BitsOf(p[|p| - 1])
  }

  /** The reflected CRC-32 of a message. */
  function Crc32(p: seq<bv8>): bv32 {
    Xor(Bits(ONES, AllBits(p)), ONES)
  }

  // ----- One byte at a time ----------------------------------------------------------------

  function Two(c: bv32): bv32 {
    Shift(Shift(c))
  }

  function Four(c: bv32): bv32 {
    Two(Two(c))
  }

  function Eight(c: bv32): bv32 {
    Four(Four(c))
  }

  /** A whole byte enters the register. */
  function ByteStep(c: bv32, b: bv8): bv32 {
    Eight(Xor(c, Wide(b)))
  }

  function Run(c: bv32, p: seq<bv8>): bv32 {
    if p == [] then c else ByteStep(Run(c, p[..|p| - 1]), p[|p| - 1])
  }

  // The register is linear.

  lemma LowBit(x: bv32)
    ensures x & 1 == 0 || x & 1 == 1
  {
  }

  lemma BothFeed(x: bv32, y: bv32)
    requires x & 1 == 1 && y & 1 == 1
    ensures Shift(Xor(x, y)) == Xor(Shift(x), Shift(y))
  {
  }

  lemma OneFeeds(x: bv32, y: bv32)
    requires x & 1 == 1 && y & 1 == 0
    ensures Shift(Xor(x, y)) == Xor(Shift(x), Shift(y))
  {
  }

  lemma NeitherFeeds(x: bv32, y: bv32)
    requires x & 1 == 0 && y & 1 == 0
    ensures Shift(Xor(x, y)) == Xor(Shift(x), Shift(y))
  {
  }

  lemma ShiftLinear(x: bv32, y: bv32)
    ensures Shift(Xor(x, y)) == Xor(Shift(x), Shift(y))
  {
    hide Shift, Xor;
    LowBit(x);
    LowBit(y);
    if x & 1 == 1 {
      if y & 1 == 1 { BothFeed(x, y); } else { OneFeeds(x, y); }
    } else if y & 1 == 1 {
      OneFeeds(y, x);
      XorCommutes(x, y);
      XorCommutes(Shift(x), Shift(y));
    } else {
      NeitherFeeds(x, y);
    }
  }

  lemma EightLinear(x: bv32, y: bv32)
    ensures Eight(Xor(x, y)) == Xor(Eight(x), Eight(y))
  {
    hide Shift, Two, Four, Xor;
    FourLinear(x, y);
    FourLinear(Four(x), Four(y));
  }

  lemma FourLinear(x: bv32, y: bv32)
    ensures Four(Xor(x, y)) == Xor(Four(x), Four(y))
  {
    hide Shift, Two, Xor;
    TwoLinear(x, y);
    TwoLinear(Two(x), Two(y));
  }

  lemma TwoLinear(x: bv32, y: bv32)
    ensures Two(Xor(x, y)) == Xor(Two(x), Two(y))
  {
    hide Shift, Xor;
    ShiftLinear(x, y);
    ShiftLinear(Shift(x), Shift(y));
  }

  /** Bits that do not reach the low end come out unchanged. */
  lemma EightShifts(x: bv32)
    requires Low(x) == 0
    ensures Eight(x) == Down(x)
  {
  }

  lemma Halves(x: bv32)
    ensures x == Xor(Low(x), High(x))
  {
  }

  lemma HighHasNoLow(x: bv32)
    ensures Low(High(x)) == 0 && Down(High(x)) == Down(x)
  {
  }

  lemma DownDropsByte(c: bv32, b: bv8)
    ensures Down(Xor(c, Wide(b))) == Down(c)
  {
  }

  /** The step of crc32: the low byte through the table, the rest shifted down. */
  lemma TableStep(c: bv32, b: bv8)
    ensures Xor(Eight(Low(Xor(c, Wide(b)))), Down(c)) == ByteStep(c, b)
  {
    hide Eight, Xor, Wide, Low, High, Down;
    var x := Xor(c, Wide(b));
    Halves(x);
    HighHasNoLow(x);
    DownDropsByte(c, b);
    EightLinear(Low(x), High(x));
    EightShifts(High(x));
  }

  // ----- Bytes are bits ----------------------------------------------------------------------

  lemma Unbit(w: bv32)
    ensures Xor(if Odd(w) then 1 else 0, High1(w)) == w
    ensures Shift(High1(w)) == Half(w)
  {
    if Odd(w) { UnbitOdd(w); } else { UnbitEven(w); }
  }

  function High1(x: bv32): bv32 {
    x & 0xFFFF_FFFE
  }

  lemma UnbitOdd(w: bv32)
    requires Odd(w)
    ensures Xor(1, High1(w)) == w && Shift(High1(w)) == Half(w)
  {
  }

  lemma UnbitEven(w: bv32)
    requires !Odd(w)
    ensures Xor(0, High1(w)) == w && Shift(High1(w)) == Half(w)
  {
  }

  /** One shift of a register that w has been mixed into takes in w's lowest bit. */
  lemma OneBit(s: bv32, w: bv32)
    ensures Shift(Xor(s, w)) == Xor(BitStep(s, Odd(w)), Half(w))
  {
    hide Xor, Shift, Odd, Half, High1;
    var bit: bv32 := if Odd(w) then 1 else 0;
    Unbit(w);
    XorAssociates(s, bit, High1(w));
    ShiftLinear(Xor(s, bit), High1(w));
  }

  function Shifts(c: bv32, k: nat): bv32 {
    if k == 0 then c else Shift(Shifts(c, k - 1))
  }

  lemma {:induction false} FirstBits(c: bv32, b: bv8, k: nat)
    requires k <= 8
    ensures Shifts(Xor(c, Wide(b)), k) == Xor(Bits(c, BitsOf(b)[..k]), Drop(b, k))
  {
    hide Xor, Shift, Odd, Half, BitStep;
    if k > 0 {
      FirstBits(c, b, k - 1);
      var bits := BitsOf(b);
      assert bits[..k][..k - 1] == bits[..k - 1];
      OneBit(Bits(c, bits[..k - 1]), Drop(b, k - 1));
    }
  }

  lemma ShiftsEight(c: bv32)
    ensures Shifts(c, 8) == Eight(c)
  {
    hide Shift;
    assert Shifts(c, 1) == Shift(c);
    assert Shifts(c, 2) == Two(c);
    assert Shifts(c, 4) == Four(c);
    assert Shifts(c, 6) == Two(Four(c));
  }

  lemma NothingLeft(b: bv8)
    ensures Drop(b, 8) == 0
  {
    hide Half, Wide;
    assert Drop(b, 1) == Half(Wide(b));
    assert Drop(b, 2) == Half(Half(Wide(b)));
    assert Drop(b, 4) == Half(Half(Half(Half(Wide(b)))));
    assert Drop(b, 6) == Half(Half(Half(Half(Half(Half(Wide(b)))))));
    HalvedAway(b);
  }

  lemma HalvedAway(b: bv8)
    ensures Half(Half(Half(Half(Half(Half(Half(Half(Wide(b))))))))) == 0
  {
  }

  /** Taking a byte in at once is taking in its bits one by one. */
  lemma ByteIsBits(c: bv32, b: bv8)
    ensures ByteStep(c, b) == Bits(c, BitsOf(b))
  {
    hide Xor, Shift, Half, Wide, Two, Four, Eight;
    FirstBits(c, b, 8);
    assert BitsOf(b)[..8] == BitsOf(b);
    ShiftsEight(Xor(c, Wide(b)));
    NothingLeft(b);
    XorCancels(Bits(c, BitsOf(b)), 0);
  }

  lemma {:induction false} BitsConcat(c: bv32, a: seq<bool>, b: seq<bool>)
    ensures Bits(c, a + b) == Bits(Bits(c, a), b)
    decreases |b|
  {
    if b == [] {
      assert a + b == a;
    } else {
      var ab := a + b;
      assert ab[..|ab| - 1] == a + b[..|b| - 1];
      BitsConcat(c, a, b[..|b| - 1]);
    }
  }

  /** So a run over bytes is a run over the message's bits. */
  lemma {:induction false} RunIsBits(c: bv32, p: seq<bv8>)
    ensures Run(c, p) == Bits(c, AllBits(p))
  {
    if p != [] {
      var init := p[..|p| - 1];
      RunIsBits(c, init);
      ByteIsBits(Run(c, init), p[|p| - 1]);
      BitsConcat(c, AllBits(init), BitsOf(p[|p| - 1]));
    }
  }

  /** The check value of this CRC: the checksum of "123456789". */
  lemma CheckValue()
    ensures Crc32([0x31, 0x32, 0x33, 0x34, 0x35, 0x36, 0x37, 0x38, 0x39]) == 0xCBF4_3926
  {
    hide ByteStep, Run, Bits, AllBits;
    var p: seq<bv8> := [0x31, 0x32, 0x33, 0x34, 0x35, 0x36, 0x37, 0x38, 0x39];
    assert p[..0] == [] && p[..9] == p;
    RunNone(ONES);
    CheckSteps();
    RunNext(p, 0, 0x7C23_1048);
    RunNext(p, 1, 0xB0AC_BB32);
    RunNext(p, 2, 0x77B7_9C2D);
    RunNext(p, 3, 0x641C_1F5C);
    RunNext(p, 4, 0x340A_C5E3);
    RunNext(p, 5, 0xF68D_2C9E);
    RunNext(p, 6, 0xAFFC_9660);
    RunNext(p, 7, 0x651F_2550);
    RunNext(p, 8, 0x340B_C6D9);
    RunIsBits(ONES, p);
  }

  lemma RunNone(c: bv32)
    ensures Run(c, []) == c
  {
  }

  lemma RunNext(p: seq<bv8>, k: nat, r: bv32)
    requires k < |p| && ByteStep(Run(ONES, p[..k]), p[k]) == r
    ensures Run(ONES, p[..k + 1]) == r
  {
    hide ByteStep;
    assert p[..k + 1][..k] == p[..k];
  }

  lemma CheckSteps()
    ensures ByteStep(ONES, 0x31) == 0x7C23_1048
    ensures ByteStep(0x7C23_1048, 0x32) == 0xB0AC_BB32
    ensures ByteStep(0xB0AC_BB32, 0x33) == 0x77B7_9C2D
    ensures ByteStep(0x77B7_9C2D, 0x34) == 0x641C_1F5C
    ensures ByteStep(0x641C_1F5C, 0x35) == 0x340A_C5E3
    ensures ByteStep(0x340A_C5E3, 0x36) == 0xF68D_2C9E
    ensures ByteStep(0xF68D_2C9E, 0x37) == 0xAFFC_9660
    ensures ByteStep(0xAFFC_9660, 0x38) == 0x651F_2550
    ensures ByteStep(0x651F_2550, 0x39) == 0x340B_C6D9
  {
  }

  /** The running value may be carried from one buffer to the next. */
  lemma {:induction false} RunConcat(c: bv32, a: seq<bv8>, b: seq<bv8>)
    ensures Run(c, a + b) == Run(Run(c, a), b)
    decreases |b|
  {
    if b == [] {
      assert a + b == a;
    } else {
      var ab := a + b;
      assert ab[..|ab| - 1] == a + b[..|b| - 1];
      RunConcat(c, a, b[..|b| - 1]);
    }
  }

  // ----- What the CRC detects ------------------------------------------------------------------

  /** Four bytes' worth of differences as one word, the first byte lowest. */
  function Pack(a: seq<bv8>, b: seq<bv8>): bv32
    requires |a| == |b|
  {
    if a == [] then 0 else Xor(Xor(Wide(a[0]), Wide(b[0])), Up(Pack(a[1..], b[1..])))
  }

  function Up(x: bv32): bv32 {
    x << 8
  }

  /** x has at most n significant bytes. */
  predicate Fits(x: bv32, n: nat) {
    if n == 0 then x == 0 else if n == 1 then x & 0xFFFF_FF00 == 0 else if n == 2 then x & 0xFFFF_0000 == 0
    else if n == 3 then x & 0xFF00_0000 == 0 else true
  }

  lemma FitsUp(d: bv32, a: bv8, b: bv8, n: nat)
    requires Fits(d, n)
    ensures Fits(Xor(Xor(Wide(a), Wide(b)), Up(d)), n + 1)
  {
  }

  lemma {:induction false} PackFits(a: seq<bv8>, b: seq<bv8>)
    requires |a| == |b|
    ensures Fits(Pack(a, b), |a|)
  {
    hide Fits, Xor, Wide, Up;
    if a == [] {
      NoneFits();
    } else {
      PackFits(a[1..], b[1..]);
      FitsUp(Pack(a[1..], b[1..]), a[0], b[0], |a| - 1);
    }
  }

  lemma NoneFits()
    ensures Fits(0, 0)
  {
  }

  function Twice(x: bv32): bv32 {
    x << 1
  }

  predicate TopBit(x: bv32) {
    x & 0x8000_0000 != 0
  }

  /** The polynomial sets the top bit: if it is clear nothing was fed back. */
  lemma Unshift(x: bv32)
    requires !TopBit(Shift(x))
    ensures x == Twice(Shift(x))
  {
  }

  function Times2(x: bv32, k: nat): bv32
    decreases k
  {
    if k == 0 then x else Times2(Twice(x), k - 1)
  }

  /** The k highest bits are clear. */
  predicate TopClear(x: bv32, k: nat)
    decreases k
  {
    k == 0 || (!TopBit(x) && TopClear(Twice(x), k - 1))
  }

  lemma {:induction false} UnshiftAll(x: bv32, k: nat)
    requires TopClear(Shifts(x, k), k)
    ensures x == Times2(Shifts(x, k), k)
  {
    hide Shift, Twice, TopBit;
    if k > 0 {
      Unshift(Shifts(x, k - 1));
      UnshiftAll(x, k - 1);
    }
  }

  function Both(x: bv32, y: bv32): bv32 {
    x & y
  }

  /** The k highest bits of a mask are set. */
  predicate TopSet(m: bv32, k: nat)
    decreases k
  {
    k == 0 || (TopBit(m) && TopSet(Twice(m), k - 1))
  }

  lemma MaskStep(x: bv32, m: bv32)
    requires Both(x, m) == 0
    ensures Both(Twice(x), Twice(m)) == 0 && (TopBit(m) ==> !TopBit(x))
  {
  }

  lemma {:induction false} MaskClears(x: bv32, m: bv32, k: nat)
    requires Both(x, m) == 0 && TopSet(m, k)
    ensures TopClear(x, k)
    decreases k
  {
    hide Both, TopBit, Twice;
    if k > 0 {
      MaskStep(x, m);
      MaskClears(Twice(x), Twice(m), k - 1);
    }
  }

  lemma TopByteClear(x: bv32)
    requires Fits(x, 3)
    ensures TopClear(x, 8)
  {
    assert TopSet(0xF000_0000, 4);
    assert TopSet(0xFF00_0000, 8);
    MaskClears(x, 0xFF00_0000, 8);
  }

  lemma Doubled(x: bv32)
    ensures Times2(x, 8) == Up(x)
  {
    hide Twice, Up;
    DoubledOut(x);
    var x1 := Twice(x);
    var x2 := Twice(x1);
    var x3 := Twice(x2);
    var x4 := Twice(x3);
    var x5 := Twice(x4);
    var x6 := Twice(x5);
    assert Times2(Twice(x6), 1) == Twice(Twice(x6));
    assert Times2(x6, 2) == Twice(Twice(x6));
    assert Times2(x5, 3) == Times2(x4, 4) == Twice(Twice(x6));
    assert Times2(x3, 5) == Times2(x2, 6) == Twice(Twice(x6));
    assert Times2(x1, 7) == Twice(Twice(x6));
  }

  lemma DoubledOut(x: bv32)
    ensures Twice(Twice(Twice(Twice(Twice(Twice(Twice(Twice(x)))))))) == Up(x)
  {
  }

  lemma EightUndone(x: bv32)
    requires Fits(Eight(x), 3)
    ensures x == Up(Eight(x))
  {
    hide Shift, Fits, Up, Eight, Two, Four;
    ShiftsEight(x);
    TopByteClear(Eight(x));
    UnshiftAll(x, 8);
    Doubled(Eight(x));
  }

  /** Register contents that end up equal after at most four bytes each differ by
      exactly those bytes' differences. */
  lemma {:induction false} Back(s: bv32, t: bv32, a: seq<bv8>, b: seq<bv8>)
    requires |a| == |b| <= 4 && Run(s, a) == Run(t, b)
    ensures Xor(s, t) == Pack(a, b)
    decreases |a|
  {
    hide Xor, Wide, Up, Eight, Fits;
    if a == [] {
      XorCancels(s, t);
    } else {
      RunFirst(s, a);
      RunFirst(t, b);
      var s', t' := ByteStep(s, a[0]), ByteStep(t, b[0]);
      Back(s', t', a[1..], b[1..]);
      var x, y := Xor(s, Wide(a[0])), Xor(t, Wide(b[0]));
      EightLinear(x, y);
      PackFits(a[1..], b[1..]);
      FitsThree(Pack(a[1..], b[1..]), |a| - 1);
      EightUndone(Xor(x, y));
      Regroup(s, t, Wide(a[0]), Wide(b[0]), Up(Pack(a[1..], b[1..])));
    }
  }

  lemma RunFirst(c: bv32, p: seq<bv8>)
    requires p != []
    ensures Run(c, p) == Run(ByteStep(c, p[0]), p[1..])
  {
    hide ByteStep;
    assert [p[0]] + p[1..] == p;
    RunConcat(c, [p[0]], p[1..]);
    assert Run(c, [p[0]]) == ByteStep(c, p[0]) by { assert [p[0]][..0] == []; }
  }

  lemma FitsThree(x: bv32, n: nat)
    requires n <= 3 && Fits(x, n)
    ensures Fits(x, 3)
  {
    if n == 1 { ClearAbove1(x); } else if n == 2 { ClearAbove2(x); }
  }

  lemma ClearAbove1(x: bv32)
    requires x & 0xFFFF_FF00 == 0
    ensures x & 0xFF00_0000 == 0
  {
  }

  lemma ClearAbove2(x: bv32)
    requires x & 0xFFFF_0000 == 0
    ensures x & 0xFF00_0000 == 0
  {
  }

  lemma XorSwaps(a: bv32, b: bv32, c: bv32, d: bv32)
    ensures Xor(Xor(a, b), Xor(c, d)) == Xor(Xor(a, c), Xor(b, d))
  {
    hide Xor;
    XorAssociates(a, b, Xor(c, d));
    XorAssociates(b, c, d);
    XorCommutes(b, c);
    XorAssociates(c, b, d);
    XorAssociates(a, c, Xor(b, d));
  }

  lemma XorUndone(x: bv32, y: bv32)
    ensures Xor(Xor(x, y), y) == x
  {
    hide Xor;
    XorAssociates(x, y, y);
    XorCancels(y, y);
    XorCancels(x, x);
  }

  lemma Regroup(s: bv32, t: bv32, a: bv32, b: bv32, u: bv32)
    requires Xor(Xor(s, a), Xor(t, b)) == u
    ensures Xor(s, t) == Xor(Xor(a, b), u)
  {
    hide Xor;
    XorSwaps(s, a, t, b);
    XorUndone(Xor(s, t), Xor(a, b));
    XorCommutes(u, Xor(a, b));
  }

  lemma {:induction false} PackZero(a: seq<bv8>, b: seq<bv8>)
    requires |a| == |b| <= 4 && Pack(a, b) == 0
    ensures a == b
  {
    hide Xor, Wide, Up, Fits;
    if a != [] {
      PackFits(a[1..], b[1..]);
      FitsThree(Pack(a[1..], b[1..]), |a| - 1);
      LowestDiffers(a[0], b[0], Pack(a[1..], b[1..]));
      PackZero(a[1..], b[1..]);
      assert a == [a[0]] + a[1..] && b == [b[0]] + b[1..];
    }
  }

  lemma LowestDiffers(a: bv8, b: bv8, d: bv32)
    requires Fits(d, 3) && Xor(Xor(Wide(a), Wide(b)), Up(d)) == 0
    ensures a == b && d == 0
  {
  }

  lemma {:induction false} SameTail(s: bv32, t: bv32, p: seq<bv8>)
    requires Run(s, p) == Run(t, p)
    ensures s == t
  {
    hide Xor, Eight, Wide;
    if p != [] {
      var init, b := p[..|p| - 1], p[|p| - 1];
      var s', t' := Run(s, init), Run(t, init);
      EightLinear(Xor(s', Wide(b)), Xor(t', Wide(b)));
      Regroup(s', t', Wide(b), Wide(b), Xor(Xor(s', Wide(b)), Xor(t', Wide(b))));
      XorCancels(Wide(b), 0);
      XorCancels(Eight(Xor(s', Wide(b))), Eight(Xor(t', Wide(b))));
      EightZero(Xor(Xor(s', Wide(b)), Xor(t', Wide(b))));
      XorCancels(s', t');
      XorCancels(0, 0);
      SameTail(s, t, init);
    }
  }

  lemma EightZero(x: bv32)
    requires Eight(x) == 0
    ensures x == 0
  {
    hide Eight;
    EightUndone(x);
  }

  /** Any damage confined to four consecutive bytes changes the CRC. */
  lemma BurstDetected(before: seq<bv8>, a: seq<bv8>, b: seq<bv8>, after: seq<bv8>)
    requires |a| == |b| <= 4 && a != b
    ensures Crc32(before + a + after) != Crc32(before + b + after)
  {
    hide Xor, ByteStep;
    var c := Run(ONES, before);
    RunParts(before, a, after);
    RunParts(before, b, after);
    if Crc32(before + a + after) == Crc32(before + b + after) {
      SameXor(Run(ONES, before + a + after), Run(ONES, before + b + after), ONES);
      SameTail(Run(c, a), Run(c, b), after);
      Back(c, c, a, b);
      XorCancels(c, c);
      PackZero(a, b);
    }
  }

  lemma RunParts(before: seq<bv8>, a: seq<bv8>, after: seq<bv8>)
    ensures Run(ONES, before + a + after) == Run(Run(Run(ONES, before), a), after)
    ensures Crc32(before + a + after) == Xor(Run(ONES, before + a + after), ONES)
  {
    hide Xor, ByteStep;
    RunConcat(ONES, before + a, after);
    RunConcat(ONES, before, a);
    RunIsBits(ONES, before + a + after);
  }

  lemma SameXor(x: bv32, y: bv32, z: bv32)
    requires Xor(x, z) == Xor(y, z)
    ensures x == y
  {
    hide Xor;
    XorUndone(x, z);
    XorUndone(y, z);
  }

  // ----- The code -------------------------------------------------------------------------------

  /** One entry: eight conditional shifts. */
  method TableEntry(i: bv8) returns (c: bv32)
    ensures c == Eight(Wide(i))
  {
    hide Eight, Wide, Shift;
    c := i as bv32;
    assert c == Wide(i) by { WideIs(i); }
    for k := 0 to 8
      invariant c == Shifts(Wide(i), k)
    {
      ShiftIs(c);
      c := if c & 1 != 0 then 0xEDB8_8320 ^ (c >> 1) else c >> 1;
    }
    ShiftsEight(Wide(i));
  }

  lemma WideIs(b: bv8)
    ensures Wide(b) == b as bv32
  {
  }

  lemma ShiftIs(c: bv32)
    ensures c & 1 != 0 ==> Shift(c) == 0xEDB8_8320 ^ (c >> 1)
    ensures c & 1 == 0 ==> Shift(c) == c >> 1
  {
    LowBit(c);
  }

  lemma LowFits(x: bv32)
    ensures Low(x) < 256
  {
  }

  lemma LowIsByte(x: bv32)
    requires x < 256
    ensures Wide(x as bv8) == x && (x as bv8) as int == x as int
  {
  }

  /** crc_tab and crc_ready. */
  class Table {
    const tab: array<bv32>
    var ready: bool

    ghost predicate Valid()
      reads this, tab
    {
      tab.Length == 256 && (ready ==> forall x: bv8 :: tab[x as int] == Eight(Wide(x)))
    }

    constructor ()
      ensures Valid() && fresh(tab)
    {
      tab, ready := new bv32[256], false;
    }

    /** crc_init. */
    method Init()
      requires Valid()
      modifies this, tab
      ensures Valid() && ready
    {
      hide Eight, Wide;
      if ready { return; }
      for i := 0 to 256
        invariant tab.Length == 256 && forall x: bv8 :: x as int < i ==> tab[x as int] == Eight(Wide(x))
      {
        var c := TableEntry(i as bv8);
        tab[i] := c;
      }
      ready := true;
    }

    /** One byte through the table. */
    method Step(c: bv32, b: bv8) returns (r: bv32)
      requires Valid() && ready
      ensures r == ByteStep(c, b)
    {
      hide Eight, Wide, Xor, Low, Down;
      TableStep(c, b);
      var x := Low(Xor(c, Wide(b)));
      LowFits(Xor(c, Wide(b)));
      LowIsByte(x);
      assert tab[(x as bv8) as int] == Eight(Wide(x as bv8));
      r := Xor(tab[x as int], Down(c));
    }

    /** crc32. */
    method Sum(p: array<bv8>, len: nat) returns (c: bv32)
      requires Valid() && len <= p.Length && (p as object) != tab
      modifies this, tab
      ensures Valid() && ready && c == Crc32(p[..len])
    {
      hide Eight, Xor, ByteStep;
      Init();
      c := ONES;
      for i := 0 to len
        invariant Valid() && ready && c == Run(ONES, p[..i])
      {
        assert p[..i + 1][..i] == p[..i];
        c := Step(c, p[i]);
      }
      RunIsBits(ONES, p[..len]);
      c := Xor(c, ONES);
    }
  }
}

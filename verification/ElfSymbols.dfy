// Symbol lookup of user/dl.c: the System V hash of a name and the walk over one
// hash chain of a loaded module.

module ElfSymbols {
  import opened Words

  /** A C string without its terminator. */
  type Name = seq<bv8>

  const NCHAIN_MAX := 4096

  /** A symbol table entry; name is what dl_sym_name finds for it. */
  datatype Sym = Sym(name: Option<Name>, defined: bool, value: u32)

  /** The hash section and symbol table of a module, loaded at base. */
  datatype Table = Table(base: u32, buckets: seq<nat>, chains: seq<nat>, syms: seq<Sym>)

  /** What dl_open_mode has checked before it accepts a module. */
  predicate Accepted(t: Table) {
    |t.buckets| > 0 && 0 < |t.chains| <= NCHAIN_MAX && |t.syms| == |t.chains|
  }

  // ----- elf_hash ------------------------------------------------------------------

  /** The loop body of elf_hash. */
  function HashStep(h: bv32, c: bv8): (r: bv32)
    ensures r & 0xF000_0000 == 0
  {
    Fold((h << 4) + (c as bv32))
  }

  function Top(s: bv32): bv32 {
    s & 0xF000_0000
  }

  function Fold(s: bv32): (r: bv32)
    ensures r & 0xF000_0000 == 0
  {
    var g := Top(s);
    if g != 0 then (s ^ (g >> 24)) & !g else s & !g
  }

  function Hash(s: Name): bv32 {
    if s == [] then 0 else HashStep(Hash(s[..|s| - 1]), s[|s| - 1])
  }

  /** elf_hash: a 28-bit value. */
  method ElfHash(s: Name) returns (h: bv32)
    ensures h == Hash(s) && h & 0xF000_0000 == 0
  {
    h := 0;
    for i := 0 to |s|
      invariant h == Hash(s[..i]) && h & 0xF000_0000 == 0
    {
      assert s[..i + 1][..i] == s[..i];
      h := HashStep(h, s[i]);
    }
    assert s[..|s|] == s;
  }

  // That this is the hash of the System V gABI, chapter 5, "Hash Table", said in three ways
  // that do not repeat the loop.

  /** The characters as digits of base 16, with carries, modulo 2^32. */
  function Digits(s: Name): bv32 {
    if s == [] then 0 else Digit(Digits(s[..|s| - 1]), s[|s| - 1])
  }

  function Digit(h: bv32, c: bv8): bv32 {
    16 * h + (c as bv32)
  }

  /** More than n bytes can add up to, for n up to 5. */
  function DigitsMax(n: nat): bv32 {
    match n
    case 0 => 1
    case 1 => 0x100
    case 2 => 0x2000
    case 3 => 0x4_0000
    case 4 => 0x80_0000
    case _ => 0x1000_0000
  }

  /** Up to five characters are only added up. */
  lemma {:induction false} ShortHash(s: Name)
    requires |s| <= 5
    ensures Hash(s) == Digits(s) && Digits(s) < DigitsMax(|s|)
  {
    hide HashStep, Digit, DigitsMax;
    NoDigits();
    if s != [] {
      ShortHash(s[..|s| - 1]);
      ShortStep(Hash(s[..|s| - 1]), s[|s| - 1], |s| - 1);
    }
  }

  lemma NoDigits()
    ensures DigitsMax(0) == 1
  {
  }

  lemma ShortStep(h: bv32, c: bv8, n: nat)
    requires n < 5 && h < DigitsMax(n)
    ensures HashStep(h, c) == Digit(h, c) && Digit(h, c) < DigitsMax(n + 1)
  {
    hide HashStep, Digit, DigitsMax, Folded, Cut28;
    HashStepIs(h, c);
    DigitBound(h, c, n);
    NotFolded(Digit(h, c));
  }

  lemma DigitBound(h: bv32, c: bv8, n: nat)
    requires n < 5 && h < DigitsMax(n)
    ensures Digit(h, c) < DigitsMax(n + 1) && DigitsMax(n + 1) <= 0x1000_0000
  {
    hide Digit;
    DigitIs(h, c);
    match n
    case 0 => SumBelow1(h, c as bv32);
    case 1 => SumBelow2(h, c as bv32);
    case 2 => SumBelow3(h, c as bv32);
    case 3 => SumBelow4(h, c as bv32);
    case 4 => SumBelow5(h, c as bv32);
  }

  lemma SumBelow1(h: bv32, c: bv32)
    requires h < 1 && c <= 0xFF
    ensures (h << 4) + c < 0x100
  {
  }

  lemma SumBelow2(h: bv32, c: bv32)
    requires h < 0x100 && c <= 0xFF
    ensures (h << 4) + c < 0x2000
  {
  }

  lemma SumBelow3(h: bv32, c: bv32)
    requires h < 0x2000 && c <= 0xFF
    ensures (h << 4) + c < 0x4_0000
  {
  }

  lemma SumBelow4(h: bv32, c: bv32)
    requires h < 0x4_0000 && c <= 0xFF
    ensures (h << 4) + c < 0x80_0000
  {
  }

  lemma SumBelow5(h: bv32, c: bv32)
    requires h < 0x80_0000 && c <= 0xFF
    ensures (h << 4) + c < 0x1000_0000
  {
  }

  lemma NotFolded(sum: bv32)
    requires sum < 0x1000_0000
    ensures Cut28(Folded(sum)) == sum
  {
  }

  lemma DigitIs(h: bv32, c: bv8)
    ensures Digit(h, c) == (h << 4) + (c as bv32) && c as bv32 <= 0xFF
  {
    assert 16 * h == h << 4;
  }

  /** The loop body, cutting the sum instead of the bits it folds. */
  lemma HashStepIs(h: bv32, c: bv8)
    ensures HashStep(h, c) == Cut28(Folded(Digit(h, c)))
  {
    hide Digit, Fold, Folded, Cut28;
    DigitIs(h, c);
    FoldIs((h << 4) + (c as bv32));
  }

  lemma FoldIs(s: bv32)
    ensures Fold(s) == Cut28(Folded(s))
  {
    hide Top, Folded, Cut28;
    if Top(s) != 0 { FoldTop(s); } else { FoldNothing(s); }
  }

  lemma FoldTop(s: bv32)
    requires Top(s) != 0
    ensures (s ^ (Top(s) >> 24)) & !Top(s) == Cut28(Folded(s))
  {
  }

  lemma FoldNothing(s: bv32)
    requires Top(s) == 0
    ensures s & !Top(s) == Cut28(Folded(s))
  {
  }

  /** The form that keeps the upper four bits until the end: each step folds them onto bits
      4 to 7, and only the result is cut to 28 bits. */
  function LooseHash(s: Name): bv32 {
    if s == [] then 0 else Folded(Digit(LooseHash(s[..|s| - 1]), s[|s| - 1]))
  }

  function Folded(sum: bv32): bv32 {
    sum ^ ((sum >> 24) & 0xF0)
  }

  /** Both are the same on every name. */
  lemma {:induction false} HashIsLoose(s: Name)
    ensures Hash(s) == Cut28(LooseHash(s))
  {
    hide HashStep, Folded, Digit, Cut28;
    NoHash();
    if s != [] {
      HashIsLoose(s[..|s| - 1]);
      HashStepIs(Hash(s[..|s| - 1]), s[|s| - 1]);
      LowDigits(LooseHash(s[..|s| - 1]), s[|s| - 1]);
    }
  }

  lemma NoHash()
    ensures Cut28(0) == 0
  {
  }

  function Cut28(h: bv32): bv32 {
    h & 0x0FFF_FFFF
  }

  lemma LowDigits(loose: bv32, c: bv8)
    ensures Digit(Cut28(loose), c) == Digit(loose, c)
  {
    hide Digit, Cut28;
    DigitIs(loose, c);
    DigitIs(Cut28(loose), c);
    ShiftCuts(loose);
  }

  lemma ShiftCuts(h: bv32)
    ensures Cut28(h) << 4 == h << 4
  {
  }

  /** One turn of the loop on a whole name. */
  lemma Next(s: Name, k: nat, h: bv32)
    requires k < |s| && HashStep(Hash(s[..k]), s[k]) == h
    ensures Hash(s[..k + 1]) == h
  {
    assert s[..k + 1][..k] == s[..k];
  }

  /** The values for "ab", "exit" and "syscall"; the last is folded. */
  lemma KnownHashes()
    ensures Hash([0x61, 0x62]) == 0x672
    ensures Hash([0x65, 0x78, 0x69, 0x74]) == 0x6_CF04
    ensures Hash([0x73, 0x79, 0x73, 0x63, 0x61, 0x6C, 0x6C]) == 0xB09_985C
  {
    HashAb();
    HashExit();
    HashSyscall();
  }

  lemma HashAb()
    ensures Hash([0x61, 0x62]) == 0x672
  {
    hide HashStep;
    StepsAb();
    var s: Name := [0x61, 0x62];
    assert s[..0] == [] && s[..2] == s;
    Next(s, 0, 0x61);
    Next(s, 1, 0x672);
  }

  lemma StepsAb()
    ensures HashStep(0, 0x61) == 0x61
    ensures HashStep(0x61, 0x62) == 0x672
  {
  }

  lemma HashExit()
    ensures Hash([0x65, 0x78, 0x69, 0x74]) == 0x6_CF04
  {
    hide HashStep;
    StepsExit();
    var s: Name := [0x65, 0x78, 0x69, 0x74];
    assert s[..0] == [] && s[..4] == s;
    Next(s, 0, 0x65);
    Next(s, 1, 0x6C8);
    Next(s, 2, 0x6CE9);
    Next(s, 3, 0x6_CF04);
  }

  lemma StepsExit()
    ensures HashStep(0, 0x65) == 0x65
    ensures HashStep(0x65, 0x78) == 0x6C8
    ensures HashStep(0x6C8, 0x69) == 0x6CE9
    ensures HashStep(0x6CE9, 0x74) == 0x6_CF04
  {
  }

  lemma HashSyscall()
    ensures Hash([0x73, 0x79, 0x73, 0x63, 0x61, 0x6C, 0x6C]) == 0xB09_985C
  {
    hide HashStep;
    StepsSyscall();
    var s: Name := [0x73, 0x79, 0x73, 0x63, 0x61, 0x6C, 0x6C];
    assert s[..0] == [] && s[..7] == s;
    Next(s, 0, 0x73);
    Next(s, 1, 0x7A9);
    Next(s, 2, 0x7B03);
    Next(s, 3, 0x7_B093);
    Next(s, 4, 0x7B_0991);
    Next(s, 5, 0x7B0_997C);
    Next(s, 6, 0xB09_985C);
  }

  lemma StepsSyscall()
    ensures HashStep(0, 0x73) == 0x73
    ensures HashStep(0x73, 0x79) == 0x7A9
    ensures HashStep(0x7A9, 0x73) == 0x7B03
    ensures HashStep(0x7B03, 0x63) == 0x7_B093
    ensures HashStep(0x7_B093, 0x61) == 0x7B_0991
    ensures HashStep(0x7B_0991, 0x6C) == 0x7B0_997C
    ensures HashStep(0x7B0_997C, 0x6C) == 0xB09_985C
  {
  }

  function Bucket(t: Table, name: Name): nat
    requires Accepted(t)
    ensures Bucket(t, name) < |t.buckets|
  {
    (Hash(name) as nat) % |t.buckets|
  }

  // ----- The chain walk --------------------------------------------------------------

  /** Entry i defines the name. */
  predicate Defines(t: Table, i: nat, name: Name)
    requires Accepted(t)
  {
    i < |t.syms| && t.syms[i].defined && t.syms[i].name == Some(name)
  }

  /** The walk from entry i after some hops; it gives up on an index out of
      range and after more hops than there are entries. */
  function Walk(t: Table, name: Name, i: nat, hops: nat): (r: Option<nat>)
    requires Accepted(t) && hops <= |t.chains| + 1
    ensures r.Some? ==> r.value > 0 && Defines(t, r.value, name)
    decreases |t.chains| + 1 - hops
  {
    if i == 0 || i >= |t.chains| || hops == |t.chains| + 1 then None
    else if Defines(t, i, name) then Some(i)
    else Walk(t, name, t.chains[i], hops + 1)
  }

  function Lookup(t: Table, name: Name): (r: Option<nat>)
    requires Accepted(t)
    ensures r.Some? ==> r.value > 0 && Defines(t, r.value, name)
  {
    Walk(t, name, t.buckets[Bucket(t, name)], 0)
  }

  /** p is the chain that starts at i and ends at index 0. */
  predicate IsChain(t: Table, i: nat, p: seq<nat>)
    requires Accepted(t)
    decreases |p|
  {
    if p == [] then i == 0
    else i == p[0] && 0 < i < |t.chains| && IsChain(t, t.chains[i], p[1..])
  }

  /** System V gABI, chapter 5, "Hash Table": every chain ends, and a named
      entry is on the chain of its name's bucket. */
  ghost predicate WellFormed(t: Table) {
    && Accepted(t)
    && (forall b :: 0 <= b < |t.buckets| ==> exists p :: IsChain(t, t.buckets[b], p))
    && forall i :: 0 < i < |t.syms| && t.syms[i].name.Some? ==>
         forall p :: IsChain(t, t.buckets[Bucket(t, t.syms[i].name.value)], p) ==> i in p
  }

  /** From any entry a chain that ends is unique ... */
  lemma {:induction false} ChainUnique(t: Table, i: nat, p: seq<nat>, q: seq<nat>)
    requires Accepted(t) && IsChain(t, i, p) && IsChain(t, i, q)
    ensures p == q
    decreases |p|
  {
    if p != [] {
      ChainUnique(t, t.chains[i], p[1..], q[1..]);
    }
  }

  lemma {:induction false} ChainSuffix(t: Table, i: nat, p: seq<nat>, k: nat)
    requires Accepted(t) && IsChain(t, i, p) && k < |p|
    ensures IsChain(t, p[k], p[k..]) && 0 < p[k] < |t.chains|
    decreases k
  {
    if k > 0 {
      ChainSuffix(t, t.chains[i], p[1..], k - 1);
      assert p[1..][k - 1..] == p[k..];
    }
  }

  /** ... so no entry occurs twice on it ... */
  lemma ChainDistinct(t: Table, i: nat, p: seq<nat>, a: nat, b: nat)
    requires Accepted(t) && IsChain(t, i, p) && a < b < |p|
    ensures p[a] != p[b]
  {
    if p[a] == p[b] {
      ChainSuffix(t, i, p, a);
      ChainSuffix(t, i, p, b);
      ChainUnique(t, p[a], p[a..], p[b..]);
    }
  }

  /** ... and it is shorter than the table. */
  lemma ChainShort(t: Table, i: nat, p: seq<nat>)
    requires Accepted(t) && IsChain(t, i, p)
    ensures |p| < |t.chains|
  {
    forall a, b | 0 <= a < b < |p|
      ensures p[a] != p[b]
    {
      ChainDistinct(t, i, p, a, b);
    }
    forall k | 0 <= k < |p|
      ensures 1 <= p[k] < |t.chains|
    {
      ChainSuffix(t, i, p, k);
    }
    Pigeonhole(p, |t.chains|);
  }

  lemma {:induction false} Pigeonhole(p: seq<nat>, n: nat)
    requires n > 0 && (forall k :: 0 <= k < |p| ==> 1 <= p[k] < n)
    requires forall a, b :: 0 <= a < b < |p| ==> p[a] != p[b]
    ensures |p| < n
  {
    if p != [] {
      assert 1 <= p[0] < n;
      if m :| 0 <= m < |p| && p[m] == n - 1 {
        var q := p[..m] + p[m + 1..];
        forall k | 0 <= k < |q|
          ensures 1 <= q[k] < n - 1
        {
          assert q[k] == p[if k < m then k else k + 1];
        }
        Pigeonhole(q, n - 1);
      } else {
        Pigeonhole(p, n - 1);
      }
    }
  }

  /** On a chain that ends, the walk finds a definition exactly when one is on it. */
  lemma {:induction false} WalkOnChain(t: Table, name: Name, i: nat, p: seq<nat>, hops: nat)
    requires Accepted(t) && IsChain(t, i, p) && hops + |p| < |t.chains|
    ensures Walk(t, name, i, hops).Some? <==> exists k :: 0 <= k < |p| && Defines(t, p[k], name)
    decreases |p|
  {
    if p != [] && !Defines(t, i, name) {
      WalkOnChain(t, name, t.chains[i], p[1..], hops + 1);
      assert forall k :: 0 < k < |p| ==> p[k] == p[1..][k - 1];
    }
  }

  /** On a well-formed table the lookup succeeds exactly when a linear scan of
      the symbol table would find a definition of the name. */
  lemma LookupIsScan(t: Table, name: Name)
    requires WellFormed(t)
    ensures Lookup(t, name).Some? <==> exists i: nat :: 0 < i && Defines(t, i, name)
  {
    var start := t.buckets[Bucket(t, name)];
    var p :| IsChain(t, start, p);
    ChainShort(t, start, p);
    WalkOnChain(t, name, start, p, 0);
    if i: nat :| 0 < i && Defines(t, i, name) {
      assert i in p;
      var k :| 0 <= k < |p| && p[k] == i;
    }
  }

  /** When at most one entry defines the name, that entry is what is found. */
  lemma LookupIsThe(t: Table, name: Name, i: nat)
    requires WellFormed(t) && 0 < i && Defines(t, i, name)
    requires forall j: nat :: 0 < j && Defines(t, j, name) ==> j == i
    ensures Lookup(t, name) == Some(i)
  {
    LookupIsScan(t, name);
  }

  /** An absolute address; 0 is the null pointer. */
  function Address(t: Table, i: nat): u32
    requires i < |t.syms|
  {
    (t.base + t.syms[i].value) % 0x1_0000_0000
  }

  function LookupAddress(t: Table, name: Name): u32
    requires Accepted(t)
  {
    match Lookup(t, name)
    case None => 0
    case Some(i) => Address(t, i)
  }

  /** dl_handle_lookup.  It ends on every table, cyclic chains included. */
  method HandleLookup(t: Table, name: Name) returns (addr: u32)
    requires Accepted(t)
    ensures addr == LookupAddress(t, name)
  {
    var h := ElfHash(name);
    var i: nat := t.buckets[(h as nat) % |t.buckets|];
    var hops := 0;
    while i != 0
      invariant hops <= |t.chains| + 1
      invariant Walk(t, name, i, hops) == Lookup(t, name)
      decreases |t.chains| + 1 - hops
    {
      if i >= |t.chains| { return 0; }
      hops := hops + 1;
      if hops > |t.chains| + 1 { return 0; }
      var s := t.syms[i];
      if s.defined && s.name == Some(name) {
        return (t.base + s.value) % 0x1_0000_0000;
      }
      i := t.chains[i];
    }
    return 0;
  }
}

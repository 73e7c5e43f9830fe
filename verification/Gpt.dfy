// gpt_scan of kernel/drivers/gpt.c: the header and entry checks, with the CRC of
// the entries kept running from sector to sector.

module Gpt {
  import opened Crc
  import opened Words

  const SECTOR := 512
  const ENTRY := 128
  const GPT_MAX_PARTS := 16

  /** The sectors that can be read; reading any other number fails. */
  type Disk = map<u32, seq<bv8>>

  predicate DiskOk(disk: Disk) {
    forall lba :: lba in disk ==> |disk[lba]| == SECTOR
  }

  /** "EFI PART" */
  const SIGNATURE: seq<bv8> := [0x45, 0x46, 0x49, 0x20, 0x50, 0x41, 0x52, 0x54]

  /** A little-endian number of any length. */
  function Number(p: seq<bv8>): (v: nat) {
    if p == [] then 0 else (p[0] as int) + 256 * Number(p[1..])
  }

  function Field(p: seq<bv8>, at: nat, n: nat): nat
    requires at + n <= |p|
  {
    Number(p[at..at + n])
  }

  /** rd32 and rd64: from the highest byte down. */
  method Read(p: seq<bv8>, at: nat, n: nat) returns (v: nat)
    requires at + n <= |p|
    ensures v == Field(p, at, n)
  {
    v := 0;
    var i := n;
    while i > 0
      invariant 0 <= i <= n && v == Number(p[at + i..at + n])
    {
      i := i - 1;
      assert p[at + i..at + n][1..] == p[at + i + 1..at + n];
      v := v * 256 + (p[at + i] as int);
    }
  }

  /** The same four bytes as a checksum. */
  function Word(p: seq<bv8>, at: nat): bv32
    requires at + 4 <= |p|
  {
    Wide(p[at]) | (Wide(p[at + 1]) << 8) | (Wide(p[at + 2]) << 16) | (Wide(p[at + 3]) << 24)
  }

  // ----- The header ---------------------------------------------------------------------

  datatype Header = Header(entLba: nat, numEnt: nat, entCrc: bv32)

  /** The header bytes with the CRC field taken as zero. */
  function Blanked(sec: seq<bv8>, size: nat): seq<bv8>
    requires |sec| == SECTOR && 20 <= size <= SECTOR
  {
    sec[..16] + [0, 0, 0, 0] + sec[20..size]
  }

  /** The header sector has the signature, a possible size and the right checksum ... */
  predicate HeaderTests(sec: seq<bv8>)
    requires |sec| == SECTOR
  {
    && sec[..8] == SIGNATURE
    && 92 <= Field(sec, 12, 4) <= 512
    && Crc32(Blanked(sec, Field(sec, 12, 4))) == Word(sec, 16)
  }

  /** ... and is within the limits of gpt_scan. */
  predicate Supported(sec: seq<bv8>)
    requires |sec| == SECTOR
  {
    Field(sec, 84, 4) == ENTRY && 1 <= Field(sec, 80, 4) <= 256 && Field(sec, 72, 8) < U32
  }

  predicate HeaderOk(sec: seq<bv8>)
    requires |sec| == SECTOR
  {
    HeaderTests(sec) && Supported(sec)
  }

  function HeaderOf(sec: seq<bv8>): Header
    requires |sec| == SECTOR
  {
    Header(Field(sec, 72, 8), Field(sec, 80, 4), Word(sec, 88))
  }

  /** A header damaged in at most four consecutive bytes behind its checksum is rejected. */
  lemma DamagedHeader(sec: seq<bv8>, bad: seq<bv8>, k: nat, w: nat)
    requires |sec| == |bad| == SECTOR && HeaderOk(sec) && sec != bad && w <= 4
    requires 20 <= k && k + w <= Field(sec, 12, 4) && sec[..k] == bad[..k] && sec[k + w..] == bad[k + w..]
    ensures !HeaderOk(bad)
  {
    hide Crc32, Word;
    var size := Field(sec, 12, 4);
    SameField(sec, bad, k, 12, 4);
    SameWord(sec, bad, k, 16);
    var before := sec[..16] + [0, 0, 0, 0] + sec[20..k];
    var after := sec[k + w..size];
    assert Blanked(sec, size) == before + sec[k..k + w] + after;
    assert bad[20..k] == bad[..k][20..] == sec[..k][20..] == sec[20..k];
    assert bad[..16] == bad[..k][..16] == sec[..k][..16] == sec[..16];
    assert bad[k + w..size] == bad[k + w..][..size - k - w] == sec[k + w..][..size - k - w] == after;
    assert Blanked(bad, size) == before + bad[k..k + w] + after;
    assert sec[k..k + w] != bad[k..k + w] by {
      assert sec == sec[..k] + sec[k..k + w] + sec[k + w..];
      assert bad == bad[..k] + bad[k..k + w] + bad[k + w..];
    }
    BurstDetected(before, sec[k..k + w], bad[k..k + w], after);
  }

  lemma SameField(a: seq<bv8>, b: seq<bv8>, k: nat, at: nat, n: nat)
    requires k <= |a| && k <= |b| && a[..k] == b[..k] && at + n <= k
    ensures Field(a, at, n) == Field(b, at, n)
  {
    assert a[at..at + n] == a[..k][at..at + n] == b[..k][at..at + n] == b[at..at + n];
  }

  lemma SameWord(a: seq<bv8>, b: seq<bv8>, k: nat, at: nat)
    requires k <= |a| && k <= |b| && a[..k] == b[..k] && at + 4 <= k
    ensures Word(a, at) == Word(b, at)
  {
    hide Word;
    assert a[at] == a[..k][at] == b[at] && a[at + 1] == a[..k][at + 1] == b[at + 1];
    assert a[at + 2] == a[..k][at + 2] == b[at + 2] && a[at + 3] == a[..k][at + 3] == b[at + 3];
    WordOf(a, b, at, at);
  }

  lemma WordOf(a: seq<bv8>, b: seq<bv8>, at: nat, bt: nat)
    requires at + 4 <= |a| && bt + 4 <= |b|
    requires a[at] == b[bt] && a[at + 1] == b[bt + 1] && a[at + 2] == b[bt + 2] && a[at + 3] == b[bt + 3]
    ensures Word(a, at) == Word(b, bt)
  {
  }

  // ----- The entries ----------------------------------------------------------------------

  /** struct gpt_part; name is padded with zeros to 37 characters. */
  datatype Part = Part(typeGuid: seq<bv8>, uniqueGuid: seq<bv8>, startLba: nat, endLba: nat, name: seq<bv8>)

  predicate Printable(c: bv8) {
    32 <= c < 127
  }

  /** How many UTF-16 units from unit c on are printable, as far as their low bytes tell. */
  function PrintableFrom(en: seq<bv8>, c: nat): (n: nat)
    requires |en| == ENTRY && c <= 36
    ensures c + n <= 36
    decreases 36 - c
  {
    if c == 36 || !Printable(en[56 + 2 * c]) then 0 else 1 + PrintableFrom(en, c + 1)
  }

  function NameOf(en: seq<bv8>): (name: seq<bv8>)
    requires |en| == ENTRY
    ensures |name| == 37 && name[36] == 0
    ensures forall c :: 0 <= c < 37 ==> name[c] == 0 || Printable(name[c])
  {
    AllPrintable(en, 0);
    Shown(en, PrintableFrom(en, 0))
  }

  /** The low bytes of the first n units, then zeros. */
  function Shown(en: seq<bv8>, n: nat): (name: seq<bv8>)
    requires |en| == ENTRY && n <= 36
    ensures |name| == 37
  {
    seq(37, c requires 0 <= c < 37 => if c < n then en[56 + 2 * c] else 0)
  }

  lemma {:induction false} AllPrintable(en: seq<bv8>, c: nat)
    requires |en| == ENTRY && c <= 36
    ensures forall d :: c <= d < c + PrintableFrom(en, c) ==> Printable(en[56 + 2 * d])
    decreases 36 - c
  {
    if c < 36 && Printable(en[56 + 2 * c]) { AllPrintable(en, c + 1); }
  }

  predicate InUse(en: seq<bv8>)
    requires |en| == ENTRY
  {
    exists i :: 0 <= i < 16 && en[i] != 0
  }

  function PartOf(en: seq<bv8>): Part
    requires |en| == ENTRY
  {
    Part(en[..16], en[16..32], Field(en, 32, 8), Field(en, 40, 8), NameOf(en))
  }

  function EntryAt(bytes: seq<bv8>, i: nat): seq<bv8>
    requires (i + 1) * ENTRY <= |bytes|
  {
    bytes[i * ENTRY..(i + 1) * ENTRY]
  }

  /** The entries in use among the first n, in order. */
  function Parts(bytes: seq<bv8>, n: nat): (r: seq<Part>)
    requires n * ENTRY <= |bytes|
    ensures |r| <= n
  {
    if n == 0 then [] else
      var r := Parts(bytes, n - 1);
      var en := EntryAt(bytes, n - 1);
      if InUse(en) then r + [PartOf(en)] else r
  }

  function SectorsFor(numEnt: nat): nat {
    (numEnt * ENTRY + 511) / 512
  }

  /** n sectors from lba on, end to end; sector numbers are 32-bit words. */
  function ReadAll(disk: Disk, lba: u32, n: nat): (r: Option<seq<bv8>>)
    requires DiskOk(disk)
    ensures r.Some? ==> |r.value| == n * SECTOR
  {
    if n == 0 then Some([]) else
      var init := ReadAll(disk, lba, n - 1);
      var at := (lba + n - 1) % U32;
      if init.None? || at !in disk then None else Some(init.value + disk[at])
  }

  /** What a scan of the disk finds: nothing valid, or the partitions in use. */
  function Found(disk: Disk): Option<seq<Part>>
    requires DiskOk(disk)
  {
    if 1 !in disk || !HeaderOk(disk[1]) then None else
      var h := HeaderOf(disk[1]);
      var bytes := ReadAll(disk, h.entLba, SectorsFor(h.numEnt));
      if bytes.None? || Crc32(bytes.value) != h.entCrc then None
      else Some(Parts(bytes.value, h.numEnt))
  }

  /** The bytes a scan checks against the entry checksum are the entry array of section
      5.3.2 of the UEFI Specification, num_ent entries of 128 bytes, exactly when
      num_ent is a multiple of 4. */
  lemma RangeIsEntryArray(numEnt: nat)
    ensures SectorsFor(numEnt) * SECTOR == numEnt * ENTRY <==> numEnt % 4 == 0
  {
  }

  /** Otherwise the rest of the last sector counts as well: some contents of it make
      the scan reject a table whose entry array has the right checksum. */
  lemma RestOfSectorCounts(entries: seq<bv8>, numEnt: nat) returns (rest: seq<bv8>)
    requires |entries| == numEnt * ENTRY && numEnt % 4 != 0
    ensures |entries + rest| == SectorsFor(numEnt) * SECTOR && Crc32(entries + rest) != Crc32(entries)
  {
    hide Crc32;
    var n := SectorsFor(numEnt) * SECTOR - numEnt * ENTRY;
    var tail: seq<bv8> := seq(n - 1, _ => 0);
    var zero, one: seq<bv8> := [0], [1];
    BurstDetected(entries, zero, one, tail);
    assert entries + zero + tail == entries + (zero + tail) && entries + one + tail == entries + (one + tail);
    rest := if Crc32(entries + (zero + tail)) != Crc32(entries) then zero + tail else one + tail;
  }

  /** The header names the sector it is meant for; gpt_scan does not look at it. */
  function MyLba(sec: seq<bv8>): nat
    requires |sec| == SECTOR
  {
    Field(sec, 24, 8)
  }

  /** Disks whose header is for n entries and within the limits of gpt_scan. */
  ghost predicate HasHeader(disk: Disk, n: nat) {
    DiskOk(disk) && 1 in disk && Supported(disk[1]) && HeaderOf(disk[1]).numEnt == n
  }

  /** The four tests section 5.3.2 of the UEFI Specification makes of a table at sector
      1: signature, header checksum, own place, and the checksum of the entry array,
      which is num_ent entries and no more. */
  ghost predicate Conforms(disk: Disk)
    requires DiskOk(disk) && 1 in disk && Supported(disk[1])
  {
    && HeaderTests(disk[1]) && MyLba(disk[1]) == 1
    && var h := HeaderOf(disk[1]);
       var bytes := ReadAll(disk, h.entLba, SectorsFor(h.numEnt));
       bytes.Some? && Crc32(bytes.value[..h.numEnt * ENTRY]) == h.entCrc
  }

  /** With a multiple of 4 entries the scan makes all of these tests but one: what it
      accepts passes them exactly when the header names sector 1. */
  lemma AllButMyLba(disk: Disk, n: nat)
    requires HasHeader(disk, n) && n % 4 == 0
    ensures Conforms(disk) <==> Found(disk).Some? && MyLba(disk[1]) == 1
  {
    hide Crc32, HeaderTests;
    RangeIsEntryArray(n);
    var bytes := ReadAll(disk, HeaderOf(disk[1]).entLba, SectorsFor(n));
    if bytes.Some? { assert bytes.value[..n * ENTRY] == bytes.value; }
  }

  /** Among headers that name sector 1 the scan accepts exactly the tables that pass the
      tests if and only if the number of entries is a multiple of 4. */
  lemma AcceptanceIff(n: nat)
    requires 1 <= n <= 256
    ensures (forall disk :: HasHeader(disk, n) && MyLba(disk[1]) == 1 ==> (Found(disk).Some? <==> Conforms(disk)))
       <==> n % 4 == 0
  {
    hide Crc32, HeaderOk, Conforms;
    if n % 4 == 0 {
      forall disk | HasHeader(disk, n) && MyLba(disk[1]) == 1
        ensures Found(disk).Some? <==> Conforms(disk)
      {
        AllButMyLba(disk, n);
      }
    } else {
      var disk := Rejected(n);
      assert HasHeader(disk, n) && MyLba(disk[1]) == 1 && Conforms(disk) && Found(disk).None?;
    }
  }

  /** A table of empty entries that passes the tests and that the scan rejects. */
  lemma Rejected(n: nat) returns (disk: Disk)
    requires 1 <= n <= 256 && n % 4 != 0
    ensures HasHeader(disk, n) && MyLba(disk[1]) == 1 && Conforms(disk) && Found(disk).None?
  {
    hide Crc32, HeaderTests, Supported;
    var entries: seq<bv8> := seq(n * ENTRY, _ => 0);
    var rest := RestOfSectorCounts(entries, n);
    disk := TableDisk(n, Crc32(entries), LBA_ONE, entries + rest);
    EightBytes(1);
    assert (entries + rest)[..n * ENTRY] == entries;
  }

  /** For every number of entries the scan also accepts tables whose header is meant
      for another sector, whichever it names. */
  lemma Strayed(n: nat, my: seq<bv8>) returns (disk: Disk)
    requires 1 <= n <= 256 && |my| == 8
    ensures HasHeader(disk, n) && MyLba(disk[1]) == Number(my) && Found(disk).Some?
    ensures Number(my) != 1 ==> !Conforms(disk)
  {
    hide Crc32, HeaderTests, Supported;
    var all: seq<bv8> := seq(SectorsFor(n) * SECTOR, _ => 0);
    disk := TableDisk(n, Crc32(all), my, all);
  }

  /** A disk with a header for n entries and the entry sectors given. */
  lemma TableDisk(n: nat, entCrc: bv32, my: seq<bv8>, all: seq<bv8>) returns (disk: Disk)
    requires 1 <= n <= 256 && |my| == 8 && |all| == SectorsFor(n) * SECTOR
    ensures HasHeader(disk, n) && HeaderTests(disk[1]) && MyLba(disk[1]) == Number(my)
    ensures HeaderOf(disk[1]) == Header(2, n, entCrc) && ReadAll(disk, 2, SectorsFor(n)) == Some(all)
  {
    hide Crc32, HeaderTests, Supported;
    var sec := HeaderSector(n, entCrc, my);
    HeaderSectorOk(n, entCrc, my);
    disk := DiskOf(sec, all, SectorsFor(n));
    Laid(disk, all, SectorsFor(n));
    assert all[..SectorsFor(n) * SECTOR] == all;
  }

  const LBA_ONE: seq<bv8> := [1, 0, 0, 0, 0, 0, 0, 0]

  /** The sector of all that is laid out at lba, the first at 2. */
  function Chunk(all: seq<bv8>, lba: int): seq<bv8>
    requires 2 <= lba && (lba - 1) * SECTOR <= |all|
  {
    all[(lba - 2) * SECTOR..(lba - 1) * SECTOR]
  }

  /** sec in sector 1, and the first m sectors of all from sector 2 on. */
  function DiskOf(sec: seq<bv8>, all: seq<bv8>, m: nat): (r: Disk)
    requires |sec| == SECTOR && m <= 64 && m * SECTOR <= |all|
    ensures DiskOk(r) && 1 in r && r[1] == sec
    ensures forall lba: u32 :: 2 <= lba < 2 + m ==> lba in r && r[lba] == Chunk(all, lba)
  {
    if m == 0 then map[1 := sec] else DiskOf(sec, all, m - 1)[1 + m := Chunk(all, 1 + m)]
  }

  lemma {:induction false} Laid(disk: Disk, all: seq<bv8>, m: nat)
    requires DiskOk(disk) && m <= 64 && m * SECTOR <= |all|
    requires forall lba: u32 :: 2 <= lba < 2 + m ==> lba in disk && disk[lba] == Chunk(all, lba)
    ensures ReadAll(disk, 2, m) == Some(all[..m * SECTOR])
  {
    if m > 0 {
      Laid(disk, all, m - 1);
      Small(1 + m, U32);
      var last: u32 := 1 + m;
      assert disk[last] == Chunk(all, last);
      assert all[..m * SECTOR] == all[..(m - 1) * SECTOR] + Chunk(all, 1 + m);
    }
  }

  /** A word in little-endian order. */
  function WordBytes(w: bv32): (r: seq<bv8>)
    ensures |r| == 4
  {
    [(w & 0xFF) as bv8, ((w >> 8) & 0xFF) as bv8, ((w >> 16) & 0xFF) as bv8, (w >> 24) as bv8]
  }

  lemma WordOfBytes(p: seq<bv8>, at: nat, w: bv32)
    requires at + 4 <= |p| && p[at..at + 4] == WordBytes(w)
    ensures Word(p, at) == w
  {
    hide WordBytes, Word;
    var b := WordBytes(w);
    assert p[at] == p[at..at + 4][0] && p[at + 1] == p[at..at + 4][1];
    assert p[at + 2] == p[at..at + 4][2] && p[at + 3] == p[at..at + 4][3];
    WordOf(p, b, at, 0);
    BytesOfWord(w);
  }

  lemma BytesOfWord(w: bv32)
    ensures Word(WordBytes(w), 0) == w
  {
  }

  function Zeros(n: nat): (r: seq<bv8>)
    ensures |r| == n
  {
    seq(n, _ => 0)
  }

  /** The fields of a header for n entries at sector 2, its own checksum still zero;
      my is the sector it is meant for. */
  function HeaderFields(n: nat, entCrc: bv32, my: seq<bv8>): (r: seq<bv8>)
    requires n <= 256 && |my| == 8
    ensures |r| == 92
  {
    SIGNATURE + [0, 0, 1, 0] + [92, 0, 0, 0] + Zeros(8) + my + Zeros(40) + [2, 0, 0, 0, 0, 0, 0, 0]
    + CountBytes(n) + [128, 0, 0, 0] + WordBytes(entCrc)
  }

  function CountBytes(n: nat): (r: seq<bv8>)
    requires n <= 256
    ensures |r| == 4
  {
    if n == 256 then [0, 1, 0, 0] else [ByteFor(n), 0, 0, 0]
  }

  function HeaderSector(n: nat, entCrc: bv32, my: seq<bv8>): (r: seq<bv8>)
    requires n <= 256 && |my| == 8
    ensures |r| == SECTOR
  {
    var f := HeaderFields(n, entCrc, my);
    f[..16] + WordBytes(Crc32(f)) + f[20..] + Zeros(420)
  }

  lemma FieldsAre(n: nat, entCrc: bv32, my: seq<bv8>)
    requires n <= 256 && |my| == 8
    ensures var f := HeaderFields(n, entCrc, my);
      && f[..8] == SIGNATURE && f[12..16] == [92, 0, 0, 0] && f[16..20] == [0, 0, 0, 0]
      && f[24..32] == my && f[72..80] == [2, 0, 0, 0, 0, 0, 0, 0]
      && f[80..84] == CountBytes(n)
      && f[84..88] == [128, 0, 0, 0] && f[88..92] == WordBytes(entCrc)
  {
    hide WordBytes, CountBytes;
    var f1: seq<bv8> := SIGNATURE + [0, 0, 1, 0] + [92, 0, 0, 0];
    var f2 := f1 + Zeros(8) + my + Zeros(40);
    var f3: seq<bv8> := f2 + [2, 0, 0, 0, 0, 0, 0, 0];
    var f4 := f3 + CountBytes(n);
    var f5: seq<bv8> := f4 + [128, 0, 0, 0];
    var f := f5 + WordBytes(entCrc);
    assert f == HeaderFields(n, entCrc, my);
    assert f1[..8] == SIGNATURE && f1[12..16] == [92, 0, 0, 0];
    assert f[..16] == f1 && f[16..24] == Zeros(8) && f[16..20] == f[16..24][..4] == [0, 0, 0, 0];
    assert f[..8] == f[..16][..8] && f[12..16] == f[..16][12..16];
  }

  /** Up to its checksum field and behind it the sector is the fields. */
  lemma SectorKeeps(n: nat, entCrc: bv32, my: seq<bv8>, a: nat, b: nat)
    requires n <= 256 && |my| == 8 && (a <= b <= 16 || 20 <= a <= b <= 92)
    ensures HeaderSector(n, entCrc, my)[a..b] == HeaderFields(n, entCrc, my)[a..b]
  {
    hide Crc32, WordBytes, HeaderFields;
  }

  lemma SectorSum(n: nat, entCrc: bv32, my: seq<bv8>)
    requires n <= 256 && |my| == 8 && HeaderFields(n, entCrc, my)[16..20] == [0, 0, 0, 0]
    ensures Word(HeaderSector(n, entCrc, my), 16) == Crc32(Blanked(HeaderSector(n, entCrc, my), 92))
  {
    hide Crc32, WordBytes, HeaderFields, Word;
    var f, sec := HeaderFields(n, entCrc, my), HeaderSector(n, entCrc, my);
    assert sec[16..20] == WordBytes(Crc32(f));
    WordOfBytes(sec, 16, Crc32(f));
    assert f == f[..16] + f[16..20] + f[20..];
    assert Blanked(sec, 92) == f;
  }

  lemma FieldIs(n: nat, entCrc: bv32, my: seq<bv8>, at: nat, size: nat, p: seq<bv8>)
    requires n <= 256 && |my| == 8 && (at + size <= 16 || 20 <= at <= at + size <= 92)
    requires HeaderFields(n, entCrc, my)[at..at + size] == p
    ensures Field(HeaderSector(n, entCrc, my), at, size) == Number(p)
  {
    hide Crc32, WordBytes, Number, HeaderSector, HeaderFields;
    SectorKeeps(n, entCrc, my, at, at + size);
  }

  lemma FieldsRead(n: nat, entCrc: bv32, my: seq<bv8>)
    requires 1 <= n <= 256 && |my| == 8
    ensures var sec := HeaderSector(n, entCrc, my);
      && Field(sec, 12, 4) == 92 && Field(sec, 24, 8) == Number(my) && Field(sec, 72, 8) == 2
      && Field(sec, 80, 4) == n && Field(sec, 84, 4) == ENTRY
  {
    hide Crc32, WordBytes, Number, HeaderSector, HeaderFields, Field, CountBytes;
    FieldsAre(n, entCrc, my);
    FieldIs(n, entCrc, my, 12, 4, [92, 0, 0, 0]);
    FieldIs(n, entCrc, my, 24, 8, my);
    FieldIs(n, entCrc, my, 72, 8, [2, 0, 0, 0, 0, 0, 0, 0]);
    FieldIs(n, entCrc, my, 84, 4, [128, 0, 0, 0]);
    FourBytes(92, 0);
    FourBytes(128, 0);
    EightBytes(2);
    FieldIs(n, entCrc, my, 80, 4, CountBytes(n));
    CountIs(n);
  }

  lemma CountIs(n: nat)
    requires n <= 256
    ensures Number(CountBytes(n)) == n
  {
    hide Number;
    if n == 256 {
      FourBytes(0, 1);
    } else {
      FourBytes(ByteFor(n), 0);
    }
  }

  /** The byte that stands for a number. */
  function ByteFor(n: nat): (c: bv8)
    requires n < 256
    ensures c as int == n
  {
    if n == 0 then 0 else
      var c := ByteFor(n - 1);
      NextByte(c);
      c + 1
  }

  lemma NextByte(c: bv8)
    requires (c as int) < 255
    ensures (c + 1) as int == (c as int) + 1
  {
    NotLast(c);
  }

  lemma NotLast(c: bv8)
    requires (c as int) < 255
    ensures c < 255
  {
  }

  lemma HeaderSectorTests(n: nat, entCrc: bv32, my: seq<bv8>)
    requires 1 <= n <= 256 && |my| == 8
    ensures HeaderTests(HeaderSector(n, entCrc, my))
  {
    hide Crc32, Word, WordBytes, Field, HeaderSector, HeaderFields, Blanked;
    FieldsAre(n, entCrc, my);
    FieldsRead(n, entCrc, my);
    SectorSum(n, entCrc, my);
    SectorKeeps(n, entCrc, my, 0, 8);
  }

  lemma HeaderSectorOk(n: nat, entCrc: bv32, my: seq<bv8>)
    requires 1 <= n <= 256 && |my| == 8
    ensures var sec := HeaderSector(n, entCrc, my);
      HeaderOk(sec) && MyLba(sec) == Number(my) && HeaderOf(sec) == Header(2, n, entCrc)
  {
    hide Crc32, Word, WordBytes, Field, HeaderSector, HeaderFields, Blanked, HeaderTests;
    FieldsAre(n, entCrc, my);
    FieldsRead(n, entCrc, my);
    HeaderSectorTests(n, entCrc, my);
    SectorKeeps(n, entCrc, my, 88, 92);
    WordOfBytes(HeaderSector(n, entCrc, my), 88, entCrc);
  }

  lemma FourBytes(a: bv8, b: bv8)
    ensures Number([a, b, 0, 0]) == (a as int) + 256 * (b as int)
  {
    assert [a, b, 0, 0][1..] == [b, 0, 0] && [b, 0, 0][1..] == [0, 0] && [0, 0][1..] == [0] && [0 as bv8][1..] == [];
    assert Number([0]) == 0 && Number([0, 0]) == 0;
  }

  lemma EightBytes(a: bv8)
    ensures Number([a, 0, 0, 0, 0, 0, 0, 0]) == a as int
  {
    var z: seq<bv8> := [0, 0, 0, 0, 0, 0, 0];
    NoNumber(z);
    assert [a, 0, 0, 0, 0, 0, 0, 0][1..] == z;
  }

  lemma {:induction false} NoNumber(z: seq<bv8>)
    requires forall i :: 0 <= i < |z| ==> z[i] == 0
    ensures Number(z) == 0
  {
    if z != [] { NoNumber(z[1..]); }
  }

  /** Byte k of the entries lies where the sectors say. */
  lemma {:induction false} ReadAllIs(disk: Disk, lba: u32, n: nat, k: nat)
    requires DiskOk(disk) && ReadAll(disk, lba, n).Some? && k < n * SECTOR
    ensures var at := (lba + k / SECTOR) % U32;
      at in disk && ReadAll(disk, lba, n).value[k] == disk[at][k % SECTOR]
  {
    if k < (n - 1) * SECTOR { ReadAllIs(disk, lba, n - 1, k); }
  }

  /** Entries damaged in at most four consecutive bytes are rejected. */
  lemma DamagedEntries(disk: Disk, bad: Disk, before: seq<bv8>, a: seq<bv8>, b: seq<bv8>, after: seq<bv8>)
    requires DiskOk(disk) && DiskOk(bad) && Found(disk).Some? && 1 in bad && bad[1] == disk[1]
    requires |a| == |b| <= 4 && a != b
    requires var h := HeaderOf(disk[1]);
      && ReadAll(disk, h.entLba, SectorsFor(h.numEnt)) == Some(before + a + after)
      && ReadAll(bad, h.entLba, SectorsFor(h.numEnt)) == Some(before + b + after)
    ensures Found(bad).None?
  {
    hide Crc32, HeaderOk;
    BurstDetected(before, a, b, after);
  }

  // ----- The code ---------------------------------------------------------------------------

  method CheckHeader(sec: seq<bv8>, t: Table) returns (h: Option<Header>)
    requires |sec| == SECTOR && t.Valid()
    modifies t, t.tab
    ensures t.Valid() && (h.Some? ==> t.ready && 1 <= h.value.numEnt <= 256 && h.value.entLba < U32)
    ensures h == if HeaderOk(sec) then Some(HeaderOf(sec)) else None
  {
    hide Crc32, Word, Number;
    if sec[..8] != SIGNATURE { return None; }
    var size := Read(sec, 12, 4);
    if size < 92 || size > 512 { return None; }
    var tmp := new bv8[SECTOR](i requires 0 <= i < SECTOR => sec[i]);
    tmp[16], tmp[17], tmp[18], tmp[19] := 0, 0, 0, 0;
    assert forall i :: 0 <= i < SECTOR ==> tmp[i] == if 16 <= i < 20 then 0 else sec[i];
    assert tmp[..size] == Blanked(sec, size);
    var sum := t.Sum(tmp, size);
    if sum != Word(sec, 16) { return None; }
    var entLba := Read(sec, 72, 8);
    var numEnt := Read(sec, 80, 4);
    var entSize := Read(sec, 84, 4);
    if entSize != ENTRY { return None; }
    if numEnt == 0 || numEnt > 256 { return None; }
    if entLba > 0xFFFF_FFFF { return None; }
    return Some(Header(entLba, numEnt, Word(sec, 88)));
  }

  /** guid_zero, negated. */
  method HasGuid(en: seq<bv8>) returns (r: bool)
    requires |en| == ENTRY
    ensures r <==> InUse(en)
  {
    for i := 0 to 16
      invariant forall j :: 0 <= j < i ==> en[j] == 0
    {
      if en[i] != 0 { return true; }
    }
    return false;
  }

  method ReadPart(en: seq<bv8>) returns (p: Part)
    requires |en| == ENTRY
    ensures p == PartOf(en)
  {
    var start := Read(en, 32, 8);
    var end := Read(en, 40, 8);
    var name := ReadName(en);
    return Part(en[..16], en[16..32], start, end, name);
  }

  lemma ShownNext(en: seq<bv8>, c: nat)
    requires |en| == ENTRY && c < 36
    ensures Shown(en, c)[c := en[56 + 2 * c]] == Shown(en, c + 1)
  {
  }

  /** Low bytes up to the first that is not printable, which ends the name. */
  method ReadName(en: seq<bv8>) returns (name: seq<bv8>)
    requires |en| == ENTRY
    ensures name == NameOf(en)
  {
    hide Shown;
    name := Shown(en, 0);
    var c := 0;
    while c < 36
      invariant 0 <= c <= 36 && |name| == 37 && PrintableFrom(en, 0) == c + PrintableFrom(en, c)
      invariant name == Shown(en, c)
    {
      var lo := en[56 + 2 * c];
      if !(lo >= 32 && lo < 127) { break; }
      ShownNext(en, c);
      name := name[c := lo];
      c := c + 1;
    }
    assert PrintableFrom(en, 0) == c;
  }

  /** The first slots of the result hold the partitions found so far. */
  ghost predicate Recorded(parts: array<Part>, was: seq<Part>, n: nat, limit: nat, found: seq<Part>)
    requires limit <= parts.Length == |was|
    reads parts
  {
    n == Min(|found|, limit) && parts[..] == found[..n] + was[n..]
  }

  /** One entry. */
  method Record(en: seq<bv8>, parts: array<Part>, n: nat, limit: nat, ghost was: seq<Part>, ghost found: seq<Part>)
      returns (n': nat)
    requires |en| == ENTRY && limit <= parts.Length == |was| && Recorded(parts, was, n, limit, found)
    modifies parts
    ensures n' <= limit && Recorded(parts, was, n', limit, if InUse(en) then found + [PartOf(en)] else found)
  {
    var used := HasGuid(en);
    if !used { return n; }
    if n < limit {
      var p := ReadPart(en);
      parts[n] := p;
      return n + 1;
    }
    return n;
  }

  /** The four entries of a sector, as far as they count. */
  method RecordSector(sec: seq<bv8>, s: nat, numEnt: nat, parts: array<Part>, n: nat, limit: nat,
                      ghost was: seq<Part>, ghost bytes: seq<bv8>) returns (n': nat)
    requires |sec| == SECTOR && |bytes| == (s + 1) * SECTOR && bytes[s * SECTOR..] == sec && s < SectorsFor(numEnt)
    requires n <= limit <= parts.Length == |was| && Recorded(parts, was, n, limit, Parts(bytes, 4 * s))
    modifies parts
    ensures n' <= limit && Recorded(parts, was, n', limit, Parts(bytes, Min(4 * (s + 1), numEnt)))
  {
    hide Recorded, InUse, PartOf;
    n' := n;
    var e := 0;
    while e < 4 && s * 4 + e < numEnt
      invariant 0 <= e <= 4 && s * 4 + e <= numEnt
      invariant n' <= limit && Recorded(parts, was, n', limit, Parts(bytes, 4 * s + e))
    {
      var en := sec[e * ENTRY..(e + 1) * ENTRY];
      assert en == EntryAt(bytes, 4 * s + e);
      n' := Record(en, parts, n', limit, was, Parts(bytes, 4 * s + e));
      e := e + 1;
    }
    assert 4 * s + e == Min(4 * (s + 1), numEnt);
  }

  lemma {:induction false} PartsOfPrefix(bytes: seq<bv8>, more: seq<bv8>, n: nat)
    requires n * ENTRY <= |bytes|
    ensures Parts(bytes + more, n) == Parts(bytes, n)
  {
    if n > 0 {
      PartsOfPrefix(bytes, more, n - 1);
      assert EntryAt(bytes + more, n - 1) == EntryAt(bytes, n - 1);
    }
  }

  /** The running checksum over one more sector. */
  method RunSector(sec: seq<bv8>, c: bv32, t: Table) returns (r: bv32)
    requires |sec| == SECTOR && t.Valid() && t.ready
    ensures r == Run(c, sec)
  {
    hide ByteStep;
    r := c;
    for i := 0 to SECTOR
      invariant r == Run(c, sec[..i])
    {
      assert sec[..i + 1][..i] == sec[..i];
      r := t.Step(r, sec[i]);
    }
    assert sec[..SECTOR] == sec;
  }

  /** gpt_scan: the number of partitions, or -1.  The first slots of parts hold them. */
  method Scan(disk: Disk, parts: array?<Part>, maxparts: int, t: Table) returns (n: int)
    requires DiskOk(disk) && t.Valid()
    requires parts != null ==> Min(if maxparts > 0 then maxparts else 0, GPT_MAX_PARTS) <= parts.Length
    requires parts != null ==> (parts as object) != t.tab
    modifies parts, t, t.tab
    ensures t.Valid()
    ensures n < 0 <==> parts == null || maxparts <= 0 || Found(disk).None?
    ensures n >= 0 ==> Recorded(parts, old(parts[..]), n, Min(maxparts, GPT_MAX_PARTS), Found(disk).value)
    ensures -1 <= n <= GPT_MAX_PARTS
  {
    hide Crc32, HeaderOk, ByteStep, Word, Parts;
    if parts == null || maxparts <= 0 { return -1; }
    if 1 !in disk { return -1; }
    var h := CheckHeader(disk[1], t);
    if h.None? { return -1; }
    n := ScanEntries(disk, h.value, parts, Min(maxparts, GPT_MAX_PARTS), t);
  }

  method ScanEntries(disk: Disk, h: Header, parts: array<Part>, limit: nat, t: Table) returns (n: int)
    requires DiskOk(disk) && t.Valid() && t.ready && limit <= parts.Length && (parts as object) != t.tab
    requires 1 <= h.numEnt <= 256 && h.entLba < U32 && limit <= GPT_MAX_PARTS
    modifies parts
    ensures t.Valid() && t.ready && -1 <= n <= limit
    ensures var bytes := ReadAll(disk, h.entLba, SectorsFor(h.numEnt));
      if bytes.None? || Crc32(bytes.value) != h.entCrc then n == -1
      else n >= 0 && Recorded(parts, old(parts[..]), n, limit, Parts(bytes.value, h.numEnt))
  {
    hide Crc32, ByteStep, Xor, Parts, PartOf, InUse, Recorded;
    var total := SectorsFor(h.numEnt);
    var run := ONES;
    ghost var was, bytes := parts[..], [];
    var m: nat := 0;
    NoParts([]);
    NothingRecorded(parts, limit);
    for s := 0 to total
      invariant t.Valid() && t.ready
      invariant ReadAll(disk, h.entLba, s) == Some(bytes) && |bytes| == s * SECTOR && run == Run(ONES, bytes)
      invariant m <= limit && Recorded(parts, was, m, limit, Parts(bytes, Min(4 * s, h.numEnt)))
    {
      var at := (h.entLba + s) % U32;
      if at !in disk {
        ReadFails(disk, h.entLba, s, total);
        return -1;
      }
      var sec := disk[at];
      run := RunSector(sec, run, t);
      RunConcat(ONES, bytes, sec);
      PartsOfPrefix(bytes, sec, 4 * s);
      bytes := bytes + sec;
      m := RecordSector(sec, s, h.numEnt, parts, m, limit, was, bytes);
    }
    RunIsBits(ONES, bytes);
    SumIs(bytes, run);
    if Xor(run, ONES) != h.entCrc { return -1; }
    return m;
  }

  lemma NothingRecorded(parts: array<Part>, limit: nat)
    requires limit <= parts.Length
    ensures Recorded(parts, parts[..], 0, limit, [])
  {
  }

  lemma NoParts(bytes: seq<bv8>)
    ensures Parts(bytes, 0) == []
  {
  }

  lemma SumIs(bytes: seq<bv8>, run: bv32)
    requires run == Bits(ONES, AllBits(bytes))
    ensures Crc32(bytes) == Xor(run, ONES)
  {
  }

  /** A sector that cannot be read makes the whole read fail. */
  lemma {:induction false} ReadFails(disk: Disk, lba: u32, s: nat, n: nat)
    requires DiskOk(disk) && s < n && (lba + s) % U32 !in disk
    ensures ReadAll(disk, lba, n).None?
  {
    if s < n - 1 { ReadFails(disk, lba, s, n - 1); }
  }
}

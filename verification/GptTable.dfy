// Partition tables written as section 5.3.3 of the UEFI Specification lays them out, and
// what gpt_scan finds in them.

module GptTable {
  import opened Crc
  import opened Gpt
  import opened Words

  const U64 := 0x1_0000_0000_0000_0000

  /** A number in little-endian order. */
  function Bytes(v: nat, n: nat): (r: seq<bv8>)
    ensures |r| == n
  {
    if n == 0 then [] else [ByteFor(v % 256)] + Bytes(v / 256, n - 1)
  }

  /** Which end is which, and what the signature spells. */
  lemma LowestByteFirst()
    ensures Number([1, 2, 3]) == 0x3_0201
    ensures Word([0x78, 0x56, 0x34, 0x12], 0) == 0x1234_5678
    ensures |SIGNATURE| == 8 && forall k :: 0 <= k < 8 ==> SIGNATURE[k] as char == "EFI PART"[k]
  {
    var p: seq<bv8> := [1, 2, 3];
    assert p[1..] == [2, 3] && p[1..][1..] == [3] && p[1..][1..][1..] == [];
    assert Number([3]) == 3 && Number([2, 3]) == 2 + 256 * 3;
  }

  /** 256 to the n. */
  function Pow256(n: nat): (r: nat)
    ensures r > 0
  {
    if n == 0 then 1 else 256 * Pow256(n - 1)
  }

  lemma {:induction false} NumberOfBytes(v: nat, n: nat)
    requires v < Pow256(n)
    ensures Number(Bytes(v, n)) == v
  {
    if n > 0 {
      assert v / 256 < Pow256(n - 1);
      NumberOfBytes(v / 256, n - 1);
      assert Bytes(v, n)[1..] == Bytes(v / 256, n - 1);
    }
  }

  lemma EightByteNumbers()
    ensures Pow256(8) == U64
  {
    assert Pow256(2) == 0x1_0000;
    assert Pow256(4) == 256 * (256 * Pow256(2));
    assert Pow256(6) == 256 * (256 * Pow256(4));
    assert Pow256(8) == 256 * (256 * Pow256(6));
  }

  /** A name of at most 36 printable characters, padded with zeros to 37. */
  predicate IsName(name: seq<bv8>) {
    && |name| == 37
    && exists n :: 0 <= n <= 36 && NameEnds(name, n)
  }

  predicate NameEnds(name: seq<bv8>, n: nat) {
    && n <= 36 && |name| == 37
    && (forall c :: 0 <= c < n ==> Printable(name[c]))
    && forall c :: n <= c < 37 ==> name[c] == 0
  }

  predicate IsGuid(g: seq<bv8>) {
    |g| == 16 && exists i :: 0 <= i < 16 && g[i] != 0
  }

  /** What an entry can say: sectors are 64-bit numbers, and an entry in use has a type. */
  predicate IsPart(p: Part) {
    IsGuid(p.typeGuid) && |p.uniqueGuid| == 16 && p.startLba < U64 && p.endLba < U64 && IsName(p.name)
  }

  /** An entry of the table: in use, with its eight bytes of attributes, or not, which is
      when its type is zero, whatever else is in it. */
  datatype Entry = Used(part: Part, attributes: seq<bv8>) | Unused(others: seq<bv8>)

  predicate EntryOk(e: Entry) {
    match e
    case Used(p, attributes) => IsPart(p) && |attributes| == 8
    case Unused(others) => |others| == 112
  }

  /** The name in UTF-16, least significant byte first. */
  function NameBytes(name: seq<bv8>): (r: seq<bv8>)
    requires |name| == 37
    ensures |r| == 72
  {
    seq(72, k requires 0 <= k < 72 => if k % 2 == 0 then name[k / 2] else 0)
  }

  /** Type GUID, unique GUID, first and last sector, attributes and name. */
  function EntryBytes(e: Entry): (r: seq<bv8>)
    requires EntryOk(e)
    ensures |r| == ENTRY
  {
    match e
    case Used(p, attributes) =>
      p.typeGuid + p.uniqueGuid + Bytes(p.startLba, 8) + Bytes(p.endLba, 8) + attributes + NameBytes(p.name)
    case Unused(others) => Zeros(16) + others
  }

  predicate AllOk(es: seq<Entry>) {
    forall i :: 0 <= i < |es| ==> EntryOk(es[i])
  }

  function TableBytes(es: seq<Entry>): (r: seq<bv8>)
    requires AllOk(es)
    ensures |r| == |es| * ENTRY
  {
    if es == [] then [] else TableBytes(es[..|es| - 1]) + EntryBytes(es[|es| - 1])
  }

  /** The partitions of the table, in order. */
  function Present(es: seq<Entry>): seq<Part> {
    if es == [] then [] else Present(es[..|es| - 1]) + if es[|es| - 1].Used? then [es[|es| - 1].part] else []
  }

  // ----- Reading back an entry ------------------------------------------------------------

  lemma PrintableName(en: seq<bv8>, name: seq<bv8>, n: nat, c: nat)
    requires |en| == ENTRY && NameEnds(name, n) && en[56..] == NameBytes(name) && c <= n
    ensures PrintableFrom(en, c) == n - c
    decreases n - c
  {
    hide NameBytes;
    if c < 36 { UnitRead(en, name, c); }
    if c < n { PrintableName(en, name, n, c + 1); }
  }

  lemma UnitRead(en: seq<bv8>, name: seq<bv8>, c: nat)
    requires |en| == ENTRY && |name| == 37 && en[56..] == NameBytes(name) && c < 36
    ensures en[56 + 2 * c] == name[c]
  {
    assert en[56 + 2 * c] == en[56..][2 * c];
  }

  lemma ShownRead(en: seq<bv8>, name: seq<bv8>, n: nat)
    requires |en| == ENTRY && NameEnds(name, n) && en[56..] == NameBytes(name)
    ensures Shown(en, n) == name
  {
    hide NameBytes;
    forall c | 0 <= c < n
      ensures en[56 + 2 * c] == name[c]
    {
      UnitRead(en, name, c);
    }
  }

  lemma NameRead(en: seq<bv8>, name: seq<bv8>)
    requires |en| == ENTRY && IsName(name) && en[56..] == NameBytes(name)
    ensures NameOf(en) == name
  {
    hide NameBytes, NameEnds;
    var n :| 0 <= n <= 36 && NameEnds(name, n);
    PrintableName(en, name, n, 0);
    ShownRead(en, name, n);
  }

  lemma FieldRead(en: seq<bv8>, at: nat, v: nat)
    requires at + 8 <= |en| && v < U64 && en[at..at + 8] == Bytes(v, 8)
    ensures Field(en, at, 8) == v
  {
    EightByteNumbers();
    NumberOfBytes(v, 8);
  }

  /** Where the fields of an entry are. */
  lemma FieldsOf(p: Part, attributes: seq<bv8>)
    requires EntryOk(Used(p, attributes))
    ensures var en := EntryBytes(Used(p, attributes));
      && en[..16] == p.typeGuid && en[16..32] == p.uniqueGuid && en[32..40] == Bytes(p.startLba, 8)
      && en[40..48] == Bytes(p.endLba, 8) && en[56..] == NameBytes(p.name)
  {
    hide Bytes, NameBytes;
    var a := p.typeGuid + p.uniqueGuid;
    var b := a + Bytes(p.startLba, 8);
    var c := b + Bytes(p.endLba, 8);
    var d := c + attributes;
    var en := EntryBytes(Used(p, attributes));
    assert en == d + NameBytes(p.name);
    assert a == en[..32] && b == en[..40] && c == en[..48];
    assert en[..16] == a[..16] && en[16..32] == a[16..] && en[32..40] == b[32..] && en[40..48] == c[40..];
  }

  /** The scan finds in an entry the partition written there ... */
  lemma EntryReadsBack(p: Part, attributes: seq<bv8>)
    requires EntryOk(Used(p, attributes))
    ensures InUse(EntryBytes(Used(p, attributes))) && PartOf(EntryBytes(Used(p, attributes))) == p
  {
    hide EntryBytes, Field, NameOf;
    var en := EntryBytes(Used(p, attributes));
    FieldsOf(p, attributes);
    FieldRead(en, 32, p.startLba);
    FieldRead(en, 40, p.endLba);
    NameRead(en, p.name);
    var i :| 0 <= i < 16 && p.typeGuid[i] != 0;
    assert en[i] == en[..16][i];
  }

  /** ... and nothing in one that is not in use. */
  lemma UnusedIsSkipped(others: seq<bv8>)
    requires |others| == 112
    ensures !InUse(EntryBytes(Unused(others)))
  {
  }

  // ----- Reading back a table ----------------------------------------------------------------

  lemma {:induction false} TableReadsBack(es: seq<Entry>, rest: seq<bv8>)
    requires AllOk(es)
    ensures Parts(TableBytes(es) + rest, |es|) == Present(es)
  {
    hide EntryBytes, InUse, PartOf, EntryOk;
    if es != [] {
      var n := |es| - 1;
      var init, last := TableBytes(es[..n]), EntryBytes(es[n]);
      TableReadsBack(es[..n], last + rest);
      assert TableBytes(es) + rest == init + (last + rest);
      assert EntryAt(init + (last + rest), n) == last;
      EntryFound(es[n]);
    } else {
      assert Parts(TableBytes(es) + rest, 0) == [];
    }
  }

  lemma EntryFound(e: Entry)
    requires EntryOk(e)
    ensures InUse(EntryBytes(e)) == e.Used?
    ensures e.Used? ==> PartOf(EntryBytes(e)) == e.part
  {
    hide EntryBytes, InUse, PartOf;
    match e
    case Used(p, attributes) => EntryReadsBack(p, attributes);
    case Unused(others) => UnusedIsSkipped(others);
  }

  /** A disk holds the table: an accepted header for that many entries, the entries in the
      sectors it names, and their checksum. */
  ghost predicate Holds(disk: Disk, es: seq<Entry>, rest: seq<bv8>)
    requires DiskOk(disk) && AllOk(es)
  {
    && 1 in disk && HeaderOk(disk[1])
    && var h := HeaderOf(disk[1]);
       && h.numEnt == |es| && h.entCrc == Crc32(TableBytes(es) + rest)
       && ReadAll(disk, h.entLba, SectorsFor(h.numEnt)) == Some(TableBytes(es) + rest)
  }

  /** The scan of such a disk finds exactly the partitions of the table, in order. */
  lemma ScanReadsBack(disk: Disk, es: seq<Entry>, rest: seq<bv8>)
    requires DiskOk(disk) && AllOk(es) && Holds(disk, es, rest)
    ensures Found(disk) == Some(Present(es))
  {
    hide Crc32, HeaderOk, TableBytes, Parts, Present;
    TableReadsBack(es, rest);
  }

  /** Every table of up to 256 entries can be held by a disk, so it can be read back. */
  lemma TableCanBeHeld(es: seq<Entry>) returns (disk: Disk)
    requires AllOk(es) && 1 <= |es| <= 256
    ensures DiskOk(disk) && Found(disk) == Some(Present(es))
  {
    hide Crc32, HeaderTests, Supported, TableBytes;
    var n := |es|;
    var rest := Zeros(SectorsFor(n) * SECTOR - n * ENTRY);
    disk := TableDisk(n, Crc32(TableBytes(es) + rest), LBA_ONE, TableBytes(es) + rest);
    ScanReadsBack(disk, es, rest);
  }
}

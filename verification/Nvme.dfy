// The NVMe host of kernel/drivers/nvme.c against a controller: one queue pair with
// phase bits, one command at a time, and 512-byte sectors over 512- or 4096-byte blocks.

module Nvme {
  import opened Words

  const SECTOR := 512

  /** A submission queue entry: opcode, command identifier, block address. */
  datatype Sqe = Sqe(isWrite: bool, cid: nat, slba: nat)

  /** A completion queue entry; phase is bit 0 of the status word. */
  datatype Cqe = Cqe(cid: nat, sqhd: nat, sc: nat, sct: nat, phase: bool)

  predicate Succeeded(c: Cqe) {
    c.sc == 0 && c.sct == 0
  }

  /** What executing e may do to the blocks and the data buffer.  A write that fails
      may leave its own block in any state, a read that fails the buffer. */
  predicate Effect(disk: seq<seq<bv8>>, buf: seq<bv8>, e: Sqe, ok: bool, disk': seq<seq<bv8>>, buf': seq<bv8>,
                   bytes: nat) {
    && |disk'| == |disk| && |buf'| == |buf| && bytes <= |buf|
    && (forall b :: 0 <= b < |disk| && b != e.slba ==> disk'[b] == disk[b])
    && (ok ==> e.slba < |disk|)
    && (if e.isWrite then buf' == buf && (ok ==> disk'[e.slba] == buf[..bytes])
        else disk' == disk && (ok ==> buf' == disk[e.slba] + buf[bytes..]))
  }

  predicate BlocksOk(disk: seq<seq<bv8>>, bytes: nat) {
    forall b :: 0 <= b < |disk| ==> |disk[b]| == bytes
  }

  /** The next queue position. */
  function After(i: nat, size: nat): (r: nat)
    requires i < size
    ensures r == (if i + 1 == size then 0 else i + 1) && r < size
  {
    if i + 1 < size then Small(i + 1, size); (i + 1) % size
    else (i + 1) % size
  }

  /** Entries before head are of the current pass, the others of the one before. */
  predicate PhasesOk(cq: seq<Cqe>, head: nat, phase: bool) {
    forall j :: 0 <= j < |cq| ==> (cq[j].phase == phase <==> j < head)
  }

  lemma PhasesNext(cq: seq<Cqe>, cq': seq<Cqe>, head: nat, phase: bool)
    requires PhasesOk(cq, head, phase) && head < |cq| == |cq'|
    requires cq' == cq[head := cq'[head]] && cq'[head].phase == phase
    ensures var head' := After(head, |cq|); PhasesOk(cq', head', if head' == 0 then !phase else phase)
  {
  }

  /** The controller's side: its own pointers and phase, the doorbells, the blocks. */
  class Controller {
    const size: nat
    const sq: array<Sqe>
    const cq: array<Cqe>
    const buf: array<bv8>
    const bytes: nat
    var disk: seq<seq<bv8>>
    var sqHead: nat
    var sqTail: nat
    var cqTail: nat
    var cqHead: nat
    var phase: bool
    // How many commands it has completed with an error status, and how many polls' worth
    // of time it has let pass.
    ghost var errors: nat
    ghost var idle: nat

    ghost predicate Shape()
      reads this
    {
      && size >= 2 && sq.Length == cq.Length == size && BlocksOk(disk, bytes)
      && (bytes == SECTOR || bytes == 8 * SECTOR) && buf.Length == 8 * SECTOR
      && (sq as object) != cq && (sq as object) != buf && (cq as object) != buf
      && sqHead < size && sqTail < size && cqTail < size && cqHead < size
    }

    constructor (sq: array<Sqe>, cq: array<Cqe>, buf: array<bv8>, bytes: nat, disk: seq<seq<bv8>>)
      requires sq.Length == cq.Length >= 2 && BlocksOk(disk, bytes)
      requires (bytes == SECTOR || bytes == 8 * SECTOR) && buf.Length == 8 * SECTOR
      requires (sq as object) != cq && (sq as object) != buf && (cq as object) != buf
      ensures Shape() && this.sq == sq && this.cq == cq && this.buf == buf && this.bytes == bytes && this.disk == disk
      ensures sqHead == sqTail == cqTail == cqHead == 0 && phase
    {
      this.size, this.sq, this.cq, this.buf, this.bytes, this.disk := sq.Length, sq, cq, buf, bytes, disk;
      sqHead, sqTail, cqTail, cqHead, phase, errors, idle := 0, 0, 0, 0, true, 0, 0;
    }

    /** One poll's worth of time: nothing happens, or the next command is executed
        and its completion posted at the tail of the completion queue. */
    method Work() returns (worked: bool)
      requires Shape() && (sqHead != sqTail ==> After(cqTail, size) != cqHead)
      modifies this`disk, this`sqHead, this`cqTail, this`phase, this`errors, this`idle, cq, buf
      ensures Shape() && (worked ==> old(sqHead) != sqTail)
      ensures idle == old(idle) + if worked then 0 else 1
      ensures errors == old(errors) + if worked && !Succeeded(cq[old(cqTail)]) then 1 else 0
      ensures !worked ==>
        && disk == old(disk) && sqHead == old(sqHead) && cqTail == old(cqTail) && phase == old(phase)
        && cq[..] == old(cq[..]) && buf[..] == old(buf[..])
      ensures worked ==>
        && Posted(old(sq[sqHead]), old(cqTail), old(phase), old(cq[..]), cq[..])
        && sqHead == After(old(sqHead), size) && cqTail == After(old(cqTail), size)
        && phase == (if cqTail == 0 then !old(phase) else old(phase))
        && Effect(old(disk), old(buf[..]), old(sq[sqHead]), Succeeded(cq[old(cqTail)]), disk, buf[..], bytes)
    {
      worked := *;
      if sqHead == sqTail { worked := false; }
      if !worked {
        idle := idle + 1;
        return;
      }
      var e := sq[sqHead];
      sqHead := After(sqHead, size);
      var sc: nat, sct: nat := *, *;
      if e.slba >= |disk| { sc, sct := 0x80, 0; }
      Execute(e, sc == 0 && sct == 0);
      if sc != 0 || sct != 0 { errors := errors + 1; }
      cq[cqTail] := Cqe(e.cid, sqHead, sc, sct, phase);
      cqTail := After(cqTail, size);
      if cqTail == 0 { phase := !phase; }
    }

    /** Moves the data of one command; a command that fails may move anything. */
    method Execute(e: Sqe, ok: bool)
      requires Shape() && (ok ==> e.slba < |disk|)
      modifies this`disk, buf
      ensures Shape() && Effect(old(disk), old(buf[..]), e, ok, disk, buf[..], bytes)
    {
      var data: seq<bv8> := *;
      if ok { data := if e.isWrite then buf[..bytes] else disk[e.slba]; }
      if |data| != bytes { return; }
      if !e.isWrite {
        CopyIn(buf, 0, data);
      } else if e.slba < |disk| {
        disk := disk[e.slba := data];
      }
    }
  }

  /** memcpy of a whole sequence to an offset. */
  method CopyIn(a: array<bv8>, off: nat, data: seq<bv8>)
    requires off + |data| <= a.Length
    modifies a
    ensures a[..] == old(a[..off]) + data + old(a[off + |data|..])
  {
    for i := 0 to |data|
      invariant a[..off] == old(a[..off]) && a[off..off + i] == data[..i]
      invariant a[off + i..] == old(a[off + i..])
    {
      a[off + i] := data[i];
      assert data[..i + 1] == data[..i] + [data[i]];
    }
  }

  /** The completion of e has been posted. */
  predicate Posted(e: Sqe, cqTail: nat, phase: bool, cq: seq<Cqe>, cq': seq<Cqe>) {
    && cqTail < |cq| == |cq'| && cq' == cq[cqTail := cq'[cqTail]]
    && cq'[cqTail].cid == e.cid && cq'[cqTail].phase == phase
  }

  datatype Outcome = Done | Failed | TimedOut

  /** The driver's side. */
  class Host {
    const dev: Controller
    const present: bool
    var tail: nat
    var head: nat
    var phase: bool
    var nextCid: nat

    /** No command outstanding: both sides agree on every pointer and on the phase. */
    ghost predicate Valid()
      reads this, dev, dev.cq
    {
      && dev.Shape() && tail == head == dev.sqHead == dev.sqTail == dev.cqTail == dev.cqHead && phase == dev.phase
      && PhasesOk(dev.cq[..], head, phase) && 0 < nextCid < 0x1_0000
    }

    /** After create_ioq: zeroed completion entries, phase 1. */
    constructor (dev: Controller, present: bool)
      requires dev.Shape()
      requires dev.sqHead == dev.sqTail == dev.cqTail == dev.cqHead == 0 && dev.phase
      requires forall j :: 0 <= j < dev.cq.Length ==> !dev.cq[j].phase
      ensures Valid() && this.dev == dev && this.present == present
    {
      this.dev, this.present, tail, head, phase, nextCid := dev, present, 0, 0, true, 1;
    }

    /** run_cmd.  polls is how often it looks before it gives up. */
    method RunCmd(e: Sqe, polls: nat) returns (r: Outcome, c: Cqe)
      requires Valid()
      modifies this`tail, this`head, this`phase, dev, dev.sq, dev.cq, dev.buf
      // Only a time-out leaves the two pointers apart.
      ensures r.TimedOut? ==> tail == After(old(tail), dev.size) && head == old(head)
      // It gives up only after so many polls without an answer, and fails only where the
      // controller did.
      ensures dev.idle >= old(dev.idle) + if r.TimedOut? then polls + 1 else 0
      ensures dev.errors == old(dev.errors) + if r.Failed? then 1 else 0
      // The entry accepted is the completion of this command, whatever the queues
      // held before, and both sides have moved on by one.
      ensures !r.TimedOut? ==>
        && Valid() && tail == After(old(tail), dev.size) && c.cid == e.cid && (r == Done <==> Succeeded(c))
        && Effect(old(dev.disk), old(dev.buf[..]), e, r == Done, dev.disk, dev.buf[..], dev.bytes)
    {
      hide Effect;
      ghost var at, was := head, dev.cq[..];
      dev.sq[tail] := e;
      tail := After(tail, dev.size);
      dev.sqTail := tail;
      var waited := 0;
      while dev.cq[head].phase != phase
        invariant dev.Shape() && head == at && phase == old(phase) && tail == dev.sqTail == After(at, dev.size)
                  && dev.cqHead == at && waited <= polls + 1
        invariant dev.cq[head].phase != phase ==> dev.idle == old(dev.idle) + waited && dev.errors == old(dev.errors)
        invariant dev.idle >= old(dev.idle)
        invariant dev.cq[head].phase == phase ==>
                    dev.errors == old(dev.errors) + if Succeeded(dev.cq[head]) then 0 else 1
        invariant PhasesOk(was, at, phase) && |was| == dev.size && dev.sq[at] == e
        invariant Waiting(dev, at, phase, was, old(dev.disk), old(dev.buf[..]))
               || Answered(dev, e, at, phase, was, old(dev.disk), old(dev.buf[..]))
        decreases polls - waited
      {
        if waited > polls { return TimedOut, dev.cq[head]; }
        assert Waiting(dev, at, phase, was, old(dev.disk), old(dev.buf[..]));
        var worked := dev.Work();
        waited := waited + 1;
      }
      c := dev.cq[head];
      PhasesNext(was, dev.cq[..], at, phase);
      head := After(head, dev.size);
      if head == 0 { phase := !phase; }
      dev.cqHead := head;
      r := if c.sc != 0 || c.sct != 0 then Failed else Done;
    }

    /** rw_native: one native block through the bounce buffer. */
    method Transfer(slba: nat, isWrite: bool, polls: nat) returns (r: Outcome)
      requires Valid()
      modifies this, dev, dev.sq, dev.cq, dev.buf
      ensures dev.idle >= old(dev.idle) + if r.TimedOut? then polls + 1 else 0
      ensures dev.errors == old(dev.errors) + if r.Failed? then 1 else 0
      ensures !r.TimedOut? ==>
        && Valid()
        && Effect(old(dev.disk), old(dev.buf[..]), Sqe(isWrite, old(nextCid), slba), r == Done, dev.disk, dev.buf[..],
                  dev.bytes)
    {
      var cid := nextCid;
      nextCid := (nextCid + 1) % 0x1_0000;
      if nextCid == 0 { nextCid := 1; }
      var e, c := Sqe(isWrite, cid, slba), Cqe(0, 0, 0, 0, false);
      r, c := RunCmd(e, polls);
    }

    /** nvme_capacity_sectors. */
    function Capacity(): nat
      reads this, dev
    {
      if !present then 0 else |dev.disk| * if dev.bytes == SECTOR then 1 else 8
    }

    /** The device as an array of 512-byte sectors. */
    ghost function View(): seq<seq<bv8>>
      requires dev.Shape()
      reads this, dev
    {
      Flat(dev.disk, dev.bytes)
    }

    lemma Sectors()
      requires dev.Shape() && present
      ensures Capacity() == |View()|
    {
    }

    /** nvme_read_sector into buf at off.  Whatever happens, no sector changes. */
    method ReadSector(lba: u32, buf: array<bv8>, off: nat, polls: nat) returns (r: Outcome)
      requires Valid() && off + SECTOR <= buf.Length && buf != dev.buf
      requires (buf as object) != dev.cq && (buf as object) != dev.sq
      modifies this, dev, dev.sq, dev.cq, dev.buf, buf
      ensures !r.TimedOut? ==> Valid() && View() == old(View())
      ensures r == Done ==>
              lba < old(Capacity()) && buf[..] == old(buf[..off]) + old(View())[lba] + old(buf[off + SECTOR..])
      ensures r != Done ==> buf[..] == old(buf[..])
      // It fails exactly beyond the device's end or where a command did.
      ensures !r.TimedOut? ==> (r == Done <==> lba < old(Capacity()) && dev.errors == old(dev.errors))
      ensures dev.errors >= old(dev.errors)
      ensures dev.idle >= old(dev.idle) + if r.TimedOut? then polls + 1 else 0
    {
      if !present || lba >= Capacity() { return Failed; }
      hide PhasesOk;
      if dev.bytes == SECTOR {
        r := Transfer(lba, false, polls);
        if r == Done { CopyIn(buf, off, dev.buf[..SECTOR]); }
      } else {
        r := Transfer(lba / 8, false, polls);
        if r == Done { CopyIn(buf, off, dev.buf[lba % 8 * SECTOR..lba % 8 * SECTOR + SECTOR]); }
      }
    }

    /** nvme_write_sector from data; blocks of 4096 bytes are read, changed and
        written back.  The other sectors of the block keep their contents. */
    method WriteSector(lba: u32, data: seq<bv8>, polls: nat) returns (r: Outcome)
      requires Valid() && |data| == SECTOR
      modifies this, dev, dev.sq, dev.cq, dev.buf
      ensures !r.TimedOut? ==> Valid() && Capacity() == old(Capacity())
      ensures r == Done ==> lba < old(Capacity()) && View() == old(View())[lba := data]
      ensures r == Failed ==> UpTo(old(View()), View(), lba, dev.bytes / SECTOR)
      ensures lba >= old(Capacity()) ==> r == Failed && View() == old(View())
      ensures !r.TimedOut? ==> (r == Done <==> lba < old(Capacity()) && dev.errors == old(dev.errors))
      ensures dev.errors >= old(dev.errors)
      ensures dev.idle >= old(dev.idle) + if r.TimedOut? then polls + 1 else 0
    {
      hide Flat, SectorOf, PhasesOk, BlocksOk, UpTo;
      if !present || lba >= Capacity() {
        UpToItself(View(), lba, dev.bytes / SECTOR);
        return Failed;
      }
      if dev.bytes == SECTOR {
        r := WriteWhole(lba, data, polls);
      } else {
        r := WritePart(lba, data, polls);
      }
    }

    method WriteWhole(lba: u32, data: seq<bv8>, polls: nat) returns (r: Outcome)
      requires Valid() && |data| == SECTOR && dev.bytes == SECTOR && lba < |dev.disk|
      modifies this, dev, dev.sq, dev.cq, dev.buf
      ensures !r.TimedOut? ==> Valid()
      ensures !r.TimedOut? ==> Capacity() == old(Capacity())
      ensures r == Done ==> View() == old(View())[lba := data]
      ensures r == Failed ==> UpTo(old(View()), View(), lba, 1)
      ensures !r.TimedOut? ==> (r == Done <==> dev.errors == old(dev.errors))
      ensures dev.errors >= old(dev.errors)
      ensures dev.idle >= old(dev.idle) + if r.TimedOut? then polls + 1 else 0
    {
      ghost var disk := dev.disk;
      CopyIn(dev.buf, 0, data);
      assert dev.buf[..SECTOR] == data;
      r := Transfer(lba, true, polls);
      if r == Done { WholeWritten(disk, dev.disk, lba, data); }
      if r == Failed { OneBlockChanged(disk, dev.disk, SECTOR, lba); }
    }

    method WritePart(lba: u32, data: seq<bv8>, polls: nat) returns (r: Outcome)
      requires Valid() && |data| == SECTOR && dev.bytes == 8 * SECTOR && lba < |dev.disk| * 8
      modifies this, dev, dev.sq, dev.cq, dev.buf
      ensures !r.TimedOut? ==> Valid()
      ensures !r.TimedOut? ==> Capacity() == old(Capacity())
      ensures r == Done ==> View() == old(View())[lba := data]
      ensures r == Failed ==> UpTo(old(View()), View(), lba, 8)
      ensures !r.TimedOut? ==> (r == Done <==> dev.errors == old(dev.errors))
      ensures dev.errors >= old(dev.errors)
      ensures dev.idle >= old(dev.idle) + if r.TimedOut? then polls + 1 else 0
    {
      ghost var disk := dev.disk;
      r := Transfer(lba / 8, false, polls);
      if r != Done { return; }
      assert dev.buf[..] == disk[lba / 8];
      CopyIn(dev.buf, lba % 8 * SECTOR, data);
      assert dev.buf[..dev.bytes] == dev.buf[..];
      r := Transfer(lba / 8, true, polls);
      if r == Done { PartWritten(disk, dev.disk, lba, data); }
      if r == Failed { OneBlockChanged(disk, dev.disk, 8 * SECTOR, lba); }
    }

    /** nvme_read_multi. */
    method ReadMulti(lba: u32, buf: array<bv8>, n: u32, polls: nat) returns (r: Outcome)
      requires Valid() && n * SECTOR <= buf.Length && buf != dev.buf && (buf as object) != dev.cq
               && (buf as object) != dev.sq
      modifies this, dev, dev.sq, dev.cq, dev.buf, buf
      ensures !r.TimedOut? ==> Valid() && View() == old(View())
      ensures r == Done ==> forall i :: 0 <= i < n ==>
              Nth(lba, i) < |View()| && Piece(buf[..], i) == View()[Nth(lba, i)]
      ensures buf[n * SECTOR..] == old(buf[n * SECTOR..])
      ensures !r.TimedOut? ==>
        (r == Done <==> present && dev.errors == old(dev.errors) && forall i :: 0 <= i < n ==> Nth(lba, i) < |View()|)
    {
      if !present { return Failed; }
      ghost var flat := View();
      for i := 0 to n
        invariant Valid() && View() == flat && present
        invariant forall k :: 0 <= k < i ==> Nth(lba, k) < |flat| && Piece(buf[..], k) == flat[Nth(lba, k)]
        invariant buf[n * SECTOR..] == old(buf[n * SECTOR..]) && dev.errors == old(dev.errors)
      {
        ghost var was := buf[..];
        Sectors();
        assert (lba + i) % U32 == Nth(lba, i);
        r := ReadSector((lba + i) % U32, buf, i * SECTOR, polls);
        if r != Done { return; }
        PieceRead(was, buf[..], flat[Nth(lba, i)], i, n);
      }
      return Done;
    }

    /** nvme_write_multi.  If it fails, a first part of the request is written, and
        the block of the sector that failed may hold anything. */
    method WriteMulti(lba: u32, data: seq<bv8>, n: u32, polls: nat) returns (r: Outcome, ghost done: nat)
      requires Valid() && n * SECTOR <= |data|
      modifies this, dev, dev.sq, dev.cq, dev.buf
      ensures !r.TimedOut? ==> Valid()
      ensures r == Done ==> View() == Overlaid(old(View()), lba, data, n)
                            && forall i :: 0 <= i < n ==> Nth(lba, i) < |View()|
      ensures r == Failed && present ==>
              done < n
              && UpTo(Overlaid(old(View()), lba, data, done), View(), Nth(lba, done), dev.bytes / SECTOR)
      ensures r == Failed && !present ==> View() == old(View())
      ensures r == Failed ==> !present || dev.errors > old(dev.errors) || Nth(lba, done) >= |old(View())|
      ensures r == Done ==> dev.errors == old(dev.errors)
    {
      hide Flat, SectorOf, PhasesOk, BlocksOk, UpTo, Overlaid;
      done := 0;
      if !present { return Failed, 0; }
      ghost var flat := View();
      NothingOverlaid(flat, lba, data);
      for i := 0 to n
        invariant Valid() && present && done == i && View() == Overlaid(flat, lba, data, i)
        invariant (forall k :: 0 <= k < i ==> Nth(lba, k) < |flat|) && dev.errors == old(dev.errors)
      {
        Sectors();
        assert (lba + i) % U32 == Nth(lba, i);
        OverlaidNext(flat, lba, data, i);
        r := WriteSector((lba + i) % U32, data[i * SECTOR..(i + 1) * SECTOR], polls);
        if r != Done { return; }
        done := i + 1;
      }
      return Done, n;
    }

    /** Any run of nvme_write_sector calls, as long as they succeed. */
    method WriteAll(log: Log, polls: nat) returns (r: Outcome)
      requires Valid() && forall i :: 0 <= i < |log| ==> |log[i].1| == SECTOR
      modifies this, dev, dev.sq, dev.cq, dev.buf
      ensures !r.TimedOut? ==> Valid() && |View()| == |old(View())|
      ensures r == Done ==> LogFits(log, |View()|) && View() == Replay(old(View()), log)
      ensures !r.TimedOut? ==> (r == Done <==> LogFits(log, old(Capacity())) && dev.errors == old(dev.errors))
    {
      hide Flat, SectorOf, PhasesOk, BlocksOk;
      ghost var flat := View();
      for i := 0 to |log|
        invariant Valid() && LogFits(log[..i], |flat|) && View() == Replay(flat, log[..i])
        invariant dev.errors == old(dev.errors) && Capacity() == old(Capacity())
        invariant LogFits(log[..i], Capacity())
      {
        r := WriteSector(log[i].0, log[i].1, polls);
        if r != Done { return; }
        assert log[..i + 1][..i] == log[..i];
      }
      assert log[..|log|] == log;
      return Done;
    }

    /** A read after any such run returns what the last write to its sector wrote, or
        what the sector held before the run. */
    method ReadsLastWrite(log: Log, k: u32, buf: array<bv8>, polls: nat, ghost last: int) returns (r: Outcome)
      requires Valid() && buf.Length == SECTOR && buf != dev.buf && (buf as object) != dev.cq
               && (buf as object) != dev.sq
      requires (forall i :: 0 <= i < |log| ==> |log[i].1| == SECTOR) && LastWrite(log, k, last)
      modifies this, dev, dev.sq, dev.cq, dev.buf, buf
      ensures r == Done ==> k < |old(View())| && buf[..] == if last >= 0 then log[last].1 else old(View())[k]
    {
      hide Flat, SectorOf, PhasesOk, BlocksOk;
      ghost var flat := View();
      r := WriteAll(log, polls);
      if r != Done { return; }
      r := ReadSector(k, buf, 0, polls);
      if r == Done { ReplayHasLast(flat, log, k, last); }
    }
  }

  /** Sector k of a device with 512- or 4096-byte blocks. */
  function SectorOf(disk: seq<seq<bv8>>, bytes: nat, k: nat): seq<bv8>
    requires (bytes == SECTOR || bytes == 8 * SECTOR) && BlocksOk(disk, bytes) && k < |disk| * (bytes / SECTOR)
  {
    if bytes == SECTOR then disk[k] else disk[k / 8][k % 8 * SECTOR..k % 8 * SECTOR + SECTOR]
  }

  function Flat(disk: seq<seq<bv8>>, bytes: nat): (r: seq<seq<bv8>>)
    requires (bytes == SECTOR || bytes == 8 * SECTOR) && BlocksOk(disk, bytes)
    ensures |r| == |disk| * (bytes / SECTOR)
  {
    seq(|disk| * (bytes / SECTOR), k requires 0 <= k < |disk| * (bytes / SECTOR) => SectorOf(disk, bytes, k))
  }

  /** The controller has not got to the command yet. */
  ghost predicate Waiting(dev: Controller, at: nat, phase: bool, was: seq<Cqe>, disk: seq<seq<bv8>>, buf: seq<bv8>)
    reads dev, dev.cq, dev.buf
  {
    dev.sqHead == dev.cqTail == at && dev.phase == phase && dev.cq[..] == was && dev.disk == disk && dev.buf[..] == buf
  }

  /** It has executed the command at position at and posted its completion. */
  ghost predicate Answered(dev: Controller, e: Sqe, at: nat, phase: bool, was: seq<Cqe>, disk: seq<seq<bv8>>,
                           buf: seq<bv8>)
    requires at < dev.size
    reads dev, dev.cq, dev.buf
  {
    && dev.sqHead == dev.cqTail == After(at, dev.size) && dev.phase == (if dev.cqTail == 0 then !phase else phase)
    && Posted(e, at, phase, was, dev.cq[..])
    && at < dev.cq.Length && Effect(disk, buf, e, Succeeded(dev.cq[at]), dev.disk, dev.buf[..], dev.bytes)
  }

  /** Only sectors of lba's own block, per sectors long, may differ. */
  predicate UpTo(flat: seq<seq<bv8>>, flat': seq<seq<bv8>>, lba: nat, per: nat)
    requires per > 0
  {
    |flat'| == |flat| && forall k :: 0 <= k < |flat| && k / per != lba / per ==> flat'[k] == flat[k]
  }

  lemma UpToItself(flat: seq<seq<bv8>>, lba: nat, per: nat)
    requires per > 0
    ensures UpTo(flat, flat, lba, per)
  {
  }

  lemma WholeWritten(disk: seq<seq<bv8>>, disk': seq<seq<bv8>>, lba: nat, data: seq<bv8>)
    requires BlocksOk(disk, SECTOR) && lba < |disk| == |disk'| && |data| == SECTOR
    requires disk'[lba] == data && forall b :: 0 <= b < |disk| && b != lba ==> disk'[b] == disk[b]
    ensures BlocksOk(disk', SECTOR) && Flat(disk', SECTOR) == Flat(disk, SECTOR)[lba := data]
  {
    assert forall b :: 0 <= b < |disk| ==> |disk[b]| == SECTOR && |disk'[b]| == SECTOR;
  }

  /** Replacing 512 bytes of a 4096-byte block replaces one sector of eight. */
  lemma PartWritten(disk: seq<seq<bv8>>, disk': seq<seq<bv8>>, lba: nat, data: seq<bv8>)
    requires BlocksOk(disk, 8 * SECTOR) && lba / 8 < |disk| == |disk'| && |data| == SECTOR
    requires var at, b := lba % 8 * SECTOR, disk[lba / 8];
      |b| == 8 * SECTOR && disk'[lba / 8] == b[..at] + data + b[at + SECTOR..]
    requires forall b :: 0 <= b < |disk| && b != lba / 8 ==> disk'[b] == disk[b]
    ensures BlocksOk(disk', 8 * SECTOR) && Flat(disk', 8 * SECTOR) == Flat(disk, 8 * SECTOR)[lba := data]
  {
    assert forall b :: 0 <= b < |disk| ==> |disk[b]| == 8 * SECTOR && |disk'[b]| == 8 * SECTOR;
    forall k | 0 <= k < |disk| * 8
      ensures SectorOf(disk', 8 * SECTOR, k) == if k == lba then data else SectorOf(disk, 8 * SECTOR, k)
    {
      if k / 8 == lba / 8 { Spliced(disk[k / 8], data, lba % 8, k % 8); }
    }
  }

  lemma Spliced(b: seq<bv8>, data: seq<bv8>, i: nat, k: nat)
    requires |b| == 8 * SECTOR && |data| == SECTOR && i < 8 && k < 8
    ensures (b[..i * SECTOR] + data + b[i * SECTOR + SECTOR..])[k * SECTOR..k * SECTOR + SECTOR]
         == if k == i then data else b[k * SECTOR..k * SECTOR + SECTOR]
  {
  }

  lemma OneBlockChanged(disk: seq<seq<bv8>>, disk': seq<seq<bv8>>, bytes: nat, lba: nat)
    requires (bytes == SECTOR || bytes == 8 * SECTOR) && BlocksOk(disk, bytes) && BlocksOk(disk', bytes)
             && |disk'| == |disk|
    requires forall b :: 0 <= b < |disk| && b != lba / (bytes / SECTOR) ==> disk'[b] == disk[b]
    ensures UpTo(Flat(disk, bytes), Flat(disk', bytes), lba, bytes / SECTOR)
  {
    var per := bytes / SECTOR;
    forall k | 0 <= k < |disk| * per && k / per != lba / per
      ensures SectorOf(disk', bytes, k) == SectorOf(disk, bytes, k)
    {
      if bytes == SECTOR {
        assert k / 1 == k && lba / 1 == lba;
        assert disk'[k] == disk[k];
      } else {
        assert disk'[k / 8] == disk[k / 8];
      }
    }
  }

  // ----- Several sectors ------------------------------------------------------------------

  /** Sector i of a request; the sector number is a 32-bit word. */
  function Nth(lba: u32, i: nat): u32 {
    (lba + i) % U32
  }

  function Piece(data: seq<bv8>, i: nat): seq<bv8>
    requires (i + 1) * SECTOR <= |data|
  {
    data[i * SECTOR..(i + 1) * SECTOR]
  }

  /** flat after the first n sectors of data have been written. */
  function Overlaid(flat: seq<seq<bv8>>, lba: u32, data: seq<bv8>, n: nat): (r: seq<seq<bv8>>)
    requires n * SECTOR <= |data|
    ensures |r| == |flat|
  {
    if n == 0 then flat else
      var r := Overlaid(flat, lba, data, n - 1);
      if Nth(lba, n - 1) < |flat| then r[Nth(lba, n - 1) := Piece(data, n - 1)] else r
  }

  lemma NothingOverlaid(flat: seq<seq<bv8>>, lba: u32, data: seq<bv8>)
    ensures Overlaid(flat, lba, data, 0) == flat
  {
  }

  lemma OverlaidNext(flat: seq<seq<bv8>>, lba: u32, data: seq<bv8>, i: nat)
    requires (i + 1) * SECTOR <= |data|
    ensures Nth(lba, i) < |flat| ==>
              Overlaid(flat, lba, data, i + 1)
              == Overlaid(flat, lba, data, i)[Nth(lba, i) := data[i * SECTOR..(i + 1) * SECTOR]]
  {
  }

  /** The sectors of a request are distinct, even if its numbers wrap. */
  lemma NthDistinct(lba: u32, i: nat, j: nat)
    requires i < j < U32
    ensures Nth(lba, i) != Nth(lba, j)
  {
  }

  /** After a whole request each of its sectors holds its piece of the data, and
      every other sector what it held before. */
  lemma {:induction false} OverlaidIs(flat: seq<seq<bv8>>, lba: u32, data: seq<bv8>, n: nat)
    requires n * SECTOR <= |data| && n < U32 && forall i :: 0 <= i < n ==> Nth(lba, i) < |flat|
    ensures forall i :: 0 <= i < n ==> Overlaid(flat, lba, data, n)[Nth(lba, i)] == Piece(data, i)
    ensures forall k :: 0 <= k < |flat| && (forall i :: 0 <= i < n ==> Nth(lba, i) != k) ==>
            Overlaid(flat, lba, data, n)[k] == flat[k]
  {
    if n > 0 {
      OverlaidIs(flat, lba, data, n - 1);
      forall i | 0 <= i < n - 1
        ensures Nth(lba, i) != Nth(lba, n - 1)
      {
        NthDistinct(lba, i, n - 1);
      }
      assert Nth(lba, n - 1) < |flat|;
    }
  }

  lemma PieceRead(was: seq<bv8>, now: seq<bv8>, sector: seq<bv8>, i: nat, n: nat)
    requires i < n && n * SECTOR <= |was| && |sector| == SECTOR
    requires now == was[..i * SECTOR] + sector + was[i * SECTOR + SECTOR..]
    ensures |now| == |was| && Piece(now, i) == sector && now[n * SECTOR..] == was[n * SECTOR..]
    ensures forall k :: 0 <= k < i ==> Piece(now, k) == Piece(was, k)
  {
  }

  // ----- Runs -------------------------------------------------------------------------------

  /** A run of writes: sector numbers and data. */
  type Log = seq<(u32, seq<bv8>)>

  predicate LogFits(log: Log, n: nat) {
    forall i :: 0 <= i < |log| ==> log[i].0 < n
  }

  /** The sectors after a run of successful writes. */
  function Replay(flat: seq<seq<bv8>>, log: Log): (r: seq<seq<bv8>>)
    requires LogFits(log, |flat|)
    ensures |r| == |flat|
  {
    if log == [] then flat else
      var w := log[|log| - 1];
      Replay(flat, log[..|log| - 1])[w.0 := w.1]
  }

  /** Entry i is the last write to sector k; -1 if there is none. */
  predicate LastWrite(log: Log, k: nat, i: int) {
    -1 <= i < |log| && (i >= 0 ==> log[i].0 == k) && forall j :: i < j < |log| ==> log[j].0 != k
  }

  lemma {:induction false} ReplayHasLast(flat: seq<seq<bv8>>, log: Log, k: nat, i: int)
    requires LogFits(log, |flat|) && k < |flat| && LastWrite(log, k, i)
    ensures Replay(flat, log)[k] == if i >= 0 then log[i].1 else flat[k]
    decreases |log|
  {
    if log != [] && i < |log| - 1 { ReplayHasLast(flat, log[..|log| - 1], k, i); }
  }
}

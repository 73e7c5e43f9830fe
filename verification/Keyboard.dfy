// kbd_report of kernel/drivers/usbhid.c: press and release events from the
// differences between consecutive boot-protocol keyboard reports.

module Keyboard {
  import opened Words

  /** A call of hid_emit. */
  datatype Event = Event(usage: byte, pressed: bool)

  predicate Bit(b: byte, i: nat) {
    if i == 0 then b % 2 == 1 else Bit(b / 2, i - 1)
  }

  /** The six usages of a report. */
  predicate Lists(r: seq<byte>, k: byte)
    requires |r| == 8
  {
    k in r[2..]
  }

  /** 0 is an empty place, 1 the roll-over error. */
  predicate Key(k: byte) {
    k != 0 && k != 1
  }

  predicate IsMod(k: byte) {
    0xE0 <= k < 0xE8
  }

  /** The report has k down, as a modifier or in its list. */
  predicate Down(r: seq<byte>, k: byte)
    requires |r| == 8
  {
    (IsMod(k) && Bit(r[0], k - 0xE0)) || (Key(k) && Lists(r, k))
  }

  function Keys(r: seq<byte>): set<byte>
    requires |r| == 8
  {
    set k: byte | 0 <= k < 256 && Down(r, k)
  }

  // ----- The events of one report ------------------------------------------------------------

  /** Modifiers below 0xE0 + n that changed. */
  function ModEvents(prev: seq<byte>, r: seq<byte>, n: nat): seq<Event>
    requires |prev| == |r| == 8 && n <= 8
  {
    if n == 0 then [] else
      var was, now := Bit(prev[0], n - 1), Bit(r[0], n - 1);
      ModEvents(prev, r, n - 1) + if was == now then [] else [Event(0xE0 + n - 1, now)]
  }

  /** The keys among the first n listed in a that b does not list. */
  function ListEvents(a: seq<byte>, b: seq<byte>, n: nat, pressed: bool): seq<Event>
    requires |a| == |b| == 8 && n <= 6
  {
    if n == 0 then [] else
      var k := a[2 + n - 1];
      ListEvents(a, b, n - 1, pressed) + if Key(k) && !Lists(b, k) then [Event(k, pressed)] else []
  }

  function Events(prev: seq<byte>, r: seq<byte>): seq<Event>
    requires |prev| == |r| == 8
  {
    ModEvents(prev, r, 8) + ListEvents(prev, r, 6, false) + ListEvents(r, prev, 6, true)
  }

  /** An example: from A and B (usages 4 and 5) to left Shift with C and D. */
  lemma ShiftedLetters()
    ensures Events([0, 0, 4, 5, 0, 0, 0, 0], [2, 0, 6, 7, 0, 0, 0, 0])
         == [Event(0xE1, true), Event(4, false), Event(5, false), Event(6, true), Event(7, true)]
    ensures Keys([2, 0, 6, 7, 0, 0, 0, 0]) == {0xE1, 6, 7}
  {
    hide ModEvents, ListEvents, Keys;
    var was: seq<byte> := [0, 0, 4, 5, 0, 0, 0, 0];
    var now: seq<byte> := [2, 0, 6, 7, 0, 0, 0, 0];
    ShiftOnly(was, now);
    TwoListed(was, now, 4, 5, false);
    TwoListed(now, was, 6, 7, true);
    ShiftAndTwo(now);
  }

  lemma TwoListed(a: seq<byte>, b: seq<byte>, k: byte, m: byte, pressed: bool)
    requires |a| == |b| == 8 && a[2..] == [k, m, 0, 0, 0, 0] && Key(k) && Key(m) && k !in b[2..] && m !in b[2..]
    ensures ListEvents(a, b, 6, pressed) == [Event(k, pressed), Event(m, pressed)]
  {
    assert a[2] == a[2..][0] && a[3] == a[2..][1] && a[4] == a[2..][2] && a[5] == a[2..][3];
    assert a[6] == a[2..][4] && a[7] == a[2..][5];
    assert ListEvents(a, b, 1, pressed) == [Event(k, pressed)];
    assert ListEvents(a, b, 2, pressed) == [Event(k, pressed), Event(m, pressed)];
    assert ListEvents(a, b, 4, pressed) == ListEvents(a, b, 2, pressed);
  }

  lemma ShiftAndTwo(now: seq<byte>)
    requires now == [2, 0, 6, 7, 0, 0, 0, 0]
    ensures Keys(now) == {0xE1, 6, 7}
  {
    ShiftBit();
    assert now[2..] == [6, 7, 0, 0, 0, 0];
  }

  lemma ShiftBit()
    ensures forall i: nat :: i < 8 ==> (Bit(2, i) <==> i == 1)
    ensures forall i: nat :: i < 8 ==> !Bit(0, i)
  {
    NoBits(8);
    forall i: nat | i < 8
      ensures Bit(2, i) <==> i == 1
    {
      if i > 1 { assert Bit(2, i) == Bit(1, i - 1) == Bit(0, i - 2); }
    }
  }

  lemma ShiftOnly(was: seq<byte>, now: seq<byte>)
    requires |was| == |now| == 8 && was[0] == 0 && now[0] == 2
    ensures ModEvents(was, now, 8) == [Event(0xE1, true)]
  {
    hide Bit;
    ShiftBit();
    assert ModEvents(was, now, 1) == [];
    assert ModEvents(was, now, 2) == [Event(0xE1, true)];
    assert ModEvents(was, now, 4) == ModEvents(was, now, 2);
    assert ModEvents(was, now, 6) == ModEvents(was, now, 4);
  }

  lemma {:induction false} NoBits(n: nat)
    ensures forall i: nat :: i < n ==> !Bit(0, i)
  {
    if n > 0 {
      NoBits(n - 1);
      assert n > 1 ==> Bit(0, n - 1) == Bit(0, n - 2);
    }
  }

  /** The keys held down after some events. */
  function Replay(held: set<byte>, events: seq<Event>): set<byte> {
    if events == [] then held else
      var h, e := Replay(held, events[..|events| - 1]), events[|events| - 1];
      if e.pressed then h + {e.usage} else h - {e.usage}
  }

  lemma {:induction false} ReplayConcat(held: set<byte>, a: seq<Event>, b: seq<Event>)
    ensures Replay(held, a + b) == Replay(Replay(held, a), b)
    decreases |b|
  {
    if b == [] {
      assert a + b == a;
    } else {
      var ab := a + b;
      assert ab[..|ab| - 1] == a + b[..|b| - 1];
      ReplayConcat(held, a, b[..|b| - 1]);
    }
  }

  lemma ReplayOne(held: set<byte>, e: Event)
    ensures Replay(held, []) == held
    ensures Replay(held, [e]) == if e.pressed then held + {e.usage} else held - {e.usage}
  {
    assert [e][..0] == [];
  }

  lemma {:induction false} AfterMods(held: set<byte>, prev: seq<byte>, r: seq<byte>, n: nat, k: byte)
    requires |prev| == |r| == 8 && n <= 8
    ensures k in Replay(held, ModEvents(prev, r, n)) <==>
      if 0xE0 <= k < 0xE0 + n && Bit(prev[0], k - 0xE0) != Bit(r[0], k - 0xE0) then Bit(r[0], k - 0xE0) else k in held
  {
    hide Bit, Replay;
    if n == 0 {
      ReplayOne(held, Event(0, true));
    } else {
      AfterMods(held, prev, r, n - 1, k);
      var init, e := ModEvents(prev, r, n - 1), Event(0xE0 + n - 1, Bit(r[0], n - 1));
      ReplayConcat(held, init, if Bit(prev[0], n - 1) == e.pressed then [] else [e]);
      ReplayOne(Replay(held, init), e);
    }
  }

  lemma {:induction false} AfterList(held: set<byte>, a: seq<byte>, b: seq<byte>, n: nat, pressed: bool, k: byte)
    requires |a| == |b| == 8 && n <= 6
    ensures k in Replay(held, ListEvents(a, b, n, pressed)) <==>
      if Key(k) && k in a[2..2 + n] && !Lists(b, k) then pressed else k in held
  {
    hide Replay;
    if n == 0 {
      ReplayOne(held, Event(0, true));
    } else {
      AfterList(held, a, b, n - 1, pressed, k);
      var init, u := ListEvents(a, b, n - 1, pressed), a[2 + n - 1];
      assert a[2..2 + n] == a[2..2 + n - 1] + [u];
      ReplayConcat(held, init, if Key(u) && !Lists(b, u) then [Event(u, pressed)] else []);
      ReplayOne(Replay(held, init), Event(u, pressed));
    }
  }

  /** A modifier's usage that is also listed, where the two ways of reporting it disagree. */
  predicate Clash(prev: seq<byte>, r: seq<byte>, k: byte)
    requires |prev| == |r| == 8
  {
    && IsMod(k) && Lists(prev, k)
    && if Lists(r, k) then Bit(prev[0], k - 0xE0) && !Bit(r[0], k - 0xE0) else Bit(r[0], k - 0xE0)
  }

  /** One report's events take the keys of the previous report to its own, key by key,
      exactly where modifiers and list do not clash. */
  lemma ReportReplays(prev: seq<byte>, r: seq<byte>, k: byte)
    requires |prev| == |r| == 8
    ensures (k in Replay(Keys(prev), Events(prev, r)) <==> k in Keys(r)) <==> !Clash(prev, r, k)
  {
    hide Bit, Replay, Events;
    EventsAt(Keys(prev), prev, r, k);
  }

  /** What a report's events do to one key: the last of them about it decides. */
  lemma EventsAt(held: set<byte>, prev: seq<byte>, r: seq<byte>, k: byte)
    requires |prev| == |r| == 8
    ensures k in Replay(held, Events(prev, r)) <==>
      if Key(k) && Lists(r, k) != Lists(prev, k) then Lists(r, k)
      else if IsMod(k) && Bit(prev[0], k - 0xE0) != Bit(r[0], k - 0xE0) then Bit(r[0], k - 0xE0)
      else k in held
  {
    hide Bit, Replay, ModEvents, ListEvents;
    var m, l, p := ModEvents(prev, r, 8), ListEvents(prev, r, 6, false), ListEvents(r, prev, 6, true);
    ReplayConcat(held, m + l, p);
    ReplayConcat(held, m, l);
    AfterMods(held, prev, r, 8, k);
    AfterList(Replay(held, m), prev, r, 6, false, k);
    AfterList(Replay(held, m + l), r, prev, 6, true, k);
    assert prev[2..2 + 6] == prev[2..] && r[2..2 + 6] == r[2..];
  }

  /** Replaying a report's events gives exactly its keys if and only if there is no clash. */
  lemma ReportExact(prev: seq<byte>, r: seq<byte>)
    requires |prev| == |r| == 8
    ensures Replay(Keys(prev), Events(prev, r)) == Keys(r) <==> forall k: byte :: !Clash(prev, r, k)
  {
    forall k: byte
      ensures (k in Replay(Keys(prev), Events(prev, r)) <==> k in Keys(r)) <==> !Clash(prev, r, k)
    {
      ReportReplays(prev, r, k);
    }
  }

  /** A clash is possible: 0xE0 moves from the list to the modifier byte, and its
      late release cancels its press. */
  lemma ClashLosesKey()
    ensures var prev, r: seq<byte> := [0, 0, 0xE0, 0, 0, 0, 0, 0], [1, 0, 0, 0, 0, 0, 0, 0];
      0xE0 in Keys(r) && 0xE0 !in Replay(Keys(prev), Events(prev, r))
  {
    var prev, r: seq<byte> := [0, 0, 0xE0, 0, 0, 0, 0, 0], [1, 0, 0, 0, 0, 0, 0, 0];
    assert prev[2..][0] == 0xE0;
    assert Bit(1, 0);
    assert r[2..] == [0, 0, 0, 0, 0, 0];
    ReportReplays(prev, r, 0xE0);
  }

  /** The lists hold usages below the modifiers' only. */
  predicate Plain(r: seq<byte>)
    requires |r| == 8
  {
    forall i :: 2 <= i < 8 ==> r[i] < 0xE0
  }

  const Blank: seq<byte> := [0, 0, 0, 0, 0, 0, 0, 0]

  /** The events of a run of reports, starting with nothing down. */
  function RunEvents(reports: seq<seq<byte>>): seq<Event>
    requires forall i :: 0 <= i < |reports| ==> |reports[i]| == 8
  {
    if reports == [] then [] else
      var init := reports[..|reports| - 1];
      RunEvents(init) + Events(Last(init), reports[|reports| - 1])
  }

  function Last(reports: seq<seq<byte>>): seq<byte> {
    if reports == [] then Blank else reports[|reports| - 1]
  }

  /** After any run of reports (Appendix B.1 of the USB HID Class Definition 1.11) the
      events say exactly what the last report says. */
  lemma {:induction false} RunReplays(reports: seq<seq<byte>>)
    requires forall i :: 0 <= i < |reports| ==> |reports[i]| == 8 && Plain(reports[i])
    ensures Replay({}, RunEvents(reports)) == Keys(Last(reports))
  {
    if reports == [] {
      NothingDown();
    } else {
      var init, r := reports[..|reports| - 1], reports[|reports| - 1];
      RunReplays(init);
      ReplayConcat({}, RunEvents(init), Events(Last(init), r));
      ReportExact(Last(init), r);
      PlainNeverClashes(Last(init), r);
    }
  }

  /** Some event of the step is about the key. */
  predicate Speaks(prev: seq<byte>, r: seq<byte>, k: byte)
    requires |prev| == |r| == 8
  {
    (IsMod(k) && Bit(prev[0], k - 0xE0) != Bit(r[0], k - 0xE0)) || (Key(k) && Lists(prev, k) != Lists(r, k))
  }

  /** The last step with an event about the key, if any, did not clash about it. */
  predicate Right(reports: seq<seq<byte>>, k: byte)
    requires forall i :: 0 <= i < |reports| ==> |reports[i]| == 8
  {
    reports == [] ||
    var init, r := reports[..|reports| - 1], reports[|reports| - 1];
    if Speaks(Last(init), r, k) then !Clash(Last(init), r, k) else Right(init, k)
  }

  /** Whatever the reports: at the end of a run a key is held as the last report says
      exactly when the last step that said anything about it did not clash. */
  lemma {:induction false} RunExact(reports: seq<seq<byte>>, k: byte)
    requires forall i :: 0 <= i < |reports| ==> |reports[i]| == 8
    ensures (k in Replay({}, RunEvents(reports)) <==> k in Keys(Last(reports))) <==> Right(reports, k)
  {
    hide Bit, Events, Replay, Lists;
    if reports == [] {
      NothingDown();
      ReplayOne({}, Event(0, true));
    } else {
      var init, r := reports[..|reports| - 1], reports[|reports| - 1];
      RunExact(init, k);
      ReplayConcat({}, RunEvents(init), Events(Last(init), r));
      EventsAt(Replay({}, RunEvents(init)), Last(init), r, k);
      EventsAt(Keys(Last(init)), Last(init), r, k);
      ReportReplays(Last(init), r, k);
    }
  }

  /** The events have been right after each report of the run. */
  predicate Faithful(reports: seq<seq<byte>>)
    requires forall i :: 0 <= i < |reports| ==> |reports[i]| == 8
  {
    forall n :: 0 <= n <= |reports| ==> Replay({}, RunEvents(reports[..n])) == Keys(Last(reports[..n]))
  }

  /** No step of the run clashed. */
  ghost predicate Clear(reports: seq<seq<byte>>)
    requires forall i :: 0 <= i < |reports| ==> |reports[i]| == 8
  {
    forall n, k: byte :: 0 <= n < |reports| ==> !Clash(Last(reports[..n]), reports[n], k)
  }

  /** They are right all along exactly when no step clashes. */
  lemma FaithfulIff(reports: seq<seq<byte>>)
    requires forall i :: 0 <= i < |reports| ==> |reports[i]| == 8
    ensures Faithful(reports) <==> Clear(reports)
  {
    hide Replay, RunEvents, Keys, Clash;
    if Clear(reports) {
      forall n | 0 <= n <= |reports|
        ensures Replay({}, RunEvents(reports[..n])) == Keys(Last(reports[..n]))
      {
        ClearIsFaithful(reports, n);
      }
    }
    if Faithful(reports) {
      forall n, k: byte | 0 <= n < |reports|
        ensures !Clash(Last(reports[..n]), reports[n], k)
      {
        StepReplays(reports, n);
        assert Replay({}, RunEvents(reports[..n])) == Keys(Last(reports[..n]));
        assert Replay({}, RunEvents(reports[..n + 1])) == Keys(Last(reports[..n + 1]));
        ReportExact(Last(reports[..n]), reports[n]);
      }
    }
  }

  lemma {:induction false} ClearIsFaithful(reports: seq<seq<byte>>, n: nat)
    requires (forall i :: 0 <= i < |reports| ==> |reports[i]| == 8) && Clear(reports) && n <= |reports|
    ensures Replay({}, RunEvents(reports[..n])) == Keys(Last(reports[..n]))
  {
    hide Replay, Keys, Clash, Events;
    if n == 0 {
      NothingDown();
      ReplayOne({}, Event(0, true));
    } else {
      ClearIsFaithful(reports, n - 1);
      StepReplays(reports, n - 1);
      ReportExact(Last(reports[..n - 1]), reports[n - 1]);
    }
  }

  lemma StepReplays(reports: seq<seq<byte>>, n: nat)
    requires (forall i :: 0 <= i < |reports| ==> |reports[i]| == 8) && n < |reports|
    ensures Last(reports[..n + 1]) == reports[n]
    ensures Replay({}, RunEvents(reports[..n + 1]))
         == Replay(Replay({}, RunEvents(reports[..n])), Events(Last(reports[..n]), reports[n]))
  {
    hide Replay, Events;
    assert reports[..n + 1][..n] == reports[..n];
    ReplayConcat({}, RunEvents(reports[..n]), Events(Last(reports[..n]), reports[n]));
  }

  lemma NothingDown()
    ensures Keys(Blank) == {}
  {
    forall k: byte
      ensures !Down(Blank, k)
    {
      assert Blank[2..] == [0, 0, 0, 0, 0, 0];
      if IsMod(k) { ZeroBits(k - 0xE0); }
    }
  }

  lemma {:induction false} ZeroBits(i: nat)
    ensures !Bit(0, i)
  {
    if i > 0 { ZeroBits(i - 1); }
  }

  lemma PlainNeverClashes(prev: seq<byte>, r: seq<byte>)
    requires |prev| == |r| == 8 && Plain(prev)
    ensures forall k: byte :: !Clash(prev, r, k)
  {
    assert forall i :: 0 <= i < 6 ==> prev[2..][i] < 0xE0;
  }

  // ----- The code -------------------------------------------------------------------------------

  lemma Longer(reports: seq<seq<byte>>, r: seq<byte>)
    requires (forall i :: 0 <= i < |reports| ==> |reports[i]| == 8) && |r| == 8
    ensures RunEvents(reports + [r]) == RunEvents(reports) + Events(Last(reports), r)
  {
    assert (reports + [r])[..|reports|] == reports;
  }

  class Device {
    /** prev_k */
    const prev: array<byte>
    var log: seq<Event>
    ghost var reports: seq<seq<byte>>

    ghost predicate Valid()
      reads this, prev
    {
      && prev.Length == 8 && (forall i :: 0 <= i < |reports| ==> |reports[i]| == 8)
      && prev[..] == Last(reports) && log == RunEvents(reports)
    }

    constructor ()
      ensures Valid() && reports == []
    {
      prev := new byte[8](_ => 0);
      log, reports := [], [];
      new;
      assert prev[..] == Blank;
    }

    /** hid_emit. */
    method Emit(usage: byte, pressed: bool)
      modifies this`log
      ensures log == old(log) + [Event(usage, pressed)]
    {
      log := log + [Event(usage, pressed)];
    }

    method Modifiers(prev: seq<byte>, r: seq<byte>)
      requires |prev| == |r| == 8
      modifies this`log
      ensures log == old(log) + ModEvents(prev, r, 8)
    {
      for i := 0 to 8
        invariant log == old(log) + ModEvents(prev, r, i)
      {
        var was, now := Bit(prev[0], i), Bit(r[0], i);
        if was != now { Emit(0xE0 + i, now); }
      }
    }

    /** The keys listed in a and not in b. */
    method Changed(a: seq<byte>, b: seq<byte>, pressed: bool)
      requires |a| == |b| == 8
      modifies this`log
      ensures log == old(log) + ListEvents(a, b, 6, pressed)
    {
      for i := 0 to 6
        invariant log == old(log) + ListEvents(a, b, i, pressed)
      {
        var k := a[2 + i];
        if k != 0 && k != 1 {
          var both := Search(b, k);
          if !both { Emit(k, pressed); }
        }
      }
    }

    method Search(r: seq<byte>, k: byte) returns (found: bool)
      requires |r| == 8
      ensures found <==> Lists(r, k)
    {
      for j := 0 to 6
        invariant k !in r[2..2 + j]
      {
        if r[2 + j] == k {
          assert r[2..][j] == k;
          return true;
        }
        assert r[2..2 + (j + 1)] == r[2..2 + j] + [r[2 + j]];
      }
      assert r[2..2 + 6] == r[2..];
      return false;
    }

    method Remember(r: seq<byte>)
      requires prev.Length == |r| == 8
      modifies prev
      ensures prev[..] == r
    {
      for i := 0 to 8
        invariant prev[..i] == r[..i]
      {
        prev[i] := r[i];
      }
    }

    /** kbd_report.  Reports shorter than 8 bytes are ignored. */
    method Report(r: seq<byte>, len: nat)
      requires Valid() && len <= |r|
      modifies this, prev
      ensures Valid() && reports == if len < 8 then old(reports) else old(reports) + [r[..8]]
    {
      hide ModEvents, ListEvents, RunEvents;
      if len < 8 { return; }
      var was, now := prev[..], r[..8];
      ghost var start := log;
      Modifiers(was, now);
      Changed(was, now, false);
      Changed(now, was, true);
      assert log == start + Events(was, now);
      Remember(now);
      Longer(reports, now);
      reports := reports + [now];
    }
  }
}

// The mutex and the condition variable of user/pthread.c, as a state machine: any
// number of threads, one mutex, one condition variable, one atomic step at a time.
//
// A step is one access to a shared word or one futex system call; c->seq++ is a
// load and a later store.  Only the holder of the mutex unlocks it or waits on the
// condition variable; anybody may signal and broadcast.

module Pthread {
  import opened Futex
  import opened Words

  // The addresses of m->state and c->seq, and the address space of the process.
  const MUTEX := 1
  const COND := 2
  const ASID := 0

  /** What follows an unlock: nothing, or the sleep of pthread_cond_wait. */
  datatype Then = Leave | Doze(seen: nat, epoch: nat)

  /** Where a thread is.  An epoch counts the increments of c->seq at the moment it was read. */
  datatype Pc =
    | Idle
    | Start
    | Check(c: nat)
    | Park
    | Asleep
    | Grab
    | Hold
    | Seen(seen: nat, epoch: nat)
    | Waking(next: Then)
    | CondPark(seen: nat, epoch: nat)
    | CondAsleep(epoch: nat)
    | Bump(loaded: nat, wakes: nat, held: bool)
    | Notify(wakes: nat, epoch: nat, held: bool)

  /** lock is m->state, word is c->seq.  Two history variables: count is the number of
      increments of c->seq, broadcast its value at the latest completed broadcast. */
  datatype State = State(lock: nat, word: nat, slots: seq<Slot>, pcs: seq<Pc>, count: nat, broadcast: nat)

  /** What a thread that is not inside a call does next. */
  datatype Choice = Go | Wait | Signal | Broadcast

  predicate Ours(x: Slot) {
    On(x, MUTEX, ASID) || On(x, COND, ASID)
  }

  predicate Init(s: State) {
    && s.lock == 0 && s.word == 0 && s.count == 0 && s.broadcast == 0 && |s.slots| == FUTEX_MAX
    && (forall t :: 0 <= t < |s.pcs| ==> s.pcs[t] == Idle)
    && forall i :: 0 <= i < FUTEX_MAX ==> !Ours(s.slots[i])
  }

  function At(s: State, t: nat, pc: Pc): State
    requires t < |s.pcs|
  {
    s.(pcs := s.pcs[t := pc])
  }

  /** futex_wait: sleeps if the word has the expected value and a slot is free. */
  function FutexWait(s: State, t: nat, uaddr: nat, equal: bool, asleep: Pc, awake: Pc): State
    requires t < |s.pcs|
  {
    var i := FirstFree(s.slots);
    if equal && i < |s.slots| then s.(slots := s.slots[i := Waiting(uaddr, ASID, t)], pcs := s.pcs[t := asleep])
    else At(s, t, awake)
  }

  function Resumed(pc: Pc): Pc {
    if pc.Asleep? then Grab else if pc.CondAsleep? then Start else pc
  }

  predicate Rung(s: State, uaddr: nat, n: nat, t: nat) {
    exists i :: 0 <= i < |s.slots| && Chosen(s.slots, uaddr, ASID, n, i) && s.slots[i].task == t
  }

  /** futex_wake. */
  function FutexWake(s: State, uaddr: nat, n: nat): State {
    s.(slots := Woken(s.slots, uaddr, ASID, n),
       pcs := seq(|s.pcs|, t requires 0 <= t < |s.pcs| => if Rung(s, uaddr, n, t) then Resumed(s.pcs[t]) else s.pcs[t]))
  }

  /** The next atomic step of thread t, if there is one. */
  function Next(s: State, t: nat, c: Choice): Option<State>
    requires t < |s.pcs|
  {
    match s.pcs[t]
    case Idle =>
      (match c
       case Go => Some(At(s, t, Start))
       case Wait => None
       case Signal => Some(At(s, t, Bump(s.word, 1, false)))
       case Broadcast => Some(At(s, t, Bump(s.word, 16, false))))
    // pthread_mutex_lock
    case Start =>
      if s.lock == 0 then Some(At(s.(lock := 1), t, Hold)) else Some(At(s, t, Check(s.lock)))
    case Check(c) =>
      if c == 2 then Some(At(s, t, Park))
      else if s.lock == 0 then Some(At(s, t, Grab))
      else if s.lock == 1 then Some(At(s.(lock := 2), t, Park))
      else Some(At(s, t, Park))
    case Park => Some(FutexWait(s, t, MUTEX, s.lock == 2, Asleep, Grab))
    case Asleep => None
    case Grab =>
      if s.lock == 0 then Some(At(s.(lock := 2), t, Hold)) else Some(At(s, t, Check(s.lock)))
    // the holder
    case Hold =>
      (match c
       case Go => Some(At(s.(lock := 0), t, Waking(Leave)))
       case Wait => Some(At(s, t, Seen(s.word, s.count)))
       case Signal => Some(At(s, t, Bump(s.word, 1, true)))
       case Broadcast => Some(At(s, t, Bump(s.word, 16, true))))
    // pthread_cond_wait
    case Seen(v, e) => Some(At(s.(lock := 0), t, Waking(Doze(v, e))))
    case Waking(next) =>
      var pc := match next case Leave => Idle case Doze(v, e) => CondPark(v, e);
      Some(At(FutexWake(s, MUTEX, 1), t, pc))
    case CondPark(v, e) => Some(FutexWait(s, t, COND, s.word == v, CondAsleep(e), Start))
    case CondAsleep(_) => None
    // pthread_cond_signal, pthread_cond_broadcast
    case Bump(v, n, held) => Some(At(s.(word := (v + 1) % U32, count := s.count + 1), t, Notify(n, s.count + 1, held)))
    case Notify(n, e, held) =>
      var was := if n == 16 && e > s.broadcast then e else s.broadcast;
      Some(At(FutexWake(s, COND, n), t, if held then Hold else Idle).(broadcast := was))
  }

  /** Other processes, and other words of this one, come and go in the futex table. */
  predicate OthersStep(s: State, s': State) {
    && s' == s.(slots := s'.slots) && |s'.slots| == |s.slots|
    && forall i :: 0 <= i < |s.slots| && (Ours(s.slots[i]) || Ours(s'.slots[i])) ==> s'.slots[i] == s.slots[i]
  }

  ghost predicate Step(s: State, s': State) {
    OthersStep(s, s') || exists t: nat, c :: t < |s.pcs| && Next(s, t, c) == Some(s')
  }

  ghost predicate IsRun(run: seq<State>) {
    && run != [] && Init(run[0])
    && forall i :: 0 < i < |run| ==> Step(run[i - 1], run[i])
  }

  // ----- Sleepers and slots ------------------------------------------------------------

  predicate SleepsOn(pc: Pc, uaddr: nat) {
    (pc.Asleep? && uaddr == MUTEX) || (pc.CondAsleep? && uaddr == COND)
  }

  /** Slot i stands for thread t. */
  predicate SlotOf(s: State, i: int, t: int) {
    0 <= i < |s.slots| && Ours(s.slots[i]) && s.slots[i].task == t
  }

  /** A thread sleeps exactly when one slot holds it, on the word it sleeps on. */
  ghost predicate SlotInv(s: State) {
    && |s.slots| == FUTEX_MAX
    && (forall i, t :: SlotOf(s, i, t) ==> 0 <= t < |s.pcs| && SleepsOn(s.pcs[t], s.slots[i].uaddr))
    && (forall i, j, t :: SlotOf(s, i, t) && SlotOf(s, j, t) ==> i == j)
    && forall t :: 0 <= t < |s.pcs| && (s.pcs[t].Asleep? || s.pcs[t].CondAsleep?) ==> exists i :: SlotOf(s, i, t)
  }

  // ----- The mutex ---------------------------------------------------------------------

  predicate Holds(pc: Pc) {
    pc.Hold? || pc.Seen? || (pc.Bump? && pc.held) || (pc.Notify? && pc.held)
  }

  /** A thread on its way to take the lock, or to wake one that will. */
  predicate Rouses(pc: Pc) {
    pc.Waking? || pc.Grab? || (pc.Check? && pc.c == 1)
  }

  /** The lock word is 0 exactly when nobody holds the lock, and at most one does. */
  ghost predicate Exclusive(s: State) {
    && s.lock <= 2
    && (s.lock == 0 <==> forall t :: 0 <= t < |s.pcs| ==> !Holds(s.pcs[t]))
    && forall t, u :: 0 <= t < |s.pcs| && 0 <= u < |s.pcs| && Holds(s.pcs[t]) && Holds(s.pcs[u]) ==> t == u
  }

  /** A sleeper is looked after: the lock is marked contended, so that its holder will
      wake a sleeper, or some thread is awake on the sleeper's behalf. */
  ghost predicate NoLostWakeup(s: State) {
    (exists t :: 0 <= t < |s.pcs| && s.pcs[t].Asleep?) ==>
      s.lock == 2 || exists t :: 0 <= t < |s.pcs| && Rouses(s.pcs[t])
  }

  predicate Sane(s: State) {
    forall t :: 0 <= t < |s.pcs| && s.pcs[t].Check? ==> 1 <= s.pcs[t].c <= 2
  }

  ghost predicate MutexInv(s: State) {
    SlotInv(s) && Exclusive(s) && NoLostWakeup(s) && Sane(s)
  }

  // Each part of the invariant, for the three kinds of step.

  /** A thread that neither falls asleep nor wakes others. */
  lemma AwakeSlots(s: State, s': State, t: nat)
    requires SlotInv(s) && t < |s.pcs| == |s'.pcs| && s'.slots == s.slots && s'.pcs == s.pcs[t := s'.pcs[t]]
    requires !s.pcs[t].Asleep? && !s.pcs[t].CondAsleep? && !s'.pcs[t].Asleep? && !s'.pcs[t].CondAsleep?
    ensures SlotInv(s')
  {
    forall i, u | SlotOf(s', i, u)
      ensures 0 <= u < |s'.pcs| && SleepsOn(s'.pcs[u], s'.slots[i].uaddr)
    {
      assert SlotOf(s, i, u);
    }
    forall i, j, u | SlotOf(s', i, u) && SlotOf(s', j, u)
      ensures i == j
    {
      assert SlotOf(s, i, u) && SlotOf(s, j, u);
    }
    forall u | 0 <= u < |s'.pcs| && (s'.pcs[u].Asleep? || s'.pcs[u].CondAsleep?)
      ensures exists i :: SlotOf(s', i, u)
    {
      var i :| SlotOf(s, i, u);
      assert SlotOf(s', i, u);
    }
  }

  lemma WaitSlots(s: State, t: nat, uaddr: nat, equal: bool, asleep: Pc, awake: Pc)
    requires SlotInv(s) && t < |s.pcs| && !s.pcs[t].Asleep? && !s.pcs[t].CondAsleep?
    requires (uaddr == MUTEX || uaddr == COND) && SleepsOn(asleep, uaddr) && !awake.Asleep? && !awake.CondAsleep?
    ensures SlotInv(FutexWait(s, t, uaddr, equal, asleep, awake))
  {
    var s' := FutexWait(s, t, uaddr, equal, asleep, awake);
    var k := FirstFree(s.slots);
    if equal && k < |s.slots| {
      forall i, u | SlotOf(s', i, u)
        ensures if i == k then u == t else SlotOf(s, i, u) && u != t
      {
      }
      forall i, j, u | SlotOf(s', i, u) && SlotOf(s', j, u)
        ensures i == j
      {
        assert i != k && j != k ==> SlotOf(s, i, u) && SlotOf(s, j, u);
      }
      forall u | 0 <= u < |s'.pcs| && (s'.pcs[u].Asleep? || s'.pcs[u].CondAsleep?)
        ensures exists i :: SlotOf(s', i, u)
      {
        if u == t {
          assert SlotOf(s', k, t);
        } else {
          var i :| SlotOf(s, i, u);
          assert SlotOf(s', i, u);
        }
      }
    } else {
      AwakeSlots(s, s', t);
    }
  }

  lemma WakeSlots(s: State, uaddr: nat, n: nat)
    requires SlotInv(s) && (uaddr == MUTEX || uaddr == COND)
    ensures SlotInv(FutexWake(s, uaddr, n))
  {
    var s' := FutexWake(s, uaddr, n);
    forall i, t | SlotOf(s', i, t)
      ensures SlotOf(s, i, t) && s'.pcs[t] == s.pcs[t] && s'.slots[i] == s.slots[i]
    {
      if Rung(s, uaddr, n, t) {
        var j :| 0 <= j < |s.slots| && Chosen(s.slots, uaddr, ASID, n, j) && s.slots[j].task == t;
        assert SlotOf(s, j, t) && SlotOf(s, i, t);
      }
    }
    forall t | 0 <= t < |s'.pcs| && (s'.pcs[t].Asleep? || s'.pcs[t].CondAsleep?)
      ensures exists i :: SlotOf(s', i, t)
    {
      var i :| SlotOf(s, i, t);
      assert !Rung(s, uaddr, n, t);
      assert SlotOf(s', i, t);
    }
  }

  /** Waking changes nothing but the position of sleepers. */
  lemma WakePcs(s: State, uaddr: nat, n: nat, t: nat)
    requires SlotInv(s) && t < |s.pcs| && (uaddr == MUTEX || uaddr == COND)
    ensures var pc := FutexWake(s, uaddr, n).pcs[t];
            pc == s.pcs[t] || (SleepsOn(s.pcs[t], uaddr) && pc == Resumed(s.pcs[t]))
  {
    if Rung(s, uaddr, n, t) {
      var i :| 0 <= i < |s.slots| && Chosen(s.slots, uaddr, ASID, n, i) && s.slots[i].task == t;
      assert SlotOf(s, i, t);
    }
  }

  lemma StepSlots(s: State, t: nat, c: Choice, s': State)
    requires SlotInv(s) && t < |s.pcs| && Next(s, t, c) == Some(s')
    ensures SlotInv(s')
  {
    match s.pcs[t]
    case Park => WaitSlots(s, t, MUTEX, s.lock == 2, Asleep, Grab);
    case CondPark(v, e) => WaitSlots(s, t, COND, s.word == v, CondAsleep(e), Start);
    case Waking(next) =>
      WakeSlots(s, MUTEX, 1);
      WakePcs(s, MUTEX, 1, t);
      AwakeSlots(FutexWake(s, MUTEX, 1), s', t);
    case Notify(n, e, held) =>
      WakeSlots(s, COND, n);
      WakePcs(s, COND, n, t);
      AwakeSlots(FutexWake(s, COND, n), s', t);
    case _ => AwakeSlots(s, s', t);
  }

  /** What a step does to the threads other than t: nothing, or it wakes them. */
  lemma StepPcs(s: State, t: nat, c: Choice, s': State, u: nat)
    requires SlotInv(s) && t < |s.pcs| && u < |s.pcs| && u != t && Next(s, t, c) == Some(s')
    ensures |s'.pcs| == |s.pcs|
    ensures s'.pcs[u] == s.pcs[u] || s'.pcs[u] == Resumed(s.pcs[u])
  {
    match s.pcs[t]
    case Waking(next) => WakePcs(s, MUTEX, 1, u);
    case Notify(n, e, held) => WakePcs(s, COND, n, u);
    case _ =>
  }

  lemma StepExclusive(s: State, t: nat, c: Choice, s': State)
    requires SlotInv(s) && Exclusive(s) && t < |s.pcs| && Next(s, t, c) == Some(s')
    ensures Exclusive(s')
  {
    hide SlotInv, Next;
    TheTurn(s, t, c, s');
    forall u | 0 <= u < |s.pcs| && u != t
      ensures Holds(s'.pcs[u]) <==> Holds(s.pcs[u])
    {
      StepPcs(s, t, c, s', u);
    }
    TurnExclusive(s, t, s');
  }

  lemma TurnExclusive(s: State, t: nat, s': State)
    requires Exclusive(s) && t < |s.pcs| == |s'.pcs|
    requires forall u :: 0 <= u < |s.pcs| && u != t ==> (Holds(s'.pcs[u]) <==> Holds(s.pcs[u]))
    requires Holds(s.pcs[t]) && Holds(s'.pcs[t]) ==> s'.lock == s.lock
    requires Holds(s.pcs[t]) && !Holds(s'.pcs[t]) ==> s'.lock == 0
    requires !Holds(s.pcs[t]) && Holds(s'.pcs[t]) ==> s.lock == 0 && 0 < s'.lock <= 2
    requires !Holds(s.pcs[t]) && !Holds(s'.pcs[t]) ==> s'.lock == s.lock || (s.lock == 1 && s'.lock == 2)
    ensures Exclusive(s')
  {
    if Holds(s.pcs[t]) || Holds(s'.pcs[t]) {
      assert forall u :: 0 <= u < |s.pcs| && u != t ==> !Holds(s.pcs[u]);
    }
  }

  /** What a step does to its own thread and to the lock. */
  lemma TheTurn(s: State, t: nat, c: Choice, s': State)
    requires t < |s.pcs| && Next(s, t, c) == Some(s')
    ensures |s'.pcs| == |s.pcs|
    ensures Holds(s.pcs[t]) && Holds(s'.pcs[t]) ==> s'.lock == s.lock
    ensures Holds(s.pcs[t]) && !Holds(s'.pcs[t]) ==> s'.lock == 0 && s'.pcs[t].Waking?
    ensures !Holds(s.pcs[t]) && Holds(s'.pcs[t]) ==> s.lock == 0 && 0 < s'.lock <= 2
    ensures !Holds(s.pcs[t]) && !Holds(s'.pcs[t]) ==> s'.lock == s.lock || (s.lock == 1 && s'.lock == 2)
  {
    match s.pcs[t]
    case Idle =>
    case Hold =>
    case _ =>
  }

  lemma StepWakeup(s: State, t: nat, c: Choice, s': State)
    requires MutexInv(s) && t < |s.pcs| && Next(s, t, c) == Some(s')
    ensures NoLostWakeup(s') && Sane(s')
  {
    hide SlotInv, Exclusive, Next;
    StepSane(s, t, c, s');
    if x :| 0 <= x < |s'.pcs| && s'.pcs[x].Asleep? {
      if s.pcs[t].Waking? {
        var w := Awoken(s, t, c, s', x);
        assert Rouses(s'.pcs[w]);
      } else {
        TurnRouses(s, t, c, s');
        if !Rouses(s'.pcs[t]) && s'.lock != 2 {
          StepPcs(s, t, c, s', x);
          assert s.pcs[x].Asleep?;
          var y :| 0 <= y < |s.pcs| && Rouses(s.pcs[y]);
          StepPcs(s, t, c, s', y);
          assert Rouses(s'.pcs[y]);
        }
      }
    }
  }

  lemma StepSane(s: State, t: nat, c: Choice, s': State)
    requires SlotInv(s) && Exclusive(s) && Sane(s) && t < |s.pcs| && Next(s, t, c) == Some(s')
    ensures |s'.pcs| == |s.pcs| && Sane(s')
  {
    hide SlotInv;
    TurnSane(s, t, c, s');
    forall u | 0 <= u < |s.pcs| && u != t
      ensures s'.pcs[u] == s.pcs[u] || s'.pcs[u] == Resumed(s.pcs[u])
    {
      StepPcs(s, t, c, s', u);
    }
  }

  lemma TurnSane(s: State, t: nat, c: Choice, s': State)
    requires Exclusive(s) && t < |s.pcs| && Next(s, t, c) == Some(s')
    ensures |s'.pcs| == |s.pcs| && (s'.pcs[t].Check? ==> 1 <= s'.pcs[t].c <= 2)
  {
    match s.pcs[t]
    case Idle =>
    case Hold =>
    case _ =>
  }

  /** A thread that stops rousing, or unmarks the lock, leaves the lock marked or rouses. */
  lemma TurnRouses(s: State, t: nat, c: Choice, s': State)
    requires Exclusive(s) && Sane(s) && t < |s.pcs| && Next(s, t, c) == Some(s') && !s.pcs[t].Waking?
    ensures t < |s'.pcs| && (Rouses(s.pcs[t]) || s.lock == 2 ==> Rouses(s'.pcs[t]) || s'.lock == 2)
    ensures s'.pcs[t].Asleep? ==> s'.lock == 2
  {
    match s.pcs[t]
    case Idle =>
    case Hold =>
    case _ =>
  }

  /** The wake-up of an unlock finds a sleeper if any is left. */
  lemma Awoken(s: State, t: nat, c: Choice, s': State, x: nat) returns (w: nat)
    requires MutexInv(s) && t < |s.pcs| && s.pcs[t].Waking? && Next(s, t, c) == Some(s')
    requires x < |s'.pcs| && s'.pcs[x].Asleep?
    ensures w < |s'.pcs| && s.pcs[w].Asleep? && s'.pcs[w] == Grab
  {
    assert x != t;
    StepPcs(s, t, c, s', x);
    var k :| SlotOf(s, k, x);
    var i := OneWoken(s.slots, MUTEX, ASID, 1, k);
    w := s.slots[i].task;
    assert SlotOf(s, i, w);
    assert Rung(s, MUTEX, 1, w);
  }

  lemma OthersKeep(s: State, s': State)
    requires MutexInv(s) && OthersStep(s, s')
    ensures MutexInv(s')
  {
    assert forall i, t :: SlotOf(s', i, t) ==> SlotOf(s, i, t);
    forall t | 0 <= t < |s'.pcs| && (s'.pcs[t].Asleep? || s'.pcs[t].CondAsleep?)
      ensures exists i :: SlotOf(s', i, t)
    {
      var i :| SlotOf(s, i, t);
      assert SlotOf(s', i, t);
    }
  }

  lemma StepKeepsMutex(s: State, s': State)
    requires MutexInv(s) && Step(s, s')
    ensures MutexInv(s')
  {
    if OthersStep(s, s') {
      OthersKeep(s, s');
    } else {
      var t: nat, c :| t < |s.pcs| && Next(s, t, c) == Some(s');
      StepSlots(s, t, c, s');
      StepExclusive(s, t, c, s');
      StepWakeup(s, t, c, s');
    }
  }

  /** In every interleaving of any number of threads: the lock word is 0 exactly
      when no thread holds the lock, at most one holds it, and whenever one sleeps
      the lock is contended or some thread is awake on the sleepers' behalf. */
  lemma {:induction false} MutexIsSafe(run: seq<State>, i: nat)
    requires IsRun(run) && i < |run|
    ensures MutexInv(run[i])
  {
    if i > 0 {
      MutexIsSafe(run, i - 1);
      StepKeepsMutex(run[i - 1], run[i]);
    }
  }

  /** A thread inside pthread_mutex_lock. */
  predicate Wants(pc: Pc) {
    pc.Start? || pc.Check? || pc.Park? || pc.Asleep? || pc.Grab?
  }

  ghost predicate StepsTo(run: seq<State>, s: State) {
    run != [] && run[0] == s && forall i :: 0 < i < |run| ==> Step(run[i - 1], run[i])
  }

  /** No deadlock: whenever the lock is free and wanted, even if every thread that
      wants it is asleep, at most three steps of awake threads give it to one of them. */
  lemma FreeLockIsTaken(s: State, x: nat) returns (run: seq<State>, w: nat)
    requires MutexInv(s) && s.lock == 0 && x < |s.pcs| && Wants(s.pcs[x])
    ensures StepsTo(run, s) && |run| <= 4
    ensures w < |s.pcs| == |run[|run| - 1].pcs| && Wants(s.pcs[w]) && run[|run| - 1].pcs[w] == Hold
  {
    if s.pcs[x].Asleep? {
      var t :| 0 <= t < |s.pcs| && Rouses(s.pcs[t]);
      if s.pcs[t].Waking? {
        run, w := WokenTakes(s, x, t);
      } else {
        run := Taken(s, t);
        w := t;
      }
    } else {
      run := Taken(s, x);
      w := x;
    }
  }

  /** The unlocker t makes its futex_wake; the thread it rouses takes the lock. */
  lemma WokenTakes(s: State, x: nat, t: nat) returns (run: seq<State>, w: nat)
    requires MutexInv(s) && s.lock == 0 && x < |s.pcs| && s.pcs[x].Asleep? && t < |s.pcs| && s.pcs[t].Waking?
    ensures StepsTo(run, s) && |run| <= 4
    ensures w < |s.pcs| == |run[|run| - 1].pcs| && Wants(s.pcs[w]) && run[|run| - 1].pcs[w] == Hold
  {
    hide SlotInv, FirstFree;
    var s1 := Next(s, t, Go).value;
    assert Step(s, s1);
    StepKeepsMutex(s, s1);
    StepPcs(s, t, Go, s1, x);
    if s1.pcs[x].Asleep? {
      w := Awoken(s, t, Go, s1, x);
    } else {
      w := x;
    }
    var s2 := TakenFrom(s1, w);
    run := [s, s1, s2];
  }

  /** The steps an awake thread in the call is away from a free lock. */
  function Away(pc: Pc): nat {
    match pc
    case Check(c) => if c == 2 then 3 else 2
    case Park => 2
    case _ => 1
  }

  lemma Taken(s: State, w: nat) returns (run: seq<State>)
    requires s.lock == 0 && w < |s.pcs| && Wants(s.pcs[w]) && !s.pcs[w].Asleep?
    ensures StepsTo(run, s) && |run| == Away(s.pcs[w]) + 1
    ensures |run[|run| - 1].pcs| == |s.pcs| && run[|run| - 1].pcs[w] == Hold
    decreases Away(s.pcs[w])
  {
    var s' := Next(s, w, Go).value;
    assert Step(s, s');
    if s.pcs[w].Grab? || s.pcs[w].Start? {
      run := [s, s'];
    } else {
      var rest := Taken(s', w);
      run := [s] + rest;
    }
  }

  lemma TakenFrom(s: State, w: nat) returns (s': State)
    requires s.lock == 0 && w < |s.pcs| && s.pcs[w].Grab?
    ensures Step(s, s') && |s'.pcs| == |s.pcs| && s'.pcs[w] == Hold
  {
    s' := Next(s, w, Go).value;
  }

  // ----- The condition variable ----------------------------------------------------------

  /** Increments of c->seq do not overlap.  HoldersDoNotRace says when this is so. */
  predicate NoRace(s: State) {
    forall t, u :: 0 <= t < |s.pcs| && 0 <= u < |s.pcs| && s.pcs[t].Bump? && s.pcs[u].Bump? ==> t == u
  }

  /** pc is in pthread_cond_wait, before its sleep; it read v at this epoch. */
  predicate Read(pc: Pc, v: nat, epoch: nat) {
    pc == Seen(v, epoch) || pc == Waking(Doze(v, epoch)) || pc == CondPark(v, epoch)
  }

  /** The counter does not come full circle while a thread is about to sleep. */
  ghost predicate NoWrap(s: State) {
    forall t: nat, v: nat, e: nat :: t < |s.pcs| && Read(s.pcs[t], v, e) ==> s.count < e + U32
  }

  ghost predicate CondInv(s: State) {
    && s.broadcast <= s.count && s.word == s.count % U32
    && forall t :: 0 <= t < |s.pcs| ==> CondOk(s, s.pcs[t])
  }

  /** In particular nobody sleeps who read c->seq before a completed broadcast's increment. */
  predicate CondOk(s: State, pc: Pc) {
    match pc
    case Seen(v, e) => v == e % U32 && e <= s.count
    case Waking(Doze(v, e)) => v == e % U32 && e <= s.count
    case CondPark(v, e) => v == e % U32 && e <= s.count
    case CondAsleep(e) => s.broadcast <= e <= s.count
    case Bump(v, n, _) => v == s.word
    case Notify(_, e, _) => e <= s.count
    case _ => true
  }

  /** A waiter about to sleep does so exactly when c->seq is what it read; barring
      a wrap that is when no increment came in between, so never after a broadcast. */
  lemma SleepsIffUnchanged(s: State, t: nat, v: nat, e: nat, s': State)
    requires CondInv(s) && t < |s.pcs| && s.pcs[t] == CondPark(v, e) && Next(s, t, Go) == Some(s')
    ensures s'.pcs[t].CondAsleep? <==> FirstFree(s.slots) < |s.slots| && (s.count - e) % U32 == 0
    ensures s.count < e + U32 ==> (s'.pcs[t].CondAsleep? <==> FirstFree(s.slots) < |s.slots| && s.count == e)
    ensures s.count < e + U32 && e < s.broadcast ==> s'.pcs[t] == Start
  {
    assert CondOk(s, s.pcs[t]);
    SameResidue(e, s.count);
  }

  lemma SameResidue(a: nat, b: nat)
    requires a <= b
    ensures a % U32 == b % U32 <==> (b - a) % U32 == 0
    ensures b < a + U32 ==> (a % U32 == b % U32 <==> a == b)
  {
  }

  lemma StepKeepsCond(s: State, t: nat, c: Choice, s': State)
    requires MutexInv(s) && CondInv(s) && NoRace(s) && NoWrap(s) && t < |s.pcs| && Next(s, t, c) == Some(s')
    ensures CondInv(s')
  {
    hide SlotInv, Exclusive, NoLostWakeup, Sane, NoWrap, NoRace;
    TurnCond(s, t, c, s');
    forall u | 0 <= u < |s.pcs| && u != t
      ensures CondOk(s', s'.pcs[u])
    {
      StepPcs(s, t, c, s', u);
      assert CondOk(s, s.pcs[u]);
      OtherCond(s, t, c, s', u);
    }
  }

  lemma TurnCond(s: State, t: nat, c: Choice, s': State)
    requires CondInv(s) && NoWrap(s) && t < |s.pcs| && Next(s, t, c) == Some(s')
    ensures |s'.pcs| == |s.pcs| && s'.broadcast <= s'.count && s'.word == s'.count % U32 && CondOk(s', s'.pcs[t])
  {
    hide FirstFree, SlotInv;
    assert CondOk(s, s.pcs[t]);
    match s.pcs[t]
    case CondPark(v, e) =>
      assert Read(s.pcs[t], v, e);
      SameResidue(e, s.count);
    case Bump(v, n, held) => Successor(s.count);
    case Idle =>
    case Hold =>
    case _ =>
  }

  lemma Successor(n: nat)
    ensures (n % U32 + 1) % U32 == (n + 1) % U32
  {
  }

  lemma OtherCond(s: State, t: nat, c: Choice, s': State, u: nat)
    requires SlotInv(s) && NoRace(s) && t < |s.pcs| == |s'.pcs| && u < |s.pcs| && u != t && Next(s, t, c) == Some(s')
    requires CondOk(s, s.pcs[u]) && CondOk(s, s.pcs[t]) && s.broadcast <= s.count
    ensures CondOk(s', s'.pcs[u])
  {
    StepPcs(s, t, c, s', u);
    match s.pcs[t]
    case Notify(n, e, held) => if n == 16 { AllRung(s, u); }
    case Idle =>
    case Hold =>
    case _ =>
  }

  /** A broadcast has as many wake-ups as there are slots: it leaves no one asleep. */
  lemma AllRung(s: State, u: nat)
    requires SlotInv(s) && u < |s.pcs|
    ensures !FutexWake(s, COND, 16).pcs[u].CondAsleep?
  {
    if s.pcs[u].CondAsleep? {
      var i :| SlotOf(s, i, u);
      AllWoken(s.slots, COND, ASID, 16, i);
      assert Rung(s, COND, 16, u);
    }
  }

  /** A signal wakes a waiter if there is one. */
  lemma SignalWakes(s: State, t: nat, s': State, x: nat) returns (w: nat)
    requires SlotInv(s) && t < |s.pcs| && s.pcs[t].Notify? && s.pcs[t].wakes > 0 && Next(s, t, Go) == Some(s')
    requires x < |s.pcs| && s.pcs[x].CondAsleep?
    ensures w < |s.pcs| == |s'.pcs| && s.pcs[w].CondAsleep? && s'.pcs[w] == Start
  {
    var n := s.pcs[t].wakes;
    var k :| SlotOf(s, k, x);
    var i := OneWoken(s.slots, COND, ASID, n, k);
    w := s.slots[i].task;
    assert SlotOf(s, i, w);
    assert Rung(s, COND, n, w);
  }

  /** The invariant in every run in which increments do not overlap and the counter
      does not come full circle during a wait. */
  lemma {:induction false} CondIsSafe(run: seq<State>, i: nat)
    requires IsRun(run) && i < |run| && forall j :: 0 <= j < i ==> NoRace(run[j]) && NoWrap(run[j])
    ensures CondInv(run[i])
  {
    if i > 0 {
      CondIsSafe(run, i - 1);
      MutexIsSafe(run, i - 1);
      var s, s' := run[i - 1], run[i];
      assert Step(s, s') && NoRace(s) && NoWrap(s);
      if !OthersStep(s, s') {
        var t: nat, c :| t < |s.pcs| && Next(s, t, c) == Some(s');
        StepKeepsCond(s, t, c, s');
      } else {
        assert forall t :: 0 <= t < |s.pcs| ==> CondOk(s, s.pcs[t]);
      }
    }
  }

  /** Increments do not overlap when everyone who signals or broadcasts holds the mutex. */
  lemma HoldersDoNotRace(s: State)
    requires MutexInv(s) && forall t :: 0 <= t < |s.pcs| && s.pcs[t].Bump? ==> s.pcs[t].held
    ensures NoRace(s)
  {
    assert forall t :: 0 <= t < |s.pcs| && s.pcs[t].Bump? ==> Holds(s.pcs[t]);
  }

  // ----- What the callers have to do -------------------------------------------------------

  /** A rule for the callers: may one signal, or broadcast, without holding the mutex? */
  datatype Discipline = Discipline(freeSignals: bool, freeBroadcasts: bool)

  predicate Obeys(s: State, d: Discipline) {
    forall t :: 0 <= t < |s.pcs| && s.pcs[t].Bump? && !s.pcs[t].held ==>
      if s.pcs[t].wakes == 16 then d.freeBroadcasts else d.freeSignals
  }

  /** A run whose threads keep to the rule, and none of whose waits sees 2^32 increments. */
  ghost predicate LegalRun(run: seq<State>, d: Discipline) {
    IsRun(run) && forall j :: 0 <= j < |run| ==> Obeys(run[j], d) && NoWrap(run[j])
  }

  /** No thread that read c->seq before a completed broadcast's increment is asleep,
      and none that has not slept yet will: its futex_wait returns at once. */
  ghost predicate MissesNone(s: State) {
    && (forall t :: 0 <= t < |s.pcs| && s.pcs[t].CondAsleep? ==> s.pcs[t].epoch >= s.broadcast)
    && forall t :: 0 <= t < |s.pcs| && s.pcs[t].CondPark? && s.pcs[t].epoch < s.broadcast ==>
         Next(s, t, Go) == Some(At(s, t, Start))
  }

  lemma CondMissesNone(s: State)
    requires CondInv(s) && NoWrap(s)
    ensures MissesNone(s)
  {
    hide Next;
    forall t | 0 <= t < |s.pcs| && s.pcs[t].CondPark? && s.pcs[t].epoch < s.broadcast
      ensures Next(s, t, Go) == Some(At(s, t, Start))
    {
      ParkedAwake(s, t);
    }
    assert forall t :: 0 <= t < |s.pcs| ==> CondOk(s, s.pcs[t]);
  }

  lemma ParkedAwake(s: State, t: nat)
    requires CondInv(s) && NoWrap(s) && t < |s.pcs| && s.pcs[t].CondPark? && s.pcs[t].epoch < s.broadcast
    ensures Next(s, t, Go) == Some(At(s, t, Start))
  {
    var pc := s.pcs[t];
    assert CondOk(s, pc) && Read(pc, pc.seen, pc.epoch);
    SameResidue(pc.epoch, s.count);
  }

  /** When everyone who signals or broadcasts holds the mutex, a broadcast that has made
      its increment and its wake-up has reached every thread that was waiting before. */
  lemma BroadcastReachesAll(run: seq<State>, i: nat)
    requires LegalRun(run, Discipline(false, false)) && i < |run|
    ensures CondInv(run[i]) && MissesNone(run[i])
  {
    forall j | 0 <= j < i
      ensures NoRace(run[j]) && NoWrap(run[j])
    {
      MutexIsSafe(run, j);
      assert Obeys(run[j], Discipline(false, false));
      HoldersDoNotRace(run[j]);
    }
    CondIsSafe(run, i);
    CondMissesNone(run[i]);
  }

  /** That rule is the only one: a discipline never loses a broadcast exactly when it
      makes all signallers and all broadcasters hold the mutex. */
  lemma DisciplineIsExact(d: Discipline)
    ensures (forall run, i :: LegalRun(run, d) && 0 <= i < |run| ==> MissesNone(run[i]))
       <==> !d.freeSignals && !d.freeBroadcasts
  {
    if d == Discipline(false, false) {
      forall run, i | LegalRun(run, d) && 0 <= i < |run|
        ensures MissesNone(run[i])
      {
        BroadcastReachesAll(run, i);
      }
    } else {
      var run := RaceLosesBroadcast(d, if d.freeSignals then 1 else 16);
      assert LegalRun(run, d) && !MissesNone(run[|run| - 1]);
    }
  }

  /** Nobody sleeps on the word: a wake-up does nothing. */
  lemma QuietWake(s: State, uaddr: nat, n: nat)
    requires forall i :: 0 <= i < |s.slots| ==> s.slots[i].Free?
    ensures FutexWake(s, uaddr, n) == s
  {
    assert Woken(s.slots, uaddr, ASID, n) == s.slots;
    assert FutexWake(s, uaddr, n).pcs == s.pcs;
  }

  lemma Extended(run: seq<State>, d: Discipline, t: nat, c: Choice) returns (longer: seq<State>)
    requires LegalRun(run, d) && t < |run[|run| - 1].pcs| && Next(run[|run| - 1], t, c).Some?
    requires var s' := Next(run[|run| - 1], t, c).value; Obeys(s', d) && s'.count < U32
    ensures LegalRun(longer, d) && longer == run + [Next(run[|run| - 1], t, c).value]
  {
    var s, s' := run[|run| - 1], Next(run[|run| - 1], t, c).value;
    assert Step(s, s');
    longer := run + [s'];
  }

  /** The last state of a run: three threads, all slots free. */
  ghost predicate Ends(run: seq<State>, lock: nat, word: nat, a: Pc, b: Pc, c: Pc, count: nat, broadcast: nat) {
    && run != []
    && run[|run| - 1] == State(lock, word, seq(FUTEX_MAX, _ => Free), [a, b, c], count, broadcast)
  }

  /** Thread 2 signals or broadcasts without the mutex and is delayed between its load
      and its store.  Thread 0 reads c->seq, thread 1 broadcasts, holding the mutex, and
      the late store takes c->seq back: thread 0 sleeps on, with no wake-up to come. */
  lemma RaceLosesBroadcast(d: Discipline, n: nat) returns (run: seq<State>)
    requires (n == 1 && d.freeSignals) || (n == 16 && d.freeBroadcasts)
    ensures LegalRun(run, d) && !MissesNone(run[|run| - 1])
    ensures var s := run[|run| - 1];
      s.pcs == [CondAsleep(1), Hold, Idle] && s.broadcast >= 2 && s.count == 3 && s.word == 1
  {
    hide LegalRun;
    run := Loaded(d, n);
    run := MutexTaken(run, d, n, 0, Idle);
    run := Notified(run, d, n, 0, Idle, 1);
    run := LetGo(run, d, n);
    run := WaiterParked(run, d, n);
    run := MutexTaken(run, d, n, 1, CondPark(1, 1));
    run := Notified(run, d, n, 1, CondPark(1, 1), 16);
    run := StoredLate(run, d, n);
    run := Extended(run, d, 0, Go);
    assert run[|run| - 1].pcs[0].CondAsleep?;
  }

  lemma Loaded(d: Discipline, n: nat) returns (run: seq<State>)
    requires (n == 1 && d.freeSignals) || (n == 16 && d.freeBroadcasts)
    ensures LegalRun(run, d) && Ends(run, 0, 0, Idle, Idle, Bump(0, n, false), 0, 0)
  {
    run := [State(0, 0, seq(FUTEX_MAX, _ => Free), [Idle, Idle, Idle], 0, 0)];
    run := Extended(run, d, 2, if n == 1 then Signal else Broadcast);
  }

  /** Thread 1 takes the mutex ... */
  lemma MutexTaken(run: seq<State>, d: Discipline, n: nat, k: nat, a: Pc) returns (longer: seq<State>)
    requires LegalRun(run, d) && Ends(run, 0, k, a, Idle, Bump(0, n, false), k, 0) && k < 2
    requires if n == 16 then d.freeBroadcasts else d.freeSignals
    requires !a.Bump?
    ensures LegalRun(longer, d) && Ends(longer, 1, k, a, Hold, Bump(0, n, false), k, 0)
  {
    hide LegalRun, FutexWake, FirstFree;
    longer := Extended(run, d, 1, Go);
    longer := Extended(longer, d, 1, Go);
  }

  /** ... signals or broadcasts ... */
  lemma Notified(run: seq<State>, d: Discipline, n: nat, k: nat, a: Pc, wakes: nat) returns (longer: seq<State>)
    requires LegalRun(run, d) && Ends(run, 1, k, a, Hold, Bump(0, n, false), k, 0) && k < 2
    requires if n == 16 then d.freeBroadcasts else d.freeSignals
    requires !a.Bump? && (wakes == 1 || wakes == 16)
    ensures LegalRun(longer, d)
    ensures Ends(longer, 1, k + 1, a, Hold, Bump(0, n, false), k + 1, if wakes == 16 then k + 1 else 0)
  {
    hide LegalRun, FutexWake, FirstFree;
    longer := Incremented(run, d, n, k, a, wakes);
    QuietWake(longer[|longer| - 1], COND, wakes);
    longer := Extended(longer, d, 1, Go);
  }

  lemma Incremented(run: seq<State>, d: Discipline, n: nat, k: nat, a: Pc, wakes: nat) returns (longer: seq<State>)
    requires LegalRun(run, d) && Ends(run, 1, k, a, Hold, Bump(0, n, false), k, 0) && k < 2
    requires if n == 16 then d.freeBroadcasts else d.freeSignals
    requires !a.Bump? && (wakes == 1 || wakes == 16)
    ensures LegalRun(longer, d)
    ensures Ends(longer, 1, k + 1, a, Notify(wakes, k + 1, true), Bump(0, n, false), k + 1, 0)
  {
    hide LegalRun, FutexWake, FirstFree;
    longer := Extended(run, d, 1, if wakes == 1 then Signal else Broadcast);
    longer := Extended(longer, d, 1, Go);
  }

  /** ... and lets go again. */
  lemma LetGo(run: seq<State>, d: Discipline, n: nat) returns (longer: seq<State>)
    requires LegalRun(run, d) && Ends(run, 1, 1, Idle, Hold, Bump(0, n, false), 1, 0)
    requires if n == 16 then d.freeBroadcasts else d.freeSignals
    ensures LegalRun(longer, d) && Ends(longer, 0, 1, Idle, Idle, Bump(0, n, false), 1, 0)
  {
    hide LegalRun, FutexWake, FirstFree;
    longer := Extended(run, d, 1, Go);
    QuietWake(longer[|longer| - 1], MUTEX, 1);
    longer := Extended(longer, d, 1, Go);
  }

  /** Thread 0 goes into pthread_cond_wait, up to its sleep. */
  lemma WaiterParked(run: seq<State>, d: Discipline, n: nat) returns (longer: seq<State>)
    requires LegalRun(run, d) && Ends(run, 0, 1, Idle, Idle, Bump(0, n, false), 1, 0)
    requires if n == 16 then d.freeBroadcasts else d.freeSignals
    ensures LegalRun(longer, d) && Ends(longer, 0, 1, CondPark(1, 1), Idle, Bump(0, n, false), 1, 0)
  {
    hide LegalRun, FutexWake, FirstFree;
    longer := WaiterIn(run, d, n);
    longer := Extended(longer, d, 0, Go);
    QuietWake(longer[|longer| - 1], MUTEX, 1);
    longer := Extended(longer, d, 0, Go);
  }

  lemma WaiterIn(run: seq<State>, d: Discipline, n: nat) returns (longer: seq<State>)
    requires LegalRun(run, d) && Ends(run, 0, 1, Idle, Idle, Bump(0, n, false), 1, 0)
    requires if n == 16 then d.freeBroadcasts else d.freeSignals
    ensures LegalRun(longer, d) && Ends(longer, 1, 1, Seen(1, 1), Idle, Bump(0, n, false), 1, 0)
  {
    hide LegalRun, FutexWake, FirstFree;
    longer := Extended(run, d, 0, Go);
    longer := Extended(longer, d, 0, Go);
    longer := Extended(longer, d, 0, Wait);
  }

  lemma StoredLate(run: seq<State>, d: Discipline, n: nat) returns (longer: seq<State>)
    requires LegalRun(run, d) && Ends(run, 1, 2, CondPark(1, 1), Hold, Bump(0, n, false), 2, 2)
    ensures LegalRun(longer, d) && Ends(longer, 1, 1, CondPark(1, 1), Hold, Idle, 3, if n == 16 then 3 else 2)
  {
    hide LegalRun, FutexWake, FirstFree;
    longer := Extended(run, d, 2, Go);
    QuietWake(longer[|longer| - 1], COND, n);
    longer := Extended(longer, d, 2, Go);
  }

  // ----- Full circle --------------------------------------------------------------------------

  /** A run whose threads keep to the rule, however long its waits. */
  ghost predicate Obedient(run: seq<State>, d: Discipline) {
    IsRun(run) && forall j :: 0 <= j < |run| ==> Obeys(run[j], d)
  }

  /** Two threads, all slots free. */
  function Pair(lock: nat, word: nat, a: Pc, b: Pc, count: nat, broadcast: nat): State {
    State(lock, word, seq(FUTEX_MAX, _ => Free), [a, b], count, broadcast)
  }

  const Bound := Discipline(false, false)

  lemma Carried(run: seq<State>, t: nat, c: Choice) returns (longer: seq<State>)
    requires Obedient(run, Bound) && t < |run[|run| - 1].pcs| && Next(run[|run| - 1], t, c).Some?
    requires Obeys(Next(run[|run| - 1], t, c).value, Bound)
    ensures Obedient(longer, Bound) && longer == run + [Next(run[|run| - 1], t, c).value]
  {
    var s, s' := run[|run| - 1], Next(run[|run| - 1], t, c).value;
    assert Step(s, s');
    longer := run + [s'];
  }

  /** A waiter reads c->seq and is delayed before its futex_wait.  The holder of the mutex
      then signals, or broadcasts, 2^32 times: the counter is back where it was, and the
      waiter goes to sleep, everybody keeping to the rule. */
  lemma FullCircle(n: nat) returns (run: seq<State>)
    requires n == 1 || n == 16
    ensures Obedient(run, Bound)
    ensures var s := run[|run| - 1];
      && s.pcs == [CondAsleep(0), Hold] && s.count == U32
      && (n == 16 ==> s.broadcast == U32 && !MissesNone(s))
  {
    hide Obedient;
    run := Delayed();
    run := Counted(run, n, U32);
    run := Carried(run, 0, Go);
    assert n == 16 ==> run[|run| - 1].pcs[0].CondAsleep?;
  }

  /** Thread 0 waits up to its sleep; thread 1 takes the mutex. */
  lemma Delayed() returns (run: seq<State>)
    ensures Obedient(run, Bound) && run[|run| - 1] == Pair(1, 0, CondPark(0, 0), Hold, 0, 0)
  {
    hide Obedient, FutexWake, FirstFree;
    run := Entered();
    run := Carried(run, 0, Wait);
    run := Carried(run, 0, Go);
    QuietWake(run[|run| - 1], MUTEX, 1);
    run := Carried(run, 0, Go);
    run := LockTaken(run);
  }

  lemma Entered() returns (run: seq<State>)
    ensures Obedient(run, Bound) && run[|run| - 1] == Pair(1, 0, Hold, Idle, 0, 0)
  {
    run := [Pair(0, 0, Idle, Idle, 0, 0)];
    run := Carried(run, 0, Go);
    run := Carried(run, 0, Go);
  }

  lemma LockTaken(run: seq<State>) returns (longer: seq<State>)
    requires Obedient(run, Bound) && run[|run| - 1] == Pair(0, 0, CondPark(0, 0), Idle, 0, 0)
    ensures Obedient(longer, Bound) && longer[|longer| - 1] == Pair(1, 0, CondPark(0, 0), Hold, 0, 0)
  {
    hide Obedient, FutexWake, FirstFree;
    longer := Carried(run, 1, Go);
    longer := Carried(longer, 1, Go);
  }

  /** The holder signals or broadcasts k times. */
  lemma {:induction false} Counted(run: seq<State>, n: nat, k: nat) returns (longer: seq<State>)
    requires Obedient(run, Bound) && run[|run| - 1] == Pair(1, 0, CondPark(0, 0), Hold, 0, 0)
    requires n == 1 || n == 16
    ensures Obedient(longer, Bound)
    ensures longer[|longer| - 1] == Pair(1, k % U32, CondPark(0, 0), Hold, k, if n == 16 then k else 0)
  {
    hide Obedient;
    if k == 0 {
      longer := run;
    } else {
      longer := Counted(run, n, k - 1);
      longer := CountedOnce(longer, n, k - 1);
    }
  }

  lemma CountedOnce(run: seq<State>, n: nat, k: nat) returns (longer: seq<State>)
    requires Obedient(run, Bound) && (n == 1 || n == 16)
    requires run[|run| - 1] == Pair(1, k % U32, CondPark(0, 0), Hold, k, if n == 16 then k else 0)
    ensures Obedient(longer, Bound)
    ensures longer[|longer| - 1] == Pair(1, (k + 1) % U32, CondPark(0, 0), Hold, k + 1, if n == 16 then k + 1 else 0)
  {
    hide Obedient, FutexWake, FirstFree;
    longer := Carried(run, 1, if n == 1 then Signal else Broadcast);
    longer := Carried(longer, 1, Go);
    Successor(k);
    QuietWake(longer[|longer| - 1], COND, n);
    longer := Carried(longer, 1, Go);
  }
}

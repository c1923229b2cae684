/**
 Spinning reader-writer lock (cyber/base/atomic_rw_lock.h) as an interleaved step machine.
 */
module RwLock {

  datatype Pc =
    | Idle
    | ReadLoad            // about to load lock_num_
    | ReadGate(n: int)    // loaded n; about to test it and, if need be, write_lock_wait_num_
    | ReadCas(n: int)     // past the gate; about to exchange n for n + 1
    | Reading
    | WriteRegister       // about to increment write_lock_wait_num_
    | WriteCas            // waiting; about to exchange 0 for -1
    | WriteUnregister     // holds the lock; about to decrement write_lock_wait_num_
    | Writing

  datatype State = State(lockNum: int, waitNum: int, writeFirst: bool, pcs: seq<Pc>)

  /** Acquire, release, or run the next access; a weak exchange may fail spuriously. */
  datatype Action = StartRead | StartWrite | Unlock | Run(spurious: bool)

  function Init(writeFirst: bool, threads: nat): State {
    State(0, 0, writeFirst, seq(threads, _ => Idle))
  }

  function Goto(s: State, t: nat, pc: Pc): State
    requires t < |s.pcs|
  {
    s.(pcs := s.pcs[t := pc])
  }

  function Step(s: State, t: nat, a: Action): State
    requires t < |s.pcs|
  {
    match a
    case StartRead => if s.pcs[t].Idle? then Goto(s, t, ReadLoad) else s
    case StartWrite => if s.pcs[t].Idle? then Goto(s, t, WriteRegister) else s
    case Unlock =>
      if s.pcs[t].Reading? then Goto(s, t, Idle).(lockNum := s.lockNum - 1)
      else if s.pcs[t].Writing? then Goto(s, t, Idle).(lockNum := s.lockNum + 1)
      else s
    case Run(spurious) => Access(s, t, spurious)
  }

  function Access(s: State, t: nat, spurious: bool): State
    requires t < |s.pcs|
  {
    match s.pcs[t]
    case Idle => s
    case ReadLoad => Goto(s, t, ReadGate(s.lockNum))
    case ReadGate(n) =>
      if n < 0 || (s.writeFirst && s.waitNum > 0) then Goto(s, t, ReadLoad) else Goto(s, t, ReadCas(n))
    case ReadCas(n) =>
      if s.lockNum == n && !spurious then Goto(s, t, Reading).(lockNum := n + 1)
      else Goto(s, t, ReadGate(s.lockNum))
    case Reading => s
    case WriteRegister => Goto(s, t, WriteCas).(waitNum := s.waitNum + 1)
    case WriteCas => if s.lockNum == 0 && !spurious then Goto(s, t, WriteUnregister).(lockNum := -1) else s
    case WriteUnregister => Goto(s, t, Writing).(waitNum := s.waitNum - 1)
    case Writing => s
  }

  ghost predicate Scheduled(schedule: seq<(nat, Action)>, threads: nat) {
    forall i | 0 <= i < |schedule| :: schedule[i].0 < threads
  }

  ghost function Exec(s: State, schedule: seq<(nat, Action)>): (r: State)
    requires Scheduled(schedule, |s.pcs|)
    ensures |r.pcs| == |s.pcs| && r.writeFirst == s.writeFirst
    decreases |schedule|
  {
    if schedule == [] then s else
      var k := |schedule| - 1;
      Step(Exec(s, schedule[..k]), schedule[k].0, schedule[k].1)
  }

  // ---------------------------------------------------------------- exclusion

  predicate IsReader(pc: Pc) { pc.Reading? }
  predicate IsWriter(pc: Pc) { pc.WriteUnregister? || pc.Writing? }
  predicate IsWaiting(pc: Pc) { pc.WriteCas? || pc.WriteUnregister? }
  predicate IsPastGate(pc: Pc) { pc.ReadCas? }

  ghost function Count(pcs: seq<Pc>, f: Pc -> bool): nat
    decreases |pcs|
  {
    if pcs == [] then 0 else Count(pcs[..|pcs| - 1], f) + if f(pcs[|pcs| - 1]) then 1 else 0
  }

  lemma {:induction false} CountUpdate(pcs: seq<Pc>, f: Pc -> bool, t: nat, pc: Pc)
    requires t < |pcs|
    ensures Count(pcs[t := pc], f) == Count(pcs, f) - (if f(pcs[t]) then 1 else 0) + (if f(pc) then 1 else 0)
    decreases |pcs|
  {
    var k := |pcs| - 1;
    if t == k {
      assert pcs[t := pc][..k] == pcs[..k];
    } else {
      assert pcs[t := pc][..k] == pcs[..k][t := pc];
      CountUpdate(pcs[..k], f, t, pc);
    }
  }

  lemma {:induction false} CountZero(pcs: seq<Pc>, f: Pc -> bool)
    ensures Count(pcs, f) == 0 <==> forall i | 0 <= i < |pcs| :: !f(pcs[i])
    decreases |pcs|
  {
    if pcs != [] {
      CountZero(pcs[..|pcs| - 1], f);
    }
  }

  ghost predicate Inv(s: State) {
    && s.waitNum == Count(s.pcs, IsWaiting)
    && ((s.lockNum == -1 && Count(s.pcs, IsWriter) == 1 && Count(s.pcs, IsReader) == 0)
        || (s.lockNum == Count(s.pcs, IsReader) && Count(s.pcs, IsWriter) == 0))
    && (forall t | 0 <= t < |s.pcs| && s.pcs[t].ReadCas? :: s.pcs[t].n >= 0)
  }

  lemma StepInv(s: State, t: nat, a: Action)
    requires Inv(s) && t < |s.pcs|
    ensures Inv(Step(s, t, a))
  {
    hide Count;
    var pc := Step(s, t, a).pcs[t];
    assert s.pcs[t := s.pcs[t]] == s.pcs;
    CountUpdate(s.pcs, IsReader, t, pc);
    CountUpdate(s.pcs, IsWriter, t, pc);
    CountUpdate(s.pcs, IsWaiting, t, pc);
    CountZero(s.pcs, IsReader);
    CountZero(s.pcs, IsWriter);
  }

  lemma InitInv(writeFirst: bool, threads: nat)
    ensures Inv(Init(writeFirst, threads))
  {
    var pcs := Init(writeFirst, threads).pcs;
    CountZero(pcs, IsReader);
    CountZero(pcs, IsWriter);
    CountZero(pcs, IsWaiting);
  }

  lemma {:induction false} ExecInv(s: State, schedule: seq<(nat, Action)>)
    requires Inv(s) && Scheduled(schedule, |s.pcs|)
    ensures Inv(Exec(s, schedule))
    decreases |schedule|
  {
    if schedule != [] {
      var k := |schedule| - 1;
      ExecInv(s, schedule[..k]);
      StepInv(Exec(s, schedule[..k]), schedule[k].0, schedule[k].1);
    }
  }

  lemma {:induction false} CountOne(pcs: seq<Pc>, f: Pc -> bool, t: nat, u: nat)
    requires Count(pcs, f) == 1 && t < |pcs| && u < |pcs| && f(pcs[t]) && f(pcs[u])
    ensures t == u
    decreases |pcs|
  {
    var k := |pcs| - 1;
    CountZero(pcs[..k], f);
    assert forall i | 0 <= i < k :: pcs[..k][i] == pcs[i];
    if t < k && u < k {
      CountOne(pcs[..k], f, t, u);
    }
  }

  /** Exclusion: in every interleaving, lock_num_ is -1 and there is exactly one writer and no
      reader, or it is the number of readers and there is no writer. */
  lemma Exclusion(writeFirst: bool, threads: nat, schedule: seq<(nat, Action)>)
    requires Scheduled(schedule, threads)
    ensures var s := Exec(Init(writeFirst, threads), schedule);
            && ((s.lockNum == -1 && Count(s.pcs, IsWriter) == 1 && Count(s.pcs, IsReader) == 0)
                || (s.lockNum == Count(s.pcs, IsReader) && Count(s.pcs, IsWriter) == 0))
            && (forall t, u | 0 <= t < |s.pcs| && 0 <= u < |s.pcs| && t != u && IsWriter(s.pcs[t]) ::
                  !IsWriter(s.pcs[u]) && !IsReader(s.pcs[u]))
  {
    InitInv(writeFirst, threads);
    ExecInv(Init(writeFirst, threads), schedule);
    var s := Exec(Init(writeFirst, threads), schedule);
    CountZero(s.pcs, IsReader);
    CountZero(s.pcs, IsWriter);
    forall t, u | 0 <= t < |s.pcs| && 0 <= u < |s.pcs| && t != u && IsWriter(s.pcs[t])
      ensures !IsWriter(s.pcs[u]) && !IsReader(s.pcs[u])
    {
      if IsWriter(s.pcs[u]) { CountOne(s.pcs, IsWriter, t, u); }
    }
  }

  // ------------------------------------------------------ bounded overtaking

  /** Does thread t become a reader in this step? */
  predicate AcquiresRead(s: State, t: nat, a: Action)
    requires t < |s.pcs|
  {
    !s.pcs[t].Reading? && Step(s, t, a).pcs[t].Reading?
  }

  /** How often thread r becomes a reader during the schedule. */
  ghost function Acquisitions(s: State, schedule: seq<(nat, Action)>, r: nat): nat
    requires Scheduled(schedule, |s.pcs|)
    decreases |schedule|
  {
    if schedule == [] then 0 else
      var k := |schedule| - 1;
      Acquisitions(s, schedule[..k], r)
      + if schedule[k].0 == r && AcquiresRead(Exec(s, schedule[..k]), schedule[k].0, schedule[k].1) then 1 else 0
  }

  /** Writer w is registered and waiting in every state of the run, first and last included. */
  ghost predicate WaitsThroughout(s: State, schedule: seq<(nat, Action)>, w: nat)
    requires Scheduled(schedule, |s.pcs|) && w < |s.pcs|
  {
    forall k | 0 <= k <= |schedule| :: Exec(s, schedule[..k]).pcs[w].WriteCas?
  }

  lemma WaitingBlocksGate(s: State, w: nat)
    requires Inv(s) && w < |s.pcs| && s.pcs[w].WriteCas?
    ensures s.waitNum > 0
  {
    CountZero(s.pcs, IsWaiting);
    assert IsWaiting(s.pcs[w]);
  }

  /** One step with the gate closed: passing it is no longer possible, acquiring uses it up. */
  lemma ClosedGateStep(s: State, t: nat, a: Action, r: nat)
    requires s.writeFirst && s.waitNum > 0 && t < |s.pcs| && r < |s.pcs|
    ensures (if t == r && AcquiresRead(s, t, a) then 1 else 0)
            + (if IsPastGate(Step(s, t, a).pcs[r]) then 1 else 0)
            <= if IsPastGate(s.pcs[r]) then 1 else 0
  {
  }

  /** Bounded overtaking: while a registered writer waits on a write-first lock, a reader acquires at
      most once, and only if it was already past the gate when the writer's wait began. */
  lemma {:induction false} BoundedOvertaking(s: State, schedule: seq<(nat, Action)>, w: nat, r: nat)
    requires Inv(s) && s.writeFirst && Scheduled(schedule, |s.pcs|) && w < |s.pcs| && r < |s.pcs|
    requires WaitsThroughout(s, schedule, w)
    ensures Acquisitions(s, schedule, r) + (if IsPastGate(Exec(s, schedule).pcs[r]) then 1 else 0)
            <= if IsPastGate(s.pcs[r]) then 1 else 0
    decreases |schedule|
  {
    hide Inv, Step, AcquiresRead, IsPastGate;
    if schedule != [] {
      var k := |schedule| - 1;
      var prefix := schedule[..k];
      assert forall i | 0 <= i <= k :: prefix[..i] == schedule[..i];
      BoundedOvertaking(s, prefix, w, r);
      ExecInv(s, prefix);
      assert Exec(s, schedule[..k]).pcs[w].WriteCas?;
      WaitingBlocksGate(Exec(s, prefix), w);
      ClosedGateStep(Exec(s, prefix), schedule[k].0, schedule[k].1, r);
    } else {
      assert Exec(s, schedule) == s;
    }
  }

  // ------------------------------------------------------ releasing and acquiring

  /** Unlock gives up exactly what its thread holds: one reader less, or a free lock. */
  lemma UnlockReleases(s: State, t: nat)
    requires Inv(s) && t < |s.pcs|
    ensures var s' := Step(s, t, Unlock);
      && s'.waitNum == s.waitNum && (forall u | 0 <= u < |s.pcs| && u != t :: s'.pcs[u] == s.pcs[u])
      && (s.pcs[t].Reading? ==>
            && s'.pcs[t].Idle? && s'.lockNum == s.lockNum - 1
            && Count(s'.pcs, IsReader) == Count(s.pcs, IsReader) - 1 && Count(s'.pcs, IsWriter) == 0)
      && (s.pcs[t].Writing? ==>
            s'.pcs[t].Idle? && s'.lockNum == 0 && Count(s'.pcs, IsReader) == 0 && Count(s'.pcs, IsWriter) == 0)
      && (!s.pcs[t].Reading? && !s.pcs[t].Writing? ==> s' == s)
  {
    hide Count;
    CountUpdate(s.pcs, IsReader, t, Idle);
    CountUpdate(s.pcs, IsWriter, t, Idle);
    CountZero(s.pcs, IsReader);
    CountZero(s.pcs, IsWriter);
  }

  /** n uninterrupted accesses of one thread. */
  ghost function Alone(s: State, t: nat, n: nat): (r: State)
    requires t < |s.pcs|
    ensures |r.pcs| == |s.pcs|
    decreases n
  {
    if n == 0 then s else Step(Alone(s, t, n - 1), t, Run(false))
  }

  /** May a reader pass now?  A waiting writer closes the gate of a write-first lock only. */
  predicate GateOpen(s: State) {
    s.lockNum >= 0 && (s.writeFirst ==> s.waitNum <= 0)
  }

  lemma ReadLockAlone(s: State, t: nat)
    requires t < |s.pcs| && s.pcs[t].Idle? && GateOpen(s)
    ensures Alone(Step(s, t, StartRead), t, 3) == Goto(s, t, Reading).(lockNum := s.lockNum + 1)
  {
    var s0 := Step(s, t, StartRead);
    assert Alone(s0, t, 0) == s0;
    assert Alone(s0, t, 1) == Goto(s, t, ReadGate(s.lockNum));
    assert Alone(s0, t, 2) == Goto(s, t, ReadCas(s.lockNum));
    assert Alone(s0, t, 3) == Step(Alone(s0, t, 2), t, Run(false));
  }

  /** Behind a closed gate a reader spins and changes nothing. */
  lemma {:induction false} ReadLockSpins(s: State, t: nat, n: nat)
    requires t < |s.pcs| && s.pcs[t].Idle? && !GateOpen(s)
    ensures Alone(Step(s, t, StartRead), t, n) == Goto(s, t, if n % 2 == 0 then ReadLoad else ReadGate(s.lockNum))
  {
    var s0 := Step(s, t, StartRead);
    if n == 0 {
      assert Alone(s0, t, 0) == s0;
    } else {
      ReadLockSpins(s, t, n - 1);
    }
  }

  /** Undisturbed, ReadLock acquires if and only if no writer holds the lock and, on a write-first lock, none waits. */
  lemma ReadLockExactly(s: State, t: nat)
    requires Inv(s) && t < |s.pcs| && s.pcs[t].Idle?
    ensures (exists n: nat :: Alone(Step(s, t, StartRead), t, n).pcs[t].Reading?) <==>
            Count(s.pcs, IsWriter) == 0 && (s.writeFirst ==> Count(s.pcs, IsWaiting) == 0)
    ensures GateOpen(s) ==> Alone(Step(s, t, StartRead), t, 3) == Goto(s, t, Reading).(lockNum := s.lockNum + 1)
  {
    if GateOpen(s) {
      ReadLockAlone(s, t);
    } else {
      forall n: nat ensures !Alone(Step(s, t, StartRead), t, n).pcs[t].Reading? { ReadLockSpins(s, t, n); }
    }
  }

  lemma WriteLockAlone(s: State, t: nat)
    requires t < |s.pcs| && s.pcs[t].Idle? && s.lockNum == 0
    ensures Alone(Step(s, t, StartWrite), t, 3) == Goto(s, t, Writing).(lockNum := -1)
  {
    var s0 := Step(s, t, StartWrite);
    assert Alone(s0, t, 0) == s0;
    assert Alone(s0, t, 1) == Goto(s, t, WriteCas).(waitNum := s.waitNum + 1);
    assert Alone(s0, t, 2) == Goto(s, t, WriteUnregister).(waitNum := s.waitNum + 1, lockNum := -1);
    assert Alone(s0, t, 3) == Step(Alone(s0, t, 2), t, Run(false));
  }

  /** On a lock that is held a writer waits, registered. */
  lemma {:induction false} WriteLockWaits(s: State, t: nat, n: nat)
    requires t < |s.pcs| && s.pcs[t].Idle? && s.lockNum != 0
    ensures Alone(Step(s, t, StartWrite), t, n) ==
            if n == 0 then Goto(s, t, WriteRegister) else Goto(s, t, WriteCas).(waitNum := s.waitNum + 1)
  {
    if n > 0 { WriteLockWaits(s, t, n - 1); }
  }

  /** Undisturbed, WriteLock acquires if and only if nobody holds the lock. */
  lemma WriteLockExactly(s: State, t: nat)
    requires Inv(s) && t < |s.pcs| && s.pcs[t].Idle?
    ensures (exists n: nat :: Alone(Step(s, t, StartWrite), t, n).pcs[t].Writing?) <==>
            Count(s.pcs, IsReader) == 0 && Count(s.pcs, IsWriter) == 0
    ensures s.lockNum == 0 ==> Alone(Step(s, t, StartWrite), t, 3) == Goto(s, t, Writing).(lockNum := -1)
  {
    if s.lockNum == 0 {
      WriteLockAlone(s, t);
    } else {
      forall n: nat ensures !Alone(Step(s, t, StartWrite), t, n).pcs[t].Writing? { WriteLockWaits(s, t, n); }
    }
  }
}

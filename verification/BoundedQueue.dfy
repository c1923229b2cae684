/**
 Multi-producer multi-consumer ring queue (cyber/base/bounded_queue.h).

 Every thread is a program counter plus its locals, and every step performs one
 atomic access of the shared state (a load, a compare-and-swap, or the access to
 one pool slot).  Schedules are arbitrary sequences of (thread, action) pairs, so
 the theorems below cover any number of threads and every interleaving.
 */
module BoundedQueue {
  import Arith

  /** Where a thread is; each constructor names the access it performs next. */
  datatype Pc<T> =
    | Idle
    | EnqLoadTail(v: T)
    | EnqLoadHead(v: T, oldTail: nat)
    | EnqCasTail(v: T, oldTail: nat)
    | EnqWrite(v: T, oldTail: nat)
    | EnqCasCommit(v: T, oldTail: nat)
    | DeqLoadHead
    | DeqLoadCommit(oldHead: nat)
    | DeqRead(oldHead: nat)
    | DeqCasHead(oldHead: nat, v: T)

  /**
   head, tail, commit and pool are the fields of the class.  The last three are
   history: the values in the order their tail compare-and-swap succeeded, the
   thread that claimed each of them, and the values handed out in the order of
   the successful head compare-and-swaps.
   */
  datatype State<T> = State(
    head: nat, tail: nat, commit: nat, pool: seq<T>, pcs: seq<Pc<T>>,
    enqueued: seq<T>, owner: seq<nat>, dequeued: seq<T>)

  /** A thread starts an operation, or runs its next access; a weak
      compare-and-swap may fail although the comparison would succeed. */
  datatype Action<T> = StartEnqueue(v: T) | StartDequeue | Run(spurious: bool)

  function GetIndex(num: nat, poolSize: nat): (r: nat)
    requires poolSize > 0
    ensures r == num % poolSize < poolSize
  {
    num - (num / poolSize) * poolSize
  }

  function Size<T>(s: State<T>): int {
    s.tail - s.head - 1
  }

  function Init<T>(size: nat, threads: nat, initial: T): State<T> {
    State(0, 1, 1, seq(size + 2, _ => initial), seq(threads, _ => Idle), [], [], [])
  }

  /** One atomic step of thread t. */
  function Step<T>(s: State<T>, t: nat, a: Action<T>): State<T>
    requires t < |s.pcs| && |s.pool| > 0
  {
    match a
    case StartEnqueue(v) => if s.pcs[t].Idle? then Goto(s, t, EnqLoadTail(v)) else s
    case StartDequeue => if s.pcs[t].Idle? then Goto(s, t, DeqLoadHead) else s
    case Run(spurious) => Access(s, t, spurious)
  }

  function Goto<T>(s: State<T>, t: nat, pc: Pc<T>): State<T>
    requires t < |s.pcs|
  {
    s.(pcs := s.pcs[t := pc])
  }

  function Access<T>(s: State<T>, t: nat, spurious: bool): State<T>
    requires t < |s.pcs| && |s.pool| > 0
  {
    var n := |s.pool|;
    match s.pcs[t]
    case Idle => s
    case EnqLoadTail(v) => Goto(s, t, EnqLoadHead(v, s.tail))
    case EnqLoadHead(v, oldTail) =>
      if GetIndex(oldTail + 1, n) == GetIndex(s.head, n) then Goto(s, t, Idle)
      else Goto(s, t, EnqCasTail(v, oldTail))
    case EnqCasTail(v, oldTail) =>
      if s.tail == oldTail && !spurious then
        Goto(s, t, EnqWrite(v, oldTail)).(
          tail := oldTail + 1, enqueued := s.enqueued + [v], owner := s.owner + [t])
      else Goto(s, t, EnqLoadHead(v, s.tail))
    case EnqWrite(v, oldTail) =>
      Goto(s, t, EnqCasCommit(v, oldTail)).(pool := s.pool[GetIndex(oldTail, n) := v])
    case EnqCasCommit(v, oldTail) =>
      if s.commit == oldTail && !spurious then Goto(s, t, Idle).(commit := oldTail + 1) else s
    case DeqLoadHead => Goto(s, t, DeqLoadCommit(s.head))
    case DeqLoadCommit(oldHead) =>
      if oldHead + 1 == s.commit then Goto(s, t, Idle) else Goto(s, t, DeqRead(oldHead))
    case DeqRead(oldHead) =>
      Goto(s, t, DeqCasHead(oldHead, s.pool[GetIndex(oldHead + 1, n)]))
    case DeqCasHead(oldHead, v) =>
      if s.head == oldHead && !spurious then
        Goto(s, t, Idle).(head := oldHead + 1, dequeued := s.dequeued + [v])
      else Goto(s, t, DeqLoadCommit(s.head))
  }

  ghost predicate Scheduled<T(!new)>(schedule: seq<(nat, Action<T>)>, threads: nat) {
    forall i | 0 <= i < |schedule| :: schedule[i].0 < threads
  }

  /** The state after a whole schedule. */
  ghost function Exec<T(!new)>(s: State<T>, schedule: seq<(nat, Action<T>)>): (r: State<T>)
    requires Scheduled(schedule, |s.pcs|) && |s.pool| > 0
    ensures |r.pcs| == |s.pcs| && |r.pool| == |s.pool|
    decreases |schedule|
  {
    if schedule == [] then s else
      var k := |schedule| - 1;
      Step(Exec(s, schedule[..k]), schedule[k].0, schedule[k].1)
  }

  // ---------------------------------------------------------------- invariant

  ghost predicate Counters<T>(s: State<T>) {
    && |s.pool| >= 2
    && s.head < s.commit <= s.tail <= s.head + |s.pool| - 1
    && |s.enqueued| == |s.owner| == s.tail - 1
    && s.dequeued == s.enqueued[..s.head]
  }

  /** Thread t has claimed position p and has not yet committed it. */
  ghost predicate Owns<T>(s: State<T>, t: nat, p: nat) {
    && t < |s.pcs|
    && (s.pcs[t].EnqWrite? || s.pcs[t].EnqCasCommit?)
    && s.pcs[t].oldTail == p
  }

  /** Claimed, uncommitted positions and producers in flight correspond one to one. */
  ghost predicate Ownership<T>(s: State<T>)
    requires Counters(s)
  {
    && (forall i | s.commit - 1 <= i < s.tail - 1 :: Owns(s, s.owner[i], i + 1))
    && (forall t: nat, p: nat | Owns(s, t, p) ::
          s.commit <= p < s.tail && s.owner[p - 1] == t && s.enqueued[p - 1] == s.pcs[t].v)
  }

  /** Committed unread slots, and slots written but not committed, hold their value. */
  ghost predicate Slots<T>(s: State<T>)
    requires Counters(s)
  {
    && (forall p | s.head < p < s.commit :: s.pool[GetIndex(p, |s.pool|)] == s.enqueued[p - 1])
    && (forall t | 0 <= t < |s.pcs| && s.pcs[t].EnqCasCommit? ::
          s.pool[GetIndex(s.pcs[t].oldTail, |s.pool|)] == s.pcs[t].v)
  }

  /** What the (possibly stale) locals of thread t guarantee. */
  ghost predicate LocalOk<T>(s: State<T>, t: nat)
    requires Counters(s) && t < |s.pcs|
  {
    match s.pcs[t]
    case EnqLoadHead(_, oldTail) => oldTail <= s.tail
    case EnqCasTail(_, oldTail) =>
      oldTail <= s.tail && (oldTail == s.tail ==> oldTail + 1 <= s.head + |s.pool| - 1)
    case DeqLoadCommit(oldHead) => oldHead <= s.head
    case DeqRead(oldHead) =>
      oldHead <= s.head && (oldHead == s.head ==> oldHead + 1 < s.commit)
    case DeqCasHead(oldHead, v) =>
      oldHead <= s.head && (oldHead == s.head ==> oldHead + 1 < s.commit && v == s.enqueued[oldHead])
    case _ => true
  }

  ghost predicate Inv<T>(s: State<T>) {
    && Counters(s)
    && Ownership(s)
    && Slots(s)
    && (forall t | 0 <= t < |s.pcs| :: LocalOk(s, t))
  }

  // ------------------------------------------------------------ preservation

  lemma DistinctSlots(p: nat, q: nat, n: nat)
    requires n > 0 && p < q < p + n
    ensures GetIndex(p, n) != GetIndex(q, n)
  {
    if p % n == q % n {
      Arith.ModInjective(p, q, n);
    }
  }

  lemma InitInv<T>(size: nat, threads: nat, initial: T)
    ensures Inv(Init(size, threads, initial))
  {
  }

  /** Reserving a position keeps the ring from overrunning the reader, although head was read earlier. */
  lemma GateKeepsRoom<T>(s: State<T>, t: nat)
    requires Inv(s) && t < |s.pcs| && s.pcs[t].EnqLoadHead?
    requires GetIndex(s.pcs[t].oldTail + 1, |s.pool|) != GetIndex(s.head, |s.pool|)
    ensures s.pcs[t].oldTail == s.tail ==> s.tail + 1 <= s.head + |s.pool| - 1
  {
    assert LocalOk(s, t);
    if s.pcs[t].oldTail == s.tail && s.tail + 1 == s.head + |s.pool| {
      var n := |s.pool|;
      Arith.ModShift(s.head, n);
    }
  }

  /** A step that moves only t's program counter, in or out of no owning state. */
  lemma LocalStepInv<T>(s: State<T>, t: nat, pc: Pc<T>)
    requires Inv(s) && t < |s.pcs|
    requires !s.pcs[t].EnqWrite? && !s.pcs[t].EnqCasCommit? && !pc.EnqWrite? && !pc.EnqCasCommit?
    requires LocalOk(Goto(s, t, pc), t)
    ensures Inv(Goto(s, t, pc))
  {
    hide GetIndex;
    var s' := Goto(s, t, pc);
    assert forall u: nat, p: nat :: Owns(s', u, p) <==> Owns(s, u, p);
    forall u | 0 <= u < |s'.pcs|
      ensures LocalOk(s', u)
    {
      if u != t { assert LocalOk(s, u); }
    }
  }

  lemma CasTailInv<T>(s: State<T>, t: nat)
    requires Inv(s) && t < |s.pcs| && s.pcs[t].EnqCasTail? && s.pcs[t].oldTail == s.tail
    ensures Inv(Access(s, t, false))
  {
    hide GetIndex;
    var s' := Access(s, t, false);
    assert LocalOk(s, t);
    assert Owns(s', t, s.tail);
    assert forall u: nat, p: nat | u != t :: Owns(s', u, p) <==> Owns(s, u, p);
    assert s'.enqueued[..s.tail - 1] == s.enqueued && s'.owner[..s.tail - 1] == s.owner;
    forall u | 0 <= u < |s'.pcs|
      ensures LocalOk(s', u)
    {
      if u != t { assert LocalOk(s, u); }
    }
  }

  lemma WriteInv<T>(s: State<T>, t: nat)
    requires Inv(s) && t < |s.pcs| && s.pcs[t].EnqWrite?
    ensures Inv(Access(s, t, false))
  {
    hide GetIndex;
    var s' := Access(s, t, false);
    var n, q := |s.pool|, s.pcs[t].oldTail;
    assert Owns(s, t, q);
    assert forall u: nat, p: nat :: Owns(s', u, p) <==> Owns(s, u, p);
    forall p | s'.head < p < s'.commit
      ensures s'.pool[GetIndex(p, n)] == s'.enqueued[p - 1]
    {
      DistinctSlots(p, q, n);
    }
    forall u | 0 <= u < |s'.pcs| && s'.pcs[u].EnqCasCommit?
      ensures s'.pool[GetIndex(s'.pcs[u].oldTail, n)] == s'.pcs[u].v
    {
      if u != t {
        var p := s.pcs[u].oldTail;
        assert Owns(s, u, p);
        if p < q { DistinctSlots(p, q, n); } else { DistinctSlots(q, p, n); }
      }
    }
    forall u | 0 <= u < |s'.pcs|
      ensures LocalOk(s', u)
    {
      if u != t { assert LocalOk(s, u); }
    }
  }

  lemma CasCommitInv<T>(s: State<T>, t: nat)
    requires Inv(s) && t < |s.pcs| && s.pcs[t].EnqCasCommit? && s.pcs[t].oldTail == s.commit
    ensures Inv(Access(s, t, false))
  {
    hide GetIndex;
    var s' := Access(s, t, false);
    assert Owns(s, t, s.commit);
    assert forall u: nat, p: nat :: Owns(s', u, p) <==> u != t && Owns(s, u, p);
    forall u: nat, p: nat | Owns(s', u, p)
      ensures s'.commit <= p
    {
      assert Owns(s, u, p);
    }
    forall u | 0 <= u < |s'.pcs|
      ensures LocalOk(s', u)
    {
      if u != t { assert LocalOk(s, u); }
    }
  }

  lemma CasHeadInv<T>(s: State<T>, t: nat)
    requires Inv(s) && t < |s.pcs| && s.pcs[t].DeqCasHead? && s.pcs[t].oldHead == s.head
    ensures Inv(Access(s, t, false))
  {
    hide GetIndex;
    var s' := Access(s, t, false);
    assert LocalOk(s, t);
    assert s.enqueued[..s.head + 1] == s.enqueued[..s.head] + [s.enqueued[s.head]];
    assert forall u: nat, p: nat :: Owns(s', u, p) <==> Owns(s, u, p);
    forall u | 0 <= u < |s'.pcs|
      ensures LocalOk(s', u)
    {
      if u != t { assert LocalOk(s, u); }
    }
  }

  lemma AccessInv<T>(s: State<T>, t: nat, spurious: bool)
    requires Inv(s) && t < |s.pcs|
    ensures Inv(Access(s, t, spurious))
  {
    hide Ownership, Inv, GetIndex;
    Parts(s, t);
    var s' := Access(s, t, spurious);
    match s.pcs[t]
    case EnqLoadTail(_) => LocalStepInv(s, t, s'.pcs[t]);
    case EnqLoadHead(_, _) =>
      if s'.pcs[t].EnqCasTail? { GateKeepsRoom(s, t); }
      LocalStepInv(s, t, s'.pcs[t]);
    case EnqCasTail(_, oldTail) =>
      if s.tail == oldTail && !spurious { CasTailInv(s, t); } else { LocalStepInv(s, t, s'.pcs[t]); }
    case EnqWrite(_, _) => WriteInv(s, t);
    case EnqCasCommit(_, oldTail) =>
      if s.commit == oldTail && !spurious { CasCommitInv(s, t); }
    case DeqCasHead(oldHead, _) =>
      if s.head == oldHead && !spurious { CasHeadInv(s, t); } else { LocalStepInv(s, t, s'.pcs[t]); }
    case DeqLoadHead => LocalStepInv(s, t, s'.pcs[t]);
    case DeqLoadCommit(_) => LocalStepInv(s, t, s'.pcs[t]);
    case DeqRead(_) => LocalStepInv(s, t, s'.pcs[t]);
    case Idle =>
  }

  lemma Parts<T>(s: State<T>, t: nat)
    requires Inv(s) && t < |s.pcs|
    ensures Counters(s) && Slots(s) && LocalOk(s, t)
  {
  }

  lemma StepInv<T>(s: State<T>, t: nat, a: Action<T>)
    requires Inv(s) && t < |s.pcs|
    ensures Inv(Step(s, t, a))
  {
    hide Ownership, Slots, Access, Inv;
    Parts(s, t);
    match a
    case StartEnqueue(v) => if s.pcs[t].Idle? { LocalStepInv(s, t, EnqLoadTail(v)); }
    case StartDequeue => if s.pcs[t].Idle? { LocalStepInv(s, t, DeqLoadHead); }
    case Run(spurious) => AccessInv(s, t, spurious);
  }

  lemma {:induction false} ExecInv<T(!new)>(s: State<T>, schedule: seq<(nat, Action<T>)>)
    requires Inv(s) && Scheduled(schedule, |s.pcs|)
    ensures Inv(Exec(s, schedule))
    decreases |schedule|
  {
    if schedule != [] {
      var k := |schedule| - 1;
      ExecInv(s, schedule[..k]);
      StepInv(Exec(s, schedule[..k]), schedule[k].0, schedule[k].1);
    }
  }

  // ---------------------------------------------------------- main theorems

  /** Slot safety in every reachable state. */
  lemma SlotSafety<T(!new)>(size: nat, threads: nat, initial: T, schedule: seq<(nat, Action<T>)>)
    requires Scheduled(schedule, threads)
    ensures var s := Exec(Init(size, threads, initial), schedule);
            && s.head < s.commit <= s.tail <= s.head + |s.pool| - 1
            && 0 <= Size(s) <= size
            // no two producers in flight own the same slot
            && (forall t: nat, u: nat, p: nat, q: nat {:trigger Owns(s, t, p), Owns(s, u, q)} ::
                  Owns(s, t, p) && Owns(s, u, q) && GetIndex(p, |s.pool|) == GetIndex(q, |s.pool|)
                  ==> t == u)
            // no producer writes a committed unread slot
            && (forall t: nat, p: nat, q: nat {:trigger Owns(s, t, p), GetIndex(q, |s.pool|)} ::
                  Owns(s, t, p) && s.head < q < s.commit ==> GetIndex(p, |s.pool|) != GetIndex(q, |s.pool|))
  {
    InitInv(size, threads, initial);
    ExecInv(Init(size, threads, initial), schedule);
    var s := Exec(Init(size, threads, initial), schedule);
    forall t: nat, u: nat, p: nat, q: nat
      | Owns(s, t, p) && Owns(s, u, q) && GetIndex(p, |s.pool|) == GetIndex(q, |s.pool|)
      ensures t == u
    {
      if p < q { DistinctSlots(p, q, |s.pool|); } else if q < p { DistinctSlots(q, p, |s.pool|); }
    }
    forall t: nat, p: nat, q: nat | Owns(s, t, p) && s.head < q < s.commit
      ensures GetIndex(p, |s.pool|) != GetIndex(q, |s.pool|)
    {
      DistinctSlots(q, p, |s.pool|);
    }
  }

  /** The committed, unread elements: what a client sees as the queue. */
  ghost function Contents<T>(s: State<T>): seq<T>
    requires Counters(s)
  {
    s.enqueued[s.head..s.commit - 1]
  }

  /** Operations of a plain FIFO queue; TakeNone reports emptiness. */
  datatype Op<T> = Put(v: T) | Take(v: T) | TakeNone

  ghost predicate Legal<T>(q: seq<T>, op: Op<T>) {
    match op
    case Put(_) => true
    case Take(v) => q != [] && q[0] == v
    case TakeNone => q == []
  }

  ghost function Apply<T>(q: seq<T>, op: Op<T>): seq<T>
    requires Legal(q, op)
  {
    match op
    case Put(v) => q + [v]
    case Take(_) => q[1..]
    case TakeNone => q
  }

  /** The operation that takes effect in this very step, with the value the thread's
      own locals hold: a producer's commit, a consumer's head exchange, a consumer's
      load of commit that makes it answer false. */
  function TakesEffect<T>(s: State<T>, t: nat, a: Action<T>): seq<Op<T>>
    requires t < |s.pcs|
  {
    if !a.Run? then [] else
      match s.pcs[t]
      case EnqCasCommit(v, oldTail) => if s.commit == oldTail && !a.spurious then [Put(v)] else []
      case DeqLoadCommit(oldHead) => if oldHead + 1 == s.commit then [TakeNone] else []
      case DeqCasHead(oldHead, v) => if s.head == oldHead && !a.spurious then [Take(v)] else []
      case _ => []
  }

  ghost predicate Replays<T>(q: seq<T>, ops: seq<Op<T>>, r: seq<T>)
    decreases |ops|
  {
    if ops == [] then q == r else Legal(q, ops[0]) && Replays(Apply(q, ops[0]), ops[1..], r)
  }

  lemma {:induction false} ReplaysAppend<T>(q: seq<T>, ops: seq<Op<T>>, r: seq<T>, more: seq<Op<T>>, r': seq<T>)
    requires Replays(q, ops, r) && Replays(r, more, r')
    ensures Replays(q, ops + more, r')
    decreases |ops|
  {
    if ops == [] {
      assert ops + more == more;
    } else {
      assert (ops + more)[1..] == ops[1..] + more;
      ReplaysAppend(Apply(q, ops[0]), ops[1..], r, more, r');
    }
  }

  /** The operations of a whole schedule in the order they take effect. */
  ghost function Linearized<T(!new)>(s: State<T>, schedule: seq<(nat, Action<T>)>): seq<Op<T>>
    requires Scheduled(schedule, |s.pcs|) && |s.pool| > 0
    decreases |schedule|
  {
    if schedule == [] then [] else
      var k := |schedule| - 1;
      Linearized(s, schedule[..k]) + TakesEffect(Exec(s, schedule[..k]), schedule[k].0, schedule[k].1)
  }

  /** A producer that has written its slot still owns its position. */
  lemma WrittenIsOwned<T>(s: State<T>, t: nat)
    requires Inv(s) && t < |s.pcs| && s.pcs[t].EnqCasCommit?
    ensures s.commit <= s.pcs[t].oldTail < s.tail && s.enqueued[s.pcs[t].oldTail - 1] == s.pcs[t].v
  {
    assert Owns(s, t, s.pcs[t].oldTail);
  }

  /** Other steps leave the committed unread elements alone. */
  lemma QuietStep<T>(s: State<T>, t: nat, a: Action<T>)
    requires t < |s.pcs| && |s.pool| > 0 && TakesEffect(s, t, a) == []
    ensures var s' := Step(s, t, a); s'.head == s.head && s'.commit == s.commit && s.enqueued <= s'.enqueued
  {
    hide GetIndex;
  }

  lemma EffectiveStep<T>(s: State<T>, t: nat, a: Action<T>)
    requires Inv(s) && t < |s.pcs| && TakesEffect(s, t, a) != []
    ensures var s', op := Step(s, t, a), TakesEffect(s, t, a)[0];
      && TakesEffect(s, t, a) == [op] && s'.enqueued == s.enqueued
      && s'.head == s.head + (if op.Take? then 1 else 0) && s'.commit == s.commit + (if op.Put? then 1 else 0)
      && (op.Put? ==> s.commit < s.tail && op.v == s.enqueued[s.commit - 1])
      && (op.Take? ==> s.head + 1 < s.commit && op.v == s.enqueued[s.head])
      && (op.TakeNone? ==> s.head + 1 == s.commit)
  {
    hide GetIndex, Ownership, Slots, Inv;
    Parts(s, t);
    if s.pcs[t].EnqCasCommit? { WrittenIsOwned(s, t); }
  }

  lemma SameThreads<T>(s: State<T>, t: nat, a: Action<T>)
    requires t < |s.pcs| && |s.pool| > 0
    ensures |Step(s, t, a).pcs| == |s.pcs|
  {
    hide GetIndex;
  }

  lemma ReplaysNone<T>(q: seq<T>)
    ensures Replays(q, [], q)
  {
  }

  lemma ReplaysOne<T>(q: seq<T>, op: Op<T>)
    requires Legal(q, op)
    ensures Replays(q, [op], Apply(q, op))
  {
    assert [op][1..] == [];
  }

  lemma StepLinearizes<T>(s: State<T>, t: nat, a: Action<T>)
    requires Inv(s) && t < |s.pcs|
    ensures Inv(Step(s, t, a))
    ensures Replays(Contents(s), TakesEffect(s, t, a), Contents(Step(s, t, a)))
  {
    hide Ownership, Slots, Inv, LocalOk, Step, TakesEffect, Replays;
    StepInv(s, t, a);
    Parts(s, t);
    SameThreads(s, t, a);
    Parts(Step(s, t, a), t);
    var ops, s' := TakesEffect(s, t, a), Step(s, t, a);
    if ops == [] {
      QuietStep(s, t, a);
      assert Contents(s') == Contents(s);
      ReplaysNone(Contents(s));
    } else {
      EffectiveStep(s, t, a);
      assert Contents(s') == Apply(Contents(s), ops[0]);
      ReplaysOne(Contents(s), ops[0]);
    }
  }

  /** Linearizability: replayed on a plain FIFO queue, the operations of any schedule are
      all legal -- every value taken is the oldest one, and false means empty -- and leave
      exactly the committed unread elements. */
  lemma {:induction false} Linearizable<T(!new)>(
    size: nat, threads: nat, initial: T, schedule: seq<(nat, Action<T>)>)
    requires Scheduled(schedule, threads)
    ensures var s0 := Init(size, threads, initial);
            Inv(Exec(s0, schedule)) &&
            Replays([], Linearized(s0, schedule), Contents(Exec(s0, schedule)))
    decreases |schedule|
  {
    var s0 := Init(size, threads, initial);
    InitInv(size, threads, initial);
    if schedule != [] {
      var k := |schedule| - 1;
      Linearizable(size, threads, initial, schedule[..k]);
      var s := Exec(s0, schedule[..k]);
      StepLinearizes(s, schedule[k].0, schedule[k].1);
      ReplaysAppend([], Linearized(s0, schedule[..k]), Contents(s),
                    TakesEffect(s, schedule[k].0, schedule[k].1), Contents(Exec(s0, schedule)));
    }
  }

  // ------------------------------------- each call takes effect exactly once, before it returns

  /** The call a thread is executing, with its argument. */
  datatype Call<T> = NoCall | EnqueueCall(v: T) | DequeueCall

  function CallOf<T>(pc: Pc<T>): Call<T> {
    match pc
    case Idle => NoCall
    case EnqLoadTail(v) => EnqueueCall(v)
    case EnqLoadHead(v, _) => EnqueueCall(v)
    case EnqCasTail(v, _) => EnqueueCall(v)
    case EnqWrite(v, _) => EnqueueCall(v)
    case EnqCasCommit(v, _) => EnqueueCall(v)
    case _ => DequeueCall
  }

  /** The load that makes Enqueue answer false. */
  predicate Rejected<T>(s: State<T>, t: nat, a: Action<T>)
    requires t < |s.pcs| && |s.pool| > 0
  {
    && a.Run? && s.pcs[t].EnqLoadHead?
    && GetIndex(s.pcs[t].oldTail + 1, |s.pool|) == GetIndex(s.head, |s.pool|)
  }

  ghost predicate BelongsTo<T>(op: Op<T>, call: Call<T>) {
    match op
    case Put(v) => call == EnqueueCall(v)
    case Take(_) => call == DequeueCall
    case TakeNone => call == DequeueCall
  }

  /** A running call returns in exactly the step in which it takes effect, once and as that very call, or in which it
      is rejected; until then it stays the same call, and no other thread is touched. */
  lemma EffectExactlyAtReturn<T>(s: State<T>, t: nat, a: Action<T>)
    requires t < |s.pcs| && |s.pool| > 0 && !s.pcs[t].Idle?
    ensures var s', ops := Step(s, t, a), TakesEffect(s, t, a);
      && |ops| <= 1 && (Rejected(s, t, a) ==> ops == [])
      && (s'.pcs[t].Idle? <==> ops != [] || Rejected(s, t, a))
      && (!s'.pcs[t].Idle? ==> CallOf(s'.pcs[t]) == CallOf(s.pcs[t]))
      && (ops != [] ==> BelongsTo(ops[0], CallOf(s.pcs[t])))
      && forall u | 0 <= u < |s.pcs| && u != t :: s'.pcs[u] == s.pcs[u]
  {
    hide GetIndex;
  }

  /** An idle thread begins exactly the call it is asked for, and touches nothing else; a busy one is not disturbed. */
  lemma StartBegins<T>(s: State<T>, t: nat, a: Action<T>)
    requires t < |s.pcs| && |s.pool| > 0 && !a.Run?
    ensures var s' := Step(s, t, a);
      && s' == s.(pcs := s'.pcs) && |s'.pcs| == |s.pcs|
      && (forall u | 0 <= u < |s.pcs| && u != t :: s'.pcs[u] == s.pcs[u])
      && (if s.pcs[t].Idle? then CallOf(s'.pcs[t]) == (if a.StartEnqueue? then EnqueueCall(a.v) else DequeueCall) else s' == s)
  {
  }

  /** First in, first out across all threads: what was dequeued, in head-exchange order, is a
      prefix of what was enqueued, in tail-exchange order. */
  lemma DequeuedIsPrefix<T(!new)>(size: nat, threads: nat, initial: T, schedule: seq<(nat, Action<T>)>)
    requires Scheduled(schedule, threads)
    ensures var s := Exec(Init(size, threads, initial), schedule); s.dequeued <= s.enqueued
  {
    InitInv(size, threads, initial);
    ExecInv(Init(size, threads, initial), schedule);
  }

  // ------------------------------------------------- when Enqueue answers false

  /** At the load that makes Enqueue answer false, the ring is really full exactly when the
      tail the thread loaded earlier is still congruent to the current one. */
  lemma FullExactlyWhenTailFresh<T>(s: State<T>, t: nat)
    requires Inv(s) && t < |s.pcs| && s.pcs[t].EnqLoadHead?
    requires GetIndex(s.pcs[t].oldTail + 1, |s.pool|) == GetIndex(s.head, |s.pool|)
    ensures Size(s) == |s.pool| - 2 <==> s.pcs[t].oldTail % |s.pool| == s.tail % |s.pool|
    ensures s.pcs[t].oldTail == s.tail ==> Size(s) == |s.pool| - 2
  {
    var n, was := |s.pool|, s.pcs[t].oldTail;
    Arith.ModShift(s.head, n);
    if s.tail + 1 == s.head + n {
      Arith.ModSucc(was, s.tail, n);
    } else if was % n == s.tail % n {
      Arith.ModSucc(was, s.tail, n);
      Arith.ModInjective(s.head, s.tail + 1, n);
      assert false;
    }
  }

  ghost predicate Reachable<T(!new)>(s0: State<T>, s: State<T>)
    requires |s0.pool| > 0
  {
    exists schedule :: Scheduled(schedule, |s0.pcs|) && Exec(s0, schedule) == s
  }

  lemma ReachableStart<T(!new)>(s0: State<T>)
    requires |s0.pool| > 0
    ensures Reachable(s0, s0)
  {
    assert Exec(s0, []) == s0;
  }

  lemma ReachableStep<T(!new)>(s0: State<T>, s: State<T>, t: nat, a: Action<T>)
    requires |s0.pool| > 0 && Reachable(s0, s) && t < |s0.pcs|
    ensures |s.pcs| == |s0.pcs| && |s.pool| == |s0.pool| && Reachable(s0, Step(s, t, a))
  {
    var schedule :| Scheduled(schedule, |s0.pcs|) && Exec(s0, schedule) == s;
    var longer := schedule + [(t, a)];
    assert longer[..|longer| - 1] == schedule;
    assert Exec(s0, longer) == Step(s, t, a);
  }

  /** n uninterrupted accesses of one thread. */
  ghost function Alone<T>(s: State<T>, t: nat, n: nat): (r: State<T>)
    requires t < |s.pcs| && |s.pool| > 0
    ensures |r.pcs| == |s.pcs| && |r.pool| == |s.pool|
  {
    if n == 0 then s else Step(Alone(s, t, n - 1), t, Run(false))
  }

  lemma {:induction false} ReachableAlone<T(!new)>(s0: State<T>, s: State<T>, t: nat, n: nat)
    requires |s0.pool| > 0 && Reachable(s0, s) && t < |s0.pcs|
    ensures |s.pcs| == |s0.pcs| && |s.pool| == |s0.pool| && Reachable(s0, Alone(s, t, n))
  {
    ReachableStep(s0, s, t, Run(false));
    if n > 0 {
      ReachableAlone(s0, s, t, n - 1);
      ReachableStep(s0, Alone(s, t, n - 1), t, Run(false));
    }
  }

  /** Undisturbed, with nothing in flight, Enqueue is rejected exactly when the queue is full,
      and otherwise appends. */
  lemma SequentialEnqueue<T>(s: State<T>, t: nat, v: T)
    requires Inv(s) && t < |s.pcs| && s.pcs[t].Idle? && s.commit == s.tail
    ensures var r := Alone(Step(s, t, StartEnqueue(v)), t, 5);
            if Size(s) == |s.pool| - 2 then r == s
            else r == s.(tail := s.tail + 1, commit := s.tail + 1, enqueued := s.enqueued + [v],
                         owner := s.owner + [t], pool := s.pool[GetIndex(s.tail, |s.pool|) := v])
  {
    var n := |s.pool|;
    var s1 := Step(s, t, StartEnqueue(v));
    var s2 := Step(s1, t, Run(false));
    assert Alone(s1, t, 1) == s2 by { assert Alone(s1, t, 0) == s1; }
    var s3 := Step(s2, t, Run(false));
    assert Alone(s1, t, 2) == s3;
    Arith.ModShift(s.head, n);
    if Size(s) == n - 2 {
      assert s.tail + 1 == s.head + n;
      assert s3 == s by { assert s3.pcs == s.pcs; }
      assert Alone(s1, t, 3) == s && Alone(s1, t, 4) == s;
    } else {
      if GetIndex(s.tail + 1, n) == GetIndex(s.head, n) {
        Arith.ModInjective(s.head, s.tail + 1, n);
        assert false;
      }
      var s4 := Step(s3, t, Run(false));
      assert Alone(s1, t, 3) == s4;
      var s5 := Step(s4, t, Run(false));
      assert Alone(s1, t, 4) == s5;
      var s6 := Step(s5, t, Run(false));
      assert s6.pcs == s.pcs;
    }
  }

  /** Undisturbed, Dequeue takes the oldest committed element, if there is one. */
  lemma SequentialDequeue<T>(s: State<T>, t: nat)
    requires Inv(s) && t < |s.pcs| && s.pcs[t].Idle?
    ensures var r := Alone(Step(s, t, StartDequeue), t, 4);
            if s.head + 1 == s.commit then r == s
            else r == s.(head := s.head + 1, dequeued := s.dequeued + [s.enqueued[s.head]])
  {
    var s1 := Step(s, t, StartDequeue);
    var s2 := Step(s1, t, Run(false));
    assert Alone(s1, t, 1) == s2 by { assert Alone(s1, t, 0) == s1; }
    var s3 := Step(s2, t, Run(false));
    assert Alone(s1, t, 2) == s3;
    if s.head + 1 == s.commit {
      assert s3.pcs == s.pcs;
      assert Alone(s1, t, 3) == s;
    } else {
      var s4 := Step(s3, t, Run(false));
      assert Alone(s1, t, 3) == s4;
      var s5 := Step(s4, t, Run(false));
      assert s5.pcs == s.pcs;
    }
  }

  /** One undisturbed enqueue followed by one dequeue, as a reachability step. */
  lemma Round(s0: State<int>, s: State<int>, t: nat) returns (r: State<int>)
    requires |s0.pool| == 3 && Reachable(s0, s) && t < |s0.pcs|
    requires Inv(s) && |s.pcs| == |s0.pcs| && |s.pool| == 3
    requires s.pcs[t].Idle? && s.commit == s.tail == s.head + 1
    ensures Reachable(s0, r) && Inv(r) && r.pcs == s.pcs && |r.pool| == 3
    ensures r.head == s.head + 1 && r.commit == r.tail == r.head + 1
  {
    SequentialEnqueue(s, t, 7);
    ReachableStep(s0, s, t, StartEnqueue(7));
    ReachableAlone(s0, Step(s, t, StartEnqueue(7)), t, 5);
    var m := Alone(Step(s, t, StartEnqueue(7)), t, 5);
    AloneInv(s, t, StartEnqueue(7), 5);
    SequentialDequeue(m, t);
    ReachableStep(s0, m, t, StartDequeue);
    ReachableAlone(s0, Step(m, t, StartDequeue), t, 4);
    r := Alone(Step(m, t, StartDequeue), t, 4);
    AloneInv(m, t, StartDequeue, 4);
  }

  lemma {:induction false} AloneInv<T>(s: State<T>, t: nat, a: Action<T>, n: nat)
    requires Inv(s) && t < |s.pcs|
    ensures Inv(Alone(Step(s, t, a), t, n))
  {
    StepInv(s, t, a);
    if n > 0 {
      AloneInv(s, t, a, n - 1);
      StepInv(Alone(Step(s, t, a), t, n - 1), t, Run(false));
    }
  }

  /** Under interference Enqueue can be rejected by an empty queue: with one usable slot, thread
      0 loads tail, thread 1 enqueues and dequeues twice, and thread 0's index test then fires. */
  lemma StaleTailRejectsOnEmptyQueue() returns (s: State<int>)
    ensures Reachable(Init(1, 2, 0), s) && Inv(s)
    ensures |s.pcs| == 2 && s.pcs[0].EnqLoadHead?
    ensures GetIndex(s.pcs[0].oldTail + 1, |s.pool|) == GetIndex(s.head, |s.pool|)
    ensures Size(s) == 0 && Contents(s) == []
  {
    hide Ownership, Slots, LocalOk, Reachable;
    var s0 := Init(1, 2, 0);
    InitInv(1, 2, 0);
    ReachableStart(s0);
    ReachableStep(s0, s0, 0, StartEnqueue(5));
    StepInv(s0, 0, StartEnqueue(5));
    var s1 := Step(s0, 0, StartEnqueue(5));
    ReachableStep(s0, s1, 0, Run(false));
    StepInv(s1, 0, Run(false));
    var s2 := Step(s1, 0, Run(false));
    var s3 := Round(s0, s2, 1);
    s := Round(s0, s3, 1);
  }
}

/**
 Tagged lock-free free list (cyber/base/concurrent_object_pool.h).

 Nodes are arena indices.  Each step is one atomic access; objects may be released by
 any thread, so the nodes out on loan form one set.
 */
module ObjectPool {
  import opened Common

  /** The double-word head: a version count beside the first free node. */
  datatype Head = Head(count: nat, link: Link)

  datatype Pc =
    | Idle
    | PopLoad
    | PopReadNext(seen: Head)
    | PopCas(seen: Head, next: Link)
    | PushLoad(node: nat)
    | PushLink(node: nat, seen: Head)
    | PushCas(node: nat, seen: Head)

  /** head and next are the pool; held is the set of nodes whose object a client owns; free is
      history: the free list as a sequence. */
  datatype State = State(head: Head, next: seq<Link>, pcs: seq<Pc>, held: set<nat>, free: seq<nat>)

  datatype Action = StartPop | StartPush(node: nat) | Run(spurious: bool)

  /** The constructor's linking loop: every node points at its neighbour, the last at nothing. */
  method BuildArena(capacity: nat) returns (next: array<Link>)
    requires capacity >= 1
    ensures fresh(next)
    ensures next[..] == InitialLinks(capacity)
  {
    next := new Link[capacity](_ => Null);
    for i := 0 to capacity - 1
      invariant forall j | 0 <= j < i :: next[j] == At(j + 1)
    {
      next[i] := At(i + 1);
    }
    next[capacity - 1] := Null;
  }

  function InitialLinks(capacity: nat): seq<Link> {
    seq(capacity, i requires 0 <= i < capacity => if i + 1 < capacity then At(i + 1) else Null)
  }

  function Init(capacity: nat, threads: nat): State
    requires capacity >= 1
  {
    State(Head(0, At(0)), InitialLinks(capacity), seq(threads, _ => Idle), {}, seq(capacity, i => i))
  }

  function Goto(s: State, t: nat, pc: Pc): State
    requires t < |s.pcs|
  {
    s.(pcs := s.pcs[t := pc])
  }

  /** A pop that loaded this head: an empty list answers at once. */
  function PopFrom(s: State, t: nat): State
    requires t < |s.pcs|
  {
    if s.head.link.Null? then Goto(s, t, Idle) else Goto(s, t, PopReadNext(s.head))
  }

  function Step(s: State, t: nat, a: Action): State
    requires t < |s.pcs|
  {
    match a
    case StartPop => if s.pcs[t].Idle? then Goto(s, t, PopLoad) else s
    case StartPush(n) =>
      if s.pcs[t].Idle? && n in s.held then Goto(s, t, PushLoad(n)).(held := s.held - {n}) else s
    case Run(spurious) => Access(s, t, spurious)
  }

  function Access(s: State, t: nat, spurious: bool): State
    requires t < |s.pcs|
  {
    match s.pcs[t]
    case Idle => s
    case PopLoad => PopFrom(s, t)
    case PopReadNext(o) =>
      if o.link.At? && o.link.node < |s.next| then Goto(s, t, PopCas(o, s.next[o.link.node])) else s
    case PopCas(o, next) =>
      if s.head == o && !spurious && o.link.At? then
        Goto(s, t, Idle).(head := Head(o.count + 1, next), held := s.held + {o.link.node},
                          free := if s.free == [] then [] else s.free[1..])
      else PopFrom(s, t)
    case PushLoad(n) => Goto(s, t, PushLink(n, s.head))
    case PushLink(n, o) =>
      if n < |s.next| then Goto(s, t, PushCas(n, o)).(next := s.next[n := o.link]) else s
    case PushCas(n, o) =>
      if s.head == o && !spurious then
        Goto(s, t, Idle).(head := Head(o.count + 1, At(n)), free := [n] + s.free)
      else Goto(s, t, PushLink(n, s.head))
  }

  ghost predicate Scheduled(schedule: seq<(nat, Action)>, threads: nat) {
    forall i | 0 <= i < |schedule| :: schedule[i].0 < threads
  }

  ghost function Exec(s: State, schedule: seq<(nat, Action)>): (r: State)
    requires Scheduled(schedule, |s.pcs|)
    ensures |r.pcs| == |s.pcs| && |r.next| == |s.next|
    decreases |schedule|
  {
    if schedule == [] then s else
      var k := |schedule| - 1;
      Step(Exec(s, schedule[..k]), schedule[k].0, schedule[k].1)
  }

  // ---------------------------------------------------------------- invariant

  /** Following the links from l visits exactly the nodes of f and then stops. */
  ghost predicate Chain(next: seq<Link>, l: Link, f: seq<nat>)
    decreases |f|
  {
    if f == [] then l.Null?
    else l == At(f[0]) && f[0] < |next| && Chain(next, next[f[0]], f[1..])
  }

  ghost predicate NoDuplicates(f: seq<nat>) {
    forall i, j | 0 <= i < j < |f| :: f[i] != f[j]
  }

  /** Thread t is giving node n back. */
  predicate Releasing(s: State, t: nat, n: nat) {
    && t < |s.pcs|
    && (s.pcs[t].PushLoad? || s.pcs[t].PushLink? || s.pcs[t].PushCas?)
    && s.pcs[t].node == n
  }

  ghost predicate BeingReleased(s: State, n: nat) {
    exists t: nat :: Releasing(s, t, n)
  }

  /** Free, held and in-release nodes are disjoint and together make up the arena. */
  ghost predicate Partition(s: State) {
    && (forall n: nat :: n < |s.next| <==> n in s.free || n in s.held || BeingReleased(s, n))
    && (forall n: nat | n in s.free :: n !in s.held && !BeingReleased(s, n))
    && (forall n: nat | n in s.held :: !BeingReleased(s, n))
    && (forall t: nat, u: nat, n: nat | Releasing(s, t, n) && Releasing(s, u, n) :: t == u)
  }

  /** A loaded head with the current count is the current head, and what was read through it is
      still the truth; a smaller count can never match again. */
  ghost predicate LocalOk(s: State, t: nat)
    requires t < |s.pcs|
  {
    match s.pcs[t]
    case PopReadNext(o) =>
      && o.count <= s.head.count && (o.count == s.head.count ==> o == s.head)
      && o.link.At? && o.link.node < |s.next|
    case PopCas(o, next) =>
      && o.count <= s.head.count && (o.count == s.head.count ==> o == s.head)
      && o.link.At? && o.link.node < |s.next|
      && (o == s.head ==> next == s.next[o.link.node])
    case PushLink(n, o) => o.count <= s.head.count && (o.count == s.head.count ==> o == s.head)
    case PushCas(n, o) =>
      && o.count <= s.head.count && (o.count == s.head.count ==> o == s.head)
      && n < |s.next| && s.next[n] == o.link
    case _ => true
  }

  ghost predicate Inv(s: State) {
    && Chain(s.next, s.head.link, s.free)
    && NoDuplicates(s.free)
    && Partition(s)
    && (forall t | 0 <= t < |s.pcs| :: LocalOk(s, t))
  }

  // ------------------------------------------------------------ preservation

  lemma {:induction false} ChainFrame(next: seq<Link>, l: Link, f: seq<nat>, n: nat, v: Link)
    requires Chain(next, l, f) && n < |next| && n !in f
    ensures Chain(next[n := v], l, f)
    decreases |f|
  {
    if f != [] {
      ChainFrame(next, next[f[0]], f[1..], n, v);
    }
  }

  lemma {:induction false} InitialChain(capacity: nat, i: nat)
    requires i <= capacity
    ensures Chain(InitialLinks(capacity), if i < capacity then At(i) else Null,
                  seq(capacity, k => k)[i..])
    decreases capacity - i
  {
    if i < capacity {
      InitialChain(capacity, i + 1);
      assert seq(capacity, k => k)[i..][1..] == seq(capacity, k => k)[i + 1..];
    }
  }

  lemma InitInv(capacity: nat, threads: nat)
    requires capacity >= 1
    ensures Inv(Init(capacity, threads))
  {
    InitialChain(capacity, 0);
    var s := Init(capacity, threads);
    assert s.free[0..] == s.free;
    assert forall n: nat | n < capacity :: s.free[n] == n;
    forall n: nat
      ensures n in s.free <==> n < capacity
    {
      if n < capacity { assert s.free[n] == n; }
    }
    assert forall n: nat :: !BeingReleased(s, n);
  }

  lemma LocalsSurvive(s: State, s': State, t: nat)
    requires t < |s.pcs| && |s'.pcs| == |s.pcs| && |s'.next| == |s.next|
    requires forall u | 0 <= u < |s.pcs| :: LocalOk(s, u)
    requires forall u | 0 <= u < |s.pcs| && u != t :: s'.pcs[u] == s.pcs[u]
    requires LocalOk(s', t)
    requires s'.head == s.head || s'.head.count > s.head.count
    requires s'.head == s.head && s.head.link.At? && s.head.link.node < |s.next| ==>
               s'.next[s.head.link.node] == s.next[s.head.link.node]
    requires forall u | 0 <= u < |s.pcs| && u != t && s.pcs[u].PushCas? && s.pcs[u].node < |s.next| ::
               s'.next[s.pcs[u].node] == s.next[s.pcs[u].node]
    ensures forall u | 0 <= u < |s'.pcs| :: LocalOk(s', u)
  {
    forall u | 0 <= u < |s'.pcs|
      ensures LocalOk(s', u)
    {
      if u != t { assert LocalOk(s, u); }
    }
  }

  /** Steps that move only t's program counter and keep the node it is releasing. */
  lemma LocalStepInv(s: State, t: nat, pc: Pc)
    requires Inv(s) && t < |s.pcs| && LocalOk(Goto(s, t, pc), t)
    requires forall n: nat :: Releasing(s, t, n) <==> Releasing(Goto(s, t, pc), t, n)
    ensures Inv(Goto(s, t, pc))
  {
    var s' := Goto(s, t, pc);
    SameReleases(s, s', t);
    LocalsSurvive(s, s', t);
  }

  lemma SameReleases(s: State, s': State, t: nat)
    requires t < |s.pcs| && |s'.pcs| == |s.pcs|
    requires forall u | 0 <= u < |s.pcs| && u != t :: s'.pcs[u] == s.pcs[u]
    requires forall n: nat :: Releasing(s, t, n) <==> Releasing(s', t, n)
    ensures forall u: nat, n: nat :: Releasing(s', u, n) <==> Releasing(s, u, n)
    ensures forall n: nat :: BeingReleased(s', n) <==> BeingReleased(s, n)
  {
    forall u: nat, n: nat
      ensures Releasing(s', u, n) <==> Releasing(s, u, n)
    {
      if u != t {}
    }
    forall n: nat
      ensures BeingReleased(s', n) <==> BeingReleased(s, n)
    {
      if BeingReleased(s, n) { var u: nat :| Releasing(s, u, n); assert Releasing(s', u, n); }
      if BeingReleased(s', n) { var u: nat :| Releasing(s', u, n); assert Releasing(s, u, n); }
    }
  }

  /** ABA freedom: an exchange that succeeds installs the successor the list has now, although
      that successor was read earlier. */
  lemma PopInstallsTrueSuccessor(s: State, t: nat)
    requires Inv(s) && t < |s.pcs| && s.pcs[t].PopCas? && s.head == s.pcs[t].seen
    ensures s.free != [] && s.head.link == At(s.free[0])
    ensures s.pcs[t].next == if |s.free| == 1 then Null else At(s.free[1])
  {
    assert LocalOk(s, t);
    assert Chain(s.next, s.next[s.free[0]], s.free[1..]);
  }

  lemma PopInv(s: State, t: nat)
    requires Inv(s) && t < |s.pcs| && s.pcs[t].PopCas? && s.head == s.pcs[t].seen
    ensures Inv(Access(s, t, false))
  {
    PopInstallsTrueSuccessor(s, t);
    assert LocalOk(s, t);
    var s' := Access(s, t, false);
    var n := s.free[0];
    SameReleases(s, s', t);
    assert forall m: nat :: m in s.free <==> m == n || m in s'.free;
    LocalsSurvive(s, s', t);
  }

  lemma PushLinkInv(s: State, t: nat)
    requires Inv(s) && t < |s.pcs| && s.pcs[t].PushLink?
    ensures Inv(Access(s, t, false))
  {
    assert LocalOk(s, t);
    var n, o := s.pcs[t].node, s.pcs[t].seen;
    assert Releasing(s, t, n);
    assert BeingReleased(s, n);
    var s' := Access(s, t, false);
    SameReleases(s, s', t);
    ChainFrame(s.next, s.head.link, s.free, n, o.link);
    forall u | 0 <= u < |s.pcs| && u != t && s.pcs[u].PushCas?
      ensures s.pcs[u].node != n
    {
      assert Releasing(s, u, s.pcs[u].node);
    }
    if s.head.link.At? { assert s.head.link.node in s.free; }
    LocalsSurvive(s, s', t);
  }

  lemma PushCasInv(s: State, t: nat)
    requires Inv(s) && t < |s.pcs| && s.pcs[t].PushCas? && s.head == s.pcs[t].seen
    ensures Inv(Access(s, t, false))
  {
    assert LocalOk(s, t);
    var n := s.pcs[t].node;
    assert Releasing(s, t, n);
    assert BeingReleased(s, n);
    var s' := Access(s, t, false);
    ReleaseEnds(s, s', t, n);
    assert s'.free[1..] == s.free;
    assert forall m: nat :: m in s'.free <==> m == n || m in s.free;
    LocalsSurvive(s, s', t);
  }

  lemma ReleaseEnds(s: State, s': State, t: nat, n: nat)
    requires t < |s.pcs| && |s'.pcs| == |s.pcs| && s'.pcs[t].Idle? && Releasing(s, t, n)
    requires forall u | 0 <= u < |s.pcs| && u != t :: s'.pcs[u] == s.pcs[u]
    requires forall u: nat | Releasing(s, u, n) :: u == t
    ensures forall u: nat, m: nat :: Releasing(s', u, m) <==> Releasing(s, u, m) && m != n
    ensures forall m: nat :: BeingReleased(s', m) <==> BeingReleased(s, m) && m != n
  {
    forall u: nat, m: nat
      ensures Releasing(s', u, m) <==> Releasing(s, u, m) && m != n
    {
      if u == t { assert !Releasing(s', t, m); assert Releasing(s, t, m) ==> m == n; }
    }
    forall m: nat
      ensures BeingReleased(s', m) <==> BeingReleased(s, m) && m != n
    {
      if BeingReleased(s, m) && m != n { var u: nat :| Releasing(s, u, m); assert Releasing(s', u, m); }
      if BeingReleased(s', m) { var u: nat :| Releasing(s', u, m); assert Releasing(s, u, m); }
    }
  }

  lemma StartPushInv(s: State, t: nat, n: nat)
    requires Inv(s) && t < |s.pcs| && s.pcs[t].Idle? && n in s.held
    ensures Inv(Step(s, t, StartPush(n)))
  {
    var s' := Step(s, t, StartPush(n));
    forall u: nat, m: nat
      ensures Releasing(s', u, m) <==> Releasing(s, u, m) || (u == t && m == n)
    {
      if u != t {}
    }
    forall m: nat
      ensures BeingReleased(s', m) <==> BeingReleased(s, m) || m == n
    {
      assert Releasing(s', t, n);
      if BeingReleased(s, m) { var u: nat :| Releasing(s, u, m); assert Releasing(s', u, m); }
      if BeingReleased(s', m) && m != n { var u: nat :| Releasing(s', u, m); assert Releasing(s, u, m); }
    }
    LocalsSurvive(s, s', t);
  }

  lemma StepInv(s: State, t: nat, a: Action)
    requires Inv(s) && t < |s.pcs|
    ensures Inv(Step(s, t, a))
  {
    assert LocalOk(s, t);
    var pc, s' := s.pcs[t], Step(s, t, a);
    if a.StartPush? && pc.Idle? && a.node in s.held {
      StartPushInv(s, t, a.node);
    } else if a.Run? && pc.PopCas? && s.head == pc.seen && !a.spurious {
      PopInv(s, t);
    } else if a.Run? && pc.PushLink? {
      PushLinkInv(s, t);
    } else if a.Run? && pc.PushCas? && s.head == pc.seen && !a.spurious {
      PushCasInv(s, t);
    } else if s' != s {
      assert s.free != [] ==> s.free[0] < |s.next|;
      LocalStepInv(s, t, s'.pcs[t]);
    }
  }

  lemma {:induction false} ExecInv(s: State, schedule: seq<(nat, Action)>)
    requires Inv(s) && Scheduled(schedule, |s.pcs|)
    ensures Inv(Exec(s, schedule))
    decreases |schedule|
  {
    if schedule != [] {
      var k := |schedule| - 1;
      ExecInv(s, schedule[..k]);
      StepInv(Exec(s, schedule[..k]), schedule[k].0, schedule[k].1);
    }
  }

  // ---------------------------------------------------------- main theorems

  /** In every interleaving the list is acyclic, and every node is free, held or on its way
      back, never two of these, with one releaser at most. */
  lemma PoolSafety(capacity: nat, threads: nat, schedule: seq<(nat, Action)>)
    requires capacity >= 1 && Scheduled(schedule, threads)
    ensures var s := Exec(Init(capacity, threads), schedule);
            && Chain(s.next, s.head.link, s.free) && NoDuplicates(s.free)
            && Partition(s) && |s.next| == capacity
  {
    InitInv(capacity, threads);
    ExecInv(Init(capacity, threads), schedule);
  }

  /** The pool is a linearizable stack: a pop's exchange takes the top and hands it to one new
      holder, a push's exchange adds on top, a pop answers false only on an empty list, and no
      other step changes the list. */
  lemma StepLinearizes(s: State, t: nat, a: Action)
    requires Inv(s) && t < |s.pcs|
    ensures var s', pc := Step(s, t, a), s.pcs[t];
            if a.Run? && pc.PopCas? && s.head == pc.seen && !a.spurious then
              s.free != [] && s'.free == s.free[1..] && s.free[0] !in s.held && s'.held == s.held + {s.free[0]}
            else if a.Run? && pc.PushCas? && s.head == pc.seen && !a.spurious then
              s'.free == [pc.node] + s.free && pc.node !in s.free && pc.node !in s.held && s'.held == s.held
            else
              && s'.free == s.free && s'.held <= s.held
              && ((pc.PopLoad? || pc.PopCas?) && s'.pcs[t].Idle? ==> s.free == [])
  {
    var pc := s.pcs[t];
    assert LocalOk(s, t);
    if a.Run? && pc.PopCas? && s.head == pc.seen && !a.spurious {
      PopInstallsTrueSuccessor(s, t);
    } else if a.Run? && pc.PushCas? && s.head == pc.seen && !a.spurious {
      assert Releasing(s, t, pc.node);
      assert BeingReleased(s, pc.node);
    }
  }

  // ---------------------------------------------------------- replay on a stack

  /** Operations of a plain stack of nodes; PopNone reports emptiness. */
  datatype Op = Push(node: nat) | Pop(node: nat) | PopNone

  ghost predicate Legal(stack: seq<nat>, op: Op) {
    match op
    case Push(n) => n !in stack
    case Pop(n) => stack != [] && stack[0] == n
    case PopNone => stack == []
  }

  ghost function Apply(stack: seq<nat>, op: Op): seq<nat>
    requires Legal(stack, op)
  {
    match op
    case Push(n) => [n] + stack
    case Pop(_) => stack[1..]
    case PopNone => stack
  }

  /** The operation that takes effect in this step, with the node the thread's own locals hold: a pop's or a
      push's exchange, or the load that makes a pop answer false. */
  function TakesEffect(s: State, t: nat, a: Action): seq<Op>
    requires t < |s.pcs|
  {
    if !a.Run? then [] else
      match s.pcs[t]
      case PopLoad => if s.head.link.Null? then [PopNone] else []
      case PopCas(o, _) =>
        if s.head == o && !a.spurious && o.link.At? then [Pop(o.link.node)]
        else if s.head.link.Null? then [PopNone]
        else []
      case PushCas(n, o) => if s.head == o && !a.spurious then [Push(n)] else []
      case _ => []
  }

  ghost predicate Replays(stack: seq<nat>, ops: seq<Op>, r: seq<nat>)
    decreases |ops|
  {
    if ops == [] then stack == r else Legal(stack, ops[0]) && Replays(Apply(stack, ops[0]), ops[1..], r)
  }

  lemma {:induction false} ReplaysAppend(stack: seq<nat>, ops: seq<Op>, r: seq<nat>, more: seq<Op>, r': seq<nat>)
    requires Replays(stack, ops, r) && Replays(r, more, r')
    ensures Replays(stack, ops + more, r')
    decreases |ops|
  {
    if ops == [] {
      assert ops + more == more;
    } else {
      assert (ops + more)[1..] == ops[1..] + more;
      ReplaysAppend(Apply(stack, ops[0]), ops[1..], r, more, r');
    }
  }

  ghost function Linearized(s: State, schedule: seq<(nat, Action)>): seq<Op>
    requires Scheduled(schedule, |s.pcs|)
    decreases |schedule|
  {
    if schedule == [] then [] else
      var k := |schedule| - 1;
      Linearized(s, schedule[..k]) + TakesEffect(Exec(s, schedule[..k]), schedule[k].0, schedule[k].1)
  }

  lemma StepReplays(s: State, t: nat, a: Action)
    requires Inv(s) && t < |s.pcs|
    ensures Replays(s.free, TakesEffect(s, t, a), Step(s, t, a).free)
  {
    StepLinearizes(s, t, a);
    var ops := TakesEffect(s, t, a);
    assert LocalOk(s, t);
    assert ops != [] ==> ops[1..] == [];
    assert s.head.link.Null? <==> s.free == [];
  }

  /** Linearizability: replayed on a plain stack that starts with the whole arena, the operations of any schedule
      are all legal -- every pop takes the top, no node is pushed twice, false means empty -- and leave exactly
      the free list. */
  lemma {:induction false} Linearizable(capacity: nat, threads: nat, schedule: seq<(nat, Action)>)
    requires capacity >= 1 && Scheduled(schedule, threads)
    ensures var s0 := Init(capacity, threads);
            Inv(Exec(s0, schedule)) && Replays(s0.free, Linearized(s0, schedule), Exec(s0, schedule).free)
    decreases |schedule|
  {
    hide Inv, Step, TakesEffect;
    var s0 := Init(capacity, threads);
    InitInv(capacity, threads);
    ExecInv(s0, schedule);
    if schedule != [] {
      var k := |schedule| - 1;
      Linearizable(capacity, threads, schedule[..k]);
      var s := Exec(s0, schedule[..k]);
      StepReplays(s, schedule[k].0, schedule[k].1);
      ReplaysAppend(s0.free, Linearized(s0, schedule[..k]), s.free,
                    TakesEffect(s, schedule[k].0, schedule[k].1), Exec(s0, schedule).free);
    }
  }

  // ------------------------------------- each call takes effect exactly once, before it returns

  datatype Call = NoCall | PopCall | PushCall(node: nat)

  function CallOf(pc: Pc): Call {
    match pc
    case Idle => NoCall
    case PushLoad(n) => PushCall(n)
    case PushLink(n, _) => PushCall(n)
    case PushCas(n, _) => PushCall(n)
    case _ => PopCall
  }

  ghost predicate BelongsTo(op: Op, call: Call) {
    match op
    case Push(n) => call == PushCall(n)
    case Pop(_) => call == PopCall
    case PopNone => call == PopCall
  }

  /** A running call returns in exactly the step in which it takes effect, once and as that very call; until then it
      stays the same call, and no other thread is touched. */
  lemma EffectExactlyAtReturn(s: State, t: nat, a: Action)
    requires t < |s.pcs| && !s.pcs[t].Idle?
    ensures var s', ops := Step(s, t, a), TakesEffect(s, t, a);
      && |ops| <= 1 && (s'.pcs[t].Idle? <==> ops != [])
      && (!s'.pcs[t].Idle? ==> CallOf(s'.pcs[t]) == CallOf(s.pcs[t]))
      && (ops != [] ==> BelongsTo(ops[0], CallOf(s.pcs[t])))
      && forall u | 0 <= u < |s.pcs| && u != t :: s'.pcs[u] == s.pcs[u]
  {
  }

  /** An idle thread begins exactly the call it is asked for: a release takes exactly its node from its holder.  A
      busy thread is not disturbed, and a node that is not out on loan cannot be released. */
  lemma StartBegins(s: State, t: nat, a: Action)
    requires t < |s.pcs| && !a.Run?
    ensures var s' := Step(s, t, a);
      && s'.head == s.head && s'.next == s.next && s'.free == s.free && |s'.pcs| == |s.pcs|
      && (forall u | 0 <= u < |s.pcs| && u != t :: s'.pcs[u] == s.pcs[u])
      && (if s.pcs[t].Idle? && a.StartPop? then CallOf(s'.pcs[t]) == PopCall && s'.held == s.held
          else if s.pcs[t].Idle? && a.StartPush? && a.node in s.held then
            CallOf(s'.pcs[t]) == PushCall(a.node) && s'.held == s.held - {a.node}
          else s' == s)
  {
  }

  /** n uninterrupted accesses of one thread. */
  ghost function Alone(s: State, t: nat, n: nat): (r: State)
    requires t < |s.pcs|
    ensures |r.pcs| == |s.pcs|
    decreases n
  {
    if n == 0 then s else Alone(Step(s, t, Run(false)), t, n - 1)
  }

  lemma ThreeSteps(s: State, t: nat)
    requires t < |s.pcs|
    ensures Alone(s, t, 3) == Step(Step(Step(s, t, Run(false)), t, Run(false)), t, Run(false))
    ensures Alone(s, t, 1) == Step(s, t, Run(false))
  {
    var s1 := Step(s, t, Run(false));
    var s2 := Step(s1, t, Run(false));
    assert Alone(s1, t, 0) == s1;
    assert Alone(s2, t, 1) == Step(s2, t, Run(false)) by { assert Alone(Step(s2, t, Run(false)), t, 0) == Step(s2, t, Run(false)); }
    assert Alone(s1, t, 2) == Alone(s2, t, 1);
  }

  /** Undisturbed, a release puts exactly its node on top of the free list and returns. */
  lemma SequentialRelease(s: State, t: nat, n: nat)
    requires Inv(s) && t < |s.pcs| && s.pcs[t].Idle? && n in s.held
    ensures var r := Alone(Step(s, t, StartPush(n)), t, 3);
      r == s.(head := Head(s.head.count + 1, At(n)), next := r.next, free := [n] + s.free, held := s.held - {n})
  {
    var s0 := Step(s, t, StartPush(n));
    ThreeSteps(s0, t);
    StartPushInv(s, t, n);
    assert n < |s.next|;
    var r := Alone(s0, t, 3);
    assert r.pcs == s.pcs;
  }

  /** Undisturbed, a pop hands out the top of the free list, to a new holder, and returns; on an empty list it
      returns at once and changes nothing. */
  lemma SequentialPop(s: State, t: nat)
    requires Inv(s) && t < |s.pcs| && s.pcs[t].Idle?
    ensures s.free == [] ==> Alone(Step(s, t, StartPop), t, 1) == s
    ensures s.free != [] ==>
      var r := Alone(Step(s, t, StartPop), t, 3);
      && r == s.(head := r.head, free := s.free[1..], held := s.held + {s.free[0]})
      && s.free[0] !in s.held && r.head == Head(s.head.count + 1, if |s.free| == 1 then Null else At(s.free[1]))
  {
    var s0 := Step(s, t, StartPop);
    ThreeSteps(s0, t);
    if s.free == [] {
      assert Alone(s0, t, 1).pcs == s.pcs;
    } else {
      assert Chain(s.next, s.next[s.free[0]], s.free[1..]);
      var r := Alone(s0, t, 3);
      assert r.pcs == s.pcs;
    }
  }
}

/**
 The fusion callback (cyber/data/fusion/all_latest.h) access by access.  The primary buffer's mutex is held
 during a primary fill, but the latest message of each other channel is loaded under that channel's own mutex,
 so messages of the other channels may arrive between the fill's start and each of the loads.
 */
module FusionCallback {
  import opened ChannelData

  /** A fused tuple; start is the position of its primary message among all arrivals and loads[c] the number of
      arrivals when the partner from channel c was loaded. */
  datatype Tuple<T> = Tuple(m: T, partners: seq<T>, start: nat, loads: seq<nat>)

  /** The callback in progress, if any, with what it has loaded so far. */
  datatype Callback<T> = Idle | Loading(tuple: Tuple<T>)

  /** How a callback ended: with a tuple in the fused ring, or with nothing because the channel behind the
      partners it has had sent nothing by the given load. */
  datatype Outcome<T> = Pushed(tuple: Tuple<T>) | GivenUp(tuple: Tuple<T>, load: nat)

  /** n other channels, whose rings hold what Sent says of the log of arrivals; outcomes of ended callbacks. */
  datatype State<T> = State(
    n: nat, log: seq<Arrival<T>>, callback: Callback<T>, fused: seq<Tuple<T>>, outcomes: seq<Outcome<T>>)

  datatype Action<T> =
    | FillOther(channel: nat, m: T)
    | StartPrimary(m: T)
    | Run            // the callback's next access: a load, or the fill of the fused ring

  function Init<T>(n: nat): State<T> {
    State(n, [], Idle, [], [])
  }

  ghost function Step<T>(s: State<T>, a: Action<T>): State<T> {
    match a
    case FillOther(c, m) => if c < s.n then s.(log := s.log + [Other(c, m)]) else s
    case StartPrimary(m) =>
      if s.callback.Idle? then s.(log := s.log + [Primary(m)], callback := Loading(Tuple(m, [], |s.log|, []))) else s
    case Run => if s.callback.Loading? then RunCallback(s, s.callback.tuple) else s
  }

  ghost function RunCallback<T>(s: State<T>, t: Tuple<T>): State<T> {
    var c := |t.partners|;
    if c >= s.n then s.(callback := Idle, fused := s.fused + [t], outcomes := s.outcomes + [Pushed(t)])
    else if Sent(s.log, c) == [] then s.(callback := Idle, outcomes := s.outcomes + [GivenUp(t, |s.log|)])
    else s.(callback := Loading(t.(partners := t.partners + [Newest(s.log, c)], loads := t.loads + [|s.log|])))
  }

  ghost function Newest<T>(log: seq<Arrival<T>>, c: nat): T
    requires Sent(log, c) != []
  {
    Sent(log, c)[|Sent(log, c)| - 1]
  }

  ghost function Exec<T>(s: State<T>, actions: seq<Action<T>>): State<T>
    decreases |actions|
  {
    if actions == [] then s else Step(Exec(s, actions[..|actions| - 1]), actions[|actions| - 1])
  }

  // ---------------------------------------------------------------- invariant

  /** The partner from channel c is what that channel had sent last at its load, after the fill's start. */
  ghost predicate PartnerOk<T>(log: seq<Arrival<T>>, t: Tuple<T>, c: int)
    requires 0 <= c < |t.partners| && |t.loads| == |t.partners|
  {
    && t.start < t.loads[c] <= |log| && Sent(log[..t.loads[c]], c) != []
    && t.partners[c] == Newest(log[..t.loads[c]], c)
  }

  ghost predicate TupleOk<T>(log: seq<Arrival<T>>, t: Tuple<T>) {
    && t.start < |log| && log[t.start] == Primary(t.m) && |t.loads| == |t.partners|
    && (forall c | 0 <= c < |t.loads| :: t.loads[c] <= |log|)
    && (forall c | 0 <= c < |t.partners| :: PartnerOk(log, t, c))
    && (forall c, d | 0 <= c < d < |t.loads| :: t.loads[c] <= t.loads[d])
  }

  /** The loads a callback made, the one that ended it included. */
  function Loads<T>(o: Outcome<T>): seq<nat> {
    match o
    case Pushed(t) => t.loads
    case GivenUp(t, load) => t.loads + [load]
  }

  ghost predicate OutcomeOk<T>(log: seq<Arrival<T>>, n: nat, o: Outcome<T>) {
    && TupleOk(log, o.tuple)
    && match o
       case Pushed(t) => |t.partners| == n
       case GivenUp(t, load) =>
         |t.partners| < n && t.start < load <= |log| && Sent(log[..load], |t.partners|) == []
  }

  /** The callback of the primary message at position p is running or has ended. */
  ghost predicate Accounted<T>(s: State<T>, p: int) {
    || (s.callback.Loading? && s.callback.tuple.start == p)
    || exists k | 0 <= k < |s.outcomes| :: s.outcomes[k].tuple.start == p
  }

  /** The tuples pushed, in order. */
  function PushedTuples<T>(outcomes: seq<Outcome<T>>): seq<Tuple<T>> {
    if outcomes == [] then [] else
      var k := |outcomes| - 1;
      PushedTuples(outcomes[..k]) + if outcomes[k].Pushed? then [outcomes[k].tuple] else []
  }

  ghost predicate AllOk<T>(log: seq<Arrival<T>>, n: nat, outcomes: seq<Outcome<T>>) {
    forall k | 0 <= k < |outcomes| :: OutcomeOk(log, n, outcomes[k])
  }

  ghost predicate InOrder<T>(outcomes: seq<Outcome<T>>) {
    forall j, k | 0 <= j < k < |outcomes| :: outcomes[j].tuple.start < outcomes[k].tuple.start
  }

  ghost predicate AllBefore<T>(outcomes: seq<Outcome<T>>, p: nat) {
    forall k | 0 <= k < |outcomes| :: outcomes[k].tuple.start < p
  }

  /** The running callback is that of the last primary message. */
  ghost predicate CallbackOk<T>(s: State<T>) {
    s.callback.Loading? ==>
      && TupleOk(s.log, s.callback.tuple) && |s.callback.tuple.partners| <= s.n
      && AllBefore(s.outcomes, s.callback.tuple.start)
      && forall p | s.callback.tuple.start < p < |s.log| :: !s.log[p].Primary?
  }

  ghost predicate AllAccounted<T>(s: State<T>) {
    forall p | 0 <= p < |s.log| && s.log[p].Primary? :: Accounted(s, p)
  }

  ghost predicate Inv<T>(s: State<T>) {
    && s.fused == PushedTuples(s.outcomes) && AllOk(s.log, s.n, s.outcomes) && InOrder(s.outcomes)
    && CallbackOk(s) && AllAccounted(s)
  }

  lemma TupleLater<T>(log: seq<Arrival<T>>, t: Tuple<T>, a: Arrival<T>)
    requires TupleOk(log, t)
    ensures TupleOk(log + [a], t)
  {
    forall c | 0 <= c < |t.partners|
      ensures PartnerOk(log + [a], t, c)
    {
      assert PartnerOk(log, t, c);
      assert (log + [a])[..t.loads[c]] == log[..t.loads[c]];
    }
  }

  lemma OutcomeLater<T>(log: seq<Arrival<T>>, n: nat, o: Outcome<T>, a: Arrival<T>)
    requires OutcomeOk(log, n, o)
    ensures OutcomeOk(log + [a], n, o)
  {
    TupleLater(log, o.tuple, a);
    if o.GivenUp? { assert (log + [a])[..o.load] == log[..o.load]; }
  }

  /** What a channel has sent only grows. */
  lemma {:induction false} SentGrows<T>(log: seq<Arrival<T>>, p: nat, c: nat)
    requires p <= |log|
    ensures Sent(log[..p], c) <= Sent(log, c)
    ensures |Sent(log[..p], c)| == |Sent(log, c)| <==>
            forall i | p <= i < |log| :: !(log[i].Other? && log[i].channel == c)
    decreases |log|
  {
    if p == |log| {
      assert log[..p] == log;
    } else {
      var k := |log| - 1;
      assert log[..k][..p] == log[..p];
      SentGrows(log[..k], p, c);
      assert Sent(log[..p], c) <= Sent(log[..k], c) <= Sent(log, c);
    }
  }

  /** An arrival: on another channel, or the primary one that starts the callback. */
  lemma ArrivalInv<T>(s: State<T>, a: Arrival<T>, s': State<T>)
    requires Inv(s) && s' == s.(log := s.log + [a], callback := s'.callback)
    requires if a.Other? then s'.callback == s.callback
             else s.callback.Idle? && s'.callback == Loading(Tuple(a.m, [], |s.log|, []))
    ensures Inv(s')
  {
    hide OutcomeOk, InOrder;
    forall k | 0 <= k < |s'.outcomes|
      ensures OutcomeOk(s'.log, s'.n, s'.outcomes[k])
    {
      OutcomeLater(s.log, s.n, s.outcomes[k], a);
    }
    StartsInLog(s.log, s.n, s.outcomes);
    if s.callback.Loading? { TupleLater(s.log, s.callback.tuple, a); }
    forall p | 0 <= p < |s'.log| && s'.log[p].Primary?
      ensures Accounted(s', p)
    {
      if p < |s.log| { assert Accounted(s, p); }
    }
  }

  lemma StartsInLog<T>(log: seq<Arrival<T>>, n: nat, outcomes: seq<Outcome<T>>)
    requires AllOk(log, n, outcomes)
    ensures AllBefore(outcomes, |log|)
  {
    forall k | 0 <= k < |outcomes|
      ensures outcomes[k].tuple.start < |log|
    {
      assert OutcomeOk(log, n, outcomes[k]);
    }
  }

  lemma LoadInv<T>(s: State<T>)
    requires Inv(s) && s.callback.Loading? && |s.callback.tuple.partners| < s.n
    requires Sent(s.log, |s.callback.tuple.partners|) != []
    ensures Inv(RunCallback(s, s.callback.tuple))
  {
    hide AllOk, InOrder, AllBefore;
    var t, s' := s.callback.tuple, RunCallback(s, s.callback.tuple);
    var t' := s'.callback.tuple;
    assert s.log[..|s.log|] == s.log;
    forall c | 0 <= c < |t'.partners|
      ensures PartnerOk(s.log, t', c)
    {
      if c < |t.partners| { assert PartnerOk(s.log, t, c); }
    }
    forall p | 0 <= p < |s.log| && s.log[p].Primary?
      ensures Accounted(s', p)
    {
      assert Accounted(s, p);
    }
  }

  /** How the running callback ends: with a tuple, or with none because a channel had sent nothing yet. */
  ghost function Ending<T>(s: State<T>): Outcome<T>
    requires s.callback.Loading?
  {
    var t := s.callback.tuple;
    if |t.partners| >= s.n then Pushed(t) else GivenUp(t, |s.log|)
  }

  lemma EndingOk<T>(s: State<T>)
    requires CallbackOk(s) && s.callback.Loading?
    requires var c := |s.callback.tuple.partners|; c >= s.n || Sent(s.log, c) == []
    ensures OutcomeOk(s.log, s.n, Ending(s))
    ensures var t := s.callback.tuple;
      RunCallback(s, t) == s.(callback := Idle, outcomes := s.outcomes + [Ending(s)],
                              fused := s.fused + if Ending(s).Pushed? then [t] else [])
  {
    assert s.log[..|s.log|] == s.log;
  }

  lemma OutcomesMore<T>(log: seq<Arrival<T>>, n: nat, outcomes: seq<Outcome<T>>, o: Outcome<T>)
    requires AllOk(log, n, outcomes) && InOrder(outcomes) && OutcomeOk(log, n, o) && AllBefore(outcomes, o.tuple.start)
    ensures AllOk(log, n, outcomes + [o]) && InOrder(outcomes + [o])
    ensures PushedTuples(outcomes + [o]) == PushedTuples(outcomes) + if o.Pushed? then [o.tuple] else []
  {
    hide OutcomeOk;
    assert (outcomes + [o])[..|outcomes|] == outcomes;
  }

  lemma AccountedAtEnd<T>(s: State<T>, o: Outcome<T>, s': State<T>)
    requires AllAccounted(s) && s.callback.Loading? && o.tuple == s.callback.tuple
    requires s'.log == s.log && s'.outcomes == s.outcomes + [o]
    ensures AllAccounted(s')
  {
    forall p | 0 <= p < |s'.log| && s'.log[p].Primary?
      ensures Accounted(s', p)
    {
      assert Accounted(s, p);
      if p == o.tuple.start {
        assert s'.outcomes[|s.outcomes|].tuple.start == p;
      } else {
        var j :| 0 <= j < |s.outcomes| && s.outcomes[j].tuple.start == p;
        assert s'.outcomes[j].tuple.start == p;
      }
    }
  }

  lemma EndInv<T>(s: State<T>)
    requires Inv(s) && s.callback.Loading?
    requires var c := |s.callback.tuple.partners|; c >= s.n || Sent(s.log, c) == []
    ensures Inv(RunCallback(s, s.callback.tuple))
  {
    hide OutcomeOk, TupleOk, Sent, RunCallback, AllOk, InOrder, AllAccounted, AllBefore, PushedTuples;
    EndingOk(s);
    var s' := RunCallback(s, s.callback.tuple);
    OutcomesMore(s.log, s.n, s.outcomes, Ending(s));
    AccountedAtEnd(s, Ending(s), s');
  }

  lemma StepInv<T>(s: State<T>, a: Action<T>)
    requires Inv(s)
    ensures Inv(Step(s, a))
  {
    hide Inv, RunCallback;
    match a
    case FillOther(c, m) => if c < s.n { ArrivalInv(s, Other(c, m), Step(s, a)); }
    case StartPrimary(m) => if s.callback.Idle? { ArrivalInv(s, Primary(m), Step(s, a)); }
    case Run =>
      if s.callback.Loading? {
        if |s.callback.tuple.partners| < s.n && Sent(s.log, |s.callback.tuple.partners|) != [] {
          LoadInv(s);
        } else {
          EndInv(s);
        }
      }
  }

  lemma {:induction false} ExecInv<T>(n: nat, actions: seq<Action<T>>)
    ensures Inv(Exec(Init(n), actions))
    decreases |actions|
  {
    if actions != [] {
      ExecInv(n, actions[..|actions| - 1]);
      StepInv(Exec(Init(n), actions[..|actions| - 1]), actions[|actions| - 1]);
    }
  }

  /** What a run's actions are: an arrival on another channel goes into the log as it is and disturbs nothing; a primary
      message starts its own callback, with no partner yet, unless the primary buffer is busy; and a callback's
      accesses log nothing. */
  lemma ArrivalsAreLogged<T>(s: State<T>, a: Action<T>)
    ensures var s' := Step(s, a);
      match a
      case FillOther(c, m) => s' == s.(log := if c < s.n then s.log + [Other(c, m)] else s.log)
      case StartPrimary(m) =>
        if s.callback.Idle?
        then s'.log == s.log + [Primary(m)] && s'.callback == Loading(Tuple(m, [], |s.log|, []))
             && s'.fused == s.fused && s'.outcomes == s.outcomes && s'.n == s.n
        else s' == s
      case Run => s'.log == s.log && s'.n == s.n && (s.callback.Idle? ==> s' == s)
  {
  }

  /** n uninterrupted accesses of the callback. */
  ghost function Alone<T>(s: State<T>, n: nat): State<T>
    decreases n
  {
    if n == 0 then s else Alone(Step(s, Run), n - 1)
  }

  /** The callback's tuple t, completed from channel c on with the newest message of every channel. */
  ghost predicate CompletedFrom<T>(log: seq<Arrival<T>>, n: nat, t: Tuple<T>, c: nat, done: Tuple<T>) {
    && done.m == t.m && |done.partners| == n && c <= |t.partners| && c <= n && done.partners[..c] == t.partners[..c]
    && forall d: nat | c <= d < n :: Sent(log, d) != [] && done.partners[d] == Newest(log, d)
  }

  /** A running callback that nobody disturbs ends: with the tuple of its own message, what it has loaded and the newest
      message of every channel not yet loaded, if and only if those channels have all sent something. */
  lemma {:induction false} CallbackEnds<T>(s: State<T>, c: nat) returns (k: nat)
    requires s.callback.Loading? && |s.callback.tuple.partners| == c <= s.n
    ensures var r := Alone(s, k);
      && r.callback.Idle? && r.log == s.log
      && (if forall d: nat | c <= d < s.n :: Sent(s.log, d) != []
          then |r.fused| == |s.fused| + 1 && r.fused[..|s.fused|] == s.fused
               && CompletedFrom(s.log, s.n, s.callback.tuple, c, r.fused[|s.fused|])
          else r.fused == s.fused)
    decreases s.n - c
  {
    var s' := Step(s, Run);
    assert Alone(s', 0) == s';
    if c == s.n || Sent(s.log, c) == [] {
      k := 1;
      assert Alone(s, 1) == s';
    } else {
      hide Sent;
      var j := CallbackEnds(s', c + 1);
      k := j + 1;
      var r := Alone(s', j);
      if forall d: nat | c <= d < s.n :: Sent(s.log, d) != [] {
        CompletedEarlier(s.log, s.n, s.callback.tuple, c, s'.callback.tuple, r.fused[|s.fused|]);
      }
    }
  }

  lemma CompletedEarlier<T>(log: seq<Arrival<T>>, n: nat, t: Tuple<T>, c: nat, t': Tuple<T>, done: Tuple<T>)
    requires |t.partners| == c < n && Sent(log, c) != []
    requires t'.m == t.m && t'.partners == t.partners + [Newest(log, c)] && CompletedFrom(log, n, t', c + 1, done)
    ensures CompletedFrom(log, n, t, c, done)
  {
    hide Sent;
    var p := done.partners;
    assert p[..c] == p[..c + 1][..c] && p[c] == p[..c + 1][c];
  }

  // ---------------------------------------------------------- main theorems

  /** Over every interleaving of fills and loads: ended callbacks come in primary order, one per primary message,
      and every primary message has one, unless its callback is still running.  A message is fused if and only
      if every channel its callback loaded had sent something by that channel's own load, and then all were
      loaded, later channels not earlier; each partner is what its channel had sent last at its load; and
      the fused ring holds exactly the tuples pushed. */
  lemma FusedUnderInterleaving<T>(n: nat, actions: seq<Action<T>>)
    ensures var s := Exec(Init(n), actions);
      && s.fused == PushedTuples(s.outcomes)
      && InOrder(s.outcomes) && AllAccounted(s) && AllOk(s.log, n, s.outcomes)
      && (forall k | 0 <= k < |s.outcomes| :: FusedExactly(s.log, n, s.outcomes[k]))
  {
    ExecInv<T>(n, actions);
    SameWidth(n, actions);
    var s := Exec(Init(n), actions);
    forall k | 0 <= k < |s.outcomes|
      ensures FusedExactly(s.log, n, s.outcomes[k])
    {
      OutcomeIsExact(s.log, n, s.outcomes[k]);
    }
  }

  ghost predicate SentByLoad<T>(log: seq<Arrival<T>>, loads: seq<nat>, c: nat) {
    c < |loads| && loads[c] <= |log| && Sent(log[..loads[c]], c) != []
  }

  ghost predicate FusedExactly<T>(log: seq<Arrival<T>>, n: nat, o: Outcome<T>) {
    && (o.Pushed? <==> forall c: nat | c < |Loads(o)| :: SentByLoad(log, Loads(o), c))
    && (o.Pushed? ==> |Loads(o)| == n)
  }

  lemma OutcomeIsExact<T>(log: seq<Arrival<T>>, n: nat, o: Outcome<T>)
    requires OutcomeOk(log, n, o)
    ensures FusedExactly(log, n, o)
  {
    forall c: nat | c < |o.tuple.partners|
      ensures SentByLoad(log, Loads(o), c)
    {
      assert PartnerOk(log, o.tuple, c);
    }
    if o.GivenUp? { assert !SentByLoad(log, Loads(o), |o.tuple.partners|); }
  }

  /** Channel c sent its very first message between position p and the load. */
  ghost predicate FirstArrivesMeanwhile<T>(log: seq<Arrival<T>>, p: nat, loads: seq<nat>, c: nat)
    requires p <= |log|
  {
    Sent(log[..p], c) == [] && SentByLoad(log, loads, c)
  }

  /** A message is fused although some channel had sent nothing before it, if and only if by their own loads all had
      sent something and some channel its very first message only meanwhile; a message behind a first message
      of every channel is always fused. */
  lemma FusedBeyondEligible<T>(log: seq<Arrival<T>>, n: nat, o: Outcome<T>)
    requires OutcomeOk(log, n, o)
    ensures Eligible(log, o.tuple.start, n) ==> o.Pushed?
    ensures o.Pushed? && !Eligible(log, o.tuple.start, n) <==>
            && (forall c: nat | c < n :: SentByLoad(log, Loads(o), c))
            && (exists c: nat :: c < n && FirstArrivesMeanwhile(log, o.tuple.start, Loads(o), c))
  {
    OutcomeIsExact(log, n, o);
    var p := o.tuple.start;
    if o.GivenUp? {
      var c := |o.tuple.partners|;
      var upTo := log[..o.load];
      assert upTo[..p] == log[..p];
      SentGrows(upTo, p, c);
      assert !SentByLoad(log, Loads(o), c);
    } else if !Eligible(log, p, n) {
      var c: nat :| c < n && Sent(log[..p], c) == [];
      assert FirstArrivesMeanwhile(log, p, Loads(o), c);
    }
  }

  /** Such a message: fused with a partner that is its channel's very first message and arrived behind it. */
  lemma UneligibleMayBeFused() returns (actions: seq<Action<int>>)
    ensures var s := Exec(Init(1), actions);
      s.log == [Primary(9), Other(0, 2)] && !Eligible(s.log, 0, 1) && |s.fused| == 1 && |Fused(s.log, 1)| == 0
  {
    var s0 := Init<int>(1);
    assert Exec(s0, []) == s0;
    var a1 := ExecMore(s0, [], StartPrimary(9));
    var a2 := ExecMore(s0, a1, FillOther(0, 2));
    var log1, log2 := [Primary(9)], [Primary(9), Other(0, 2)];
    SentMore([], Primary(9), 0);
    SentMore(log1, Other(0, 2), 0);
    assert log1 + [Other(0, 2)] == log2 && [] + [Primary(9)] == log1;
    NothingBefore(log2);
    assert Sent(log2, 0) == [2];
    hide Exec, Sent, Fused, AllSeen;
    assert Exec(s0, a2) == State(1, log2, Loading(Tuple(9, [], 0, [])), [], []);
    var a3 := ExecMore(s0, a2, Run);
    assert Exec(s0, a3) == State(1, log2, Loading(Tuple(9, [2], 0, [2])), [], []);
    actions := ExecMore(s0, a3, Run);
  }

  /** A primary message that comes first is not eligible. */
  lemma NothingBefore(log: seq<Arrival<int>>)
    requires log == [Primary(9), Other(0, 2)]
    ensures !Eligible(log, 0, 1) && Fused(log, 1) == []
  {
    var first := log[..1];
    assert first[0] == Primary(9) && first[..0] == log[..0] == [];
    assert Sent(log[..0], 0) == [];
    assert !AllSeen(log[..0], 1);
    assert Fused(first[..0], 1) == [];
    assert Fused(first, 1) == [];
  }

  lemma {:induction false} SameWidth<T>(n: nat, actions: seq<Action<T>>)
    ensures Exec(Init(n), actions).n == n
    decreases |actions|
  {
    if actions != [] { SameWidth(n, actions[..|actions| - 1]); }
  }

  /** Nothing on channel c arrives between two positions. */
  ghost predicate QuietBetween<T>(log: seq<Arrival<T>>, c: nat, from: nat, to: nat)
    requires to <= |log|
  {
    forall i | from <= i < to :: !(log[i].Other? && log[i].channel == c)
  }

  /** Where a partner came from: it is the last message of its channel before the load, and it is earlier than the
      primary message, as the partner that fusion in one step would take, if and only if the channel sent
      nothing between the start of the fill and the load. */
  lemma PartnerIsEarlierExactly<T>(log: seq<Arrival<T>>, t: Tuple<T>, c: nat) returns (p: nat)
    requires TupleOk(log, t) && c < |t.partners|
    ensures p < t.loads[c] && log[p] == Other(c, t.partners[c]) && QuietBetween(log, c, p + 1, t.loads[c])
    ensures p < t.start <==> QuietBetween(log, c, t.start, t.loads[c])
  {
    assert PartnerOk(log, t, c);
    var upTo := log[..t.loads[c]];
    p := LatestIsLast(upTo, c);
    assert forall i | 0 <= i < t.loads[c] :: upTo[i] == log[i];
    assert log[p].Other? && log[p].channel == c;
  }

  /** A channel that was quiet meanwhile shows at its load what it had sent before the primary message. */
  lemma QuietSent<T>(log: seq<Arrival<T>>, c: nat, from: nat, to: nat)
    requires from <= to <= |log| && QuietBetween(log, c, from, to)
    ensures Sent(log[..to], c) == Sent(log[..from], c)
  {
    var upTo := log[..to];
    assert upTo[..from] == log[..from];
    SentGrows(upTo, from, c);
  }

  /** All channels a callback loaded were quiet from the start of the fill to their own loads. */
  ghost predicate Quiet<T>(log: seq<Arrival<T>>, o: Outcome<T>) {
    forall c: nat | c < |Loads(o)| :: Loads(o)[c] <= |log| && QuietBetween(log, c, o.tuple.start, Loads(o)[c])
  }

  /** A callback that was not disturbed does what fusion in one step does. */
  lemma QuietOutcomeIsFused<T>(log: seq<Arrival<T>>, n: nat, o: Outcome<T>)
    requires OutcomeOk(log, n, o) && Quiet(log, o)
    ensures o.Pushed? <==> Eligible(log, o.tuple.start, n)
    ensures o.Pushed? ==> o.tuple.partners == Latest(log[..o.tuple.start], n)
  {
    var t := o.tuple;
    forall c: nat | c < |t.partners|
      ensures Sent(log[..t.start], c) != [] && t.partners[c] == Newest(log[..t.start], c)
    {
      assert PartnerOk(log, t, c) && Loads(o)[c] == t.loads[c];
      QuietSent(log, c, t.start, t.loads[c]);
    }
    if o.GivenUp? {
      var c := |t.partners|;
      assert Loads(o)[c] == o.load;
      QuietSent(log, c, t.start, o.load);
    }
  }

  // ------------------------------------------------ undisturbed runs are the plain fusion

  /** The fused stream as a client sees it. */
  ghost function Stream<T>(fused: seq<Tuple<T>>): seq<(T, seq<T>)> {
    if fused == [] then [] else Stream(fused[..|fused| - 1]) + [(fused[|fused| - 1].m, fused[|fused| - 1].partners)]
  }

  ghost predicate AllQuiet<T>(s: State<T>) {
    forall k | 0 <= k < |s.outcomes| :: Quiet(s.log, s.outcomes[k])
  }

  /** The arrivals whose fusion has ended. */
  function Settled<T>(s: State<T>): nat {
    if s.callback.Loading? then s.callback.tuple.start else |s.log|
  }

  ghost predicate PlainSoFar<T>(s: State<T>) {
    Settled(s) <= |s.log| && Stream(s.fused) == Fused(s.log[..Settled(s)], s.n)
  }

  lemma StreamMore<T>(fused: seq<Tuple<T>>, t: Tuple<T>)
    ensures Stream(fused + [t]) == Stream(fused) + [(t.m, t.partners)]
  {
    assert (fused + [t])[..|fused|] == fused;
  }

  /** Arrivals on other channels fuse nothing. */
  lemma {:induction false} OthersFuseNothing<T>(log: seq<Arrival<T>>, from: nat, n: nat)
    requires from <= |log| && forall p | from <= p < |log| :: !log[p].Primary?
    ensures Fused(log, n) == Fused(log[..from], n)
    decreases |log|
  {
    if from == |log| {
      assert log[..from] == log;
    } else {
      var k := |log| - 1;
      assert log[..k][..from] == log[..from];
      OthersFuseNothing(log[..k], from, n);
    }
  }

  lemma QuietLater<T>(log: seq<Arrival<T>>, o: Outcome<T>, a: Arrival<T>)
    requires Quiet(log + [a], o) && forall c | 0 <= c < |Loads(o)| :: Loads(o)[c] <= |log|
    ensures Quiet(log, o)
  {
    forall c: nat | c < |Loads(o)|
      ensures QuietBetween(log, c, o.tuple.start, Loads(o)[c])
    {
      assert QuietBetween(log + [a], c, o.tuple.start, Loads(o)[c]);
      assert forall i | 0 <= i < |log| :: (log + [a])[i] == log[i];
    }
  }

  lemma LoadsInLog<T>(log: seq<Arrival<T>>, n: nat, o: Outcome<T>)
    requires OutcomeOk(log, n, o)
    ensures forall c | 0 <= c < |Loads(o)| :: Loads(o)[c] <= |log|
  {
  }

  /** The end of an undisturbed callback settles its primary message as fusion in one step would. */
  lemma EndPlain<T>(s: State<T>)
    requires Inv(s) && s.callback.Loading? && PlainSoFar(s)
    requires var c := |s.callback.tuple.partners|; c >= s.n || Sent(s.log, c) == []
    requires var s' := RunCallback(s, s.callback.tuple);
      |s'.outcomes| == |s.outcomes| + 1 && Quiet(s.log, s'.outcomes[|s.outcomes|])
    ensures PlainSoFar(RunCallback(s, s.callback.tuple))
  {
    hide AllOk, InOrder, AllAccounted, RunCallback, OutcomeOk, AllBefore, PushedTuples, Quiet, Stream, AllSeen, Latest;
    EndingOk(s);
    var t, o := s.callback.tuple, Ending(s);
    assert RunCallback(s, t).outcomes[|s.outcomes|] == o;
    QuietOutcomeIsFused(s.log, s.n, o);
    StreamMore(s.fused, t);
    assert s.fused + [] == s.fused;
    assert s.log[..|s.log|] == s.log;
    var upTo := s.log[..t.start + 1];
    assert upTo[..t.start] == s.log[..t.start] && upTo[t.start] == s.log[t.start];
    OthersFuseNothing(s.log, t.start + 1, s.n);
  }

  lemma StepPlain<T>(s: State<T>, a: Action<T>)
    requires Inv(s) && (AllQuiet(s) ==> PlainSoFar(s)) && AllQuiet(Step(s, a))
    ensures PlainSoFar(Step(s, a))
  {
    hide OutcomeOk, Quiet, TupleOk, Stream, AllOk, InOrder, AllAccounted, AllBefore, PushedTuples;
    var s' := Step(s, a);
    EarlierQuiet(s, a);
    if s'.log != s.log {
      assert s'.log[..|s.log|] == s.log && s.log[..|s.log|] == s.log;
      if s.callback.Idle? && a.FillOther? {
        assert s'.log[..|s'.log|] == s'.log;
        OthersFuseNothing(s'.log, |s.log|, s.n);
      } else if s.callback.Loading? {
        assert s'.log[..Settled(s)] == s.log[..Settled(s)];
      }
    } else if s'.outcomes != s.outcomes {
      EndPlain(s);
    }
  }

  lemma EarlierQuiet<T>(s: State<T>, a: Action<T>)
    requires Inv(s) && AllQuiet(Step(s, a))
    ensures AllQuiet(s)
  {
    var s' := Step(s, a);
    forall k | 0 <= k < |s.outcomes|
      ensures Quiet(s.log, s.outcomes[k])
    {
      assert s'.outcomes[k] == s.outcomes[k];
      assert Quiet(s'.log, s'.outcomes[k]);
      if s'.log != s.log {
        LoadsInLog(s.log, s.n, s.outcomes[k]);
        QuietLater(s.log, s.outcomes[k], s'.log[|s.log|]);
      }
    }
  }

  /** In every run in which no callback was disturbed by an arrival on a channel between the start of its fill and
      its load of that channel, the fused stream is that of fusion in one step. */
  lemma {:induction false} QuietRunIsFused<T>(n: nat, actions: seq<Action<T>>)
    requires AllQuiet(Exec(Init(n), actions))
    ensures PlainSoFar(Exec(Init(n), actions))
    decreases |actions|
  {
    if actions != [] {
      var front, a := actions[..|actions| - 1], actions[|actions| - 1];
      var s := Exec(Init(n), front);
      ExecInv<T>(n, front);
      EarlierQuiet(s, a);
      QuietRunIsFused(n, front);
      StepPlain(s, a);
    }
  }

  /** The race is real: a partner that arrived behind the primary message. */
  lemma PartnerMayArriveLater() returns (actions: seq<Action<int>>)
    ensures var s := Exec(Init(1), actions);
      s.log == [Other(0, 1), Primary(9), Other(0, 2)] && |s.fused| == 1 && s.fused[0].partners == [2]
  {
    var s0 := Init<int>(1);
    var a1 := ExecMore(s0, [], FillOther(0, 1));
    var log1 := [Other(0, 1)];
    SentMore([], Other(0, 1), 0);
    assert Exec(s0, a1) == State(1, log1, Idle, [], []);
    var a2 := ExecMore(s0, a1, StartPrimary(9));
    var log2 := log1 + [Primary(9)];
    SentMore(log1, Primary(9), 0);
    var a3 := ExecMore(s0, a2, FillOther(0, 2));
    SentMore(log2, Other(0, 2), 0);
    assert Exec(s0, a3) == State(1, log2 + [Other(0, 2)], Loading(Tuple(9, [], 1, [])), [], []);
    var a4 := ExecMore(s0, a3, Run);
    actions := ExecMore(s0, a4, Run);
  }

  lemma ExecMore<T>(s: State<T>, actions: seq<Action<T>>, a: Action<T>) returns (more: seq<Action<T>>)
    ensures more == actions + [a] && Exec(s, more) == Step(Exec(s, actions), a)
  {
    more := actions + [a];
    assert more[..|actions|] == actions;
  }

  lemma SentMore<T>(log: seq<Arrival<T>>, a: Arrival<T>, c: nat)
    ensures Sent(log + [a], c) == Sent(log, c) + (if a.Other? && a.channel == c then [a.m] else [])
  {
    assert (log + [a])[..|log|] == log;
  }
}

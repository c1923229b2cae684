/**
 The notify/wake protocol between dispatchers and a data-driven routine: the routine loop
 (cyber/croutine/routine_factory.h), the routine's state and update flag
 (cyber/croutine/croutine.h), fill-then-notify (cyber/data/data_dispatcher.h) and the
 scheduler's NotifyProcessor and NextRoutine (cyber/scheduler/policy/scheduler_classic.cc,
 cyber/scheduler/policy/classic_context.cc).  One step is one access of shared state; any number of
 dispatchers and processors take part.
 */
module Wakeup {
  import opened Common
  import opened ChannelData

  datatype RoutineState = READY | SLEEP | IO_WAIT | DATA_WAIT

  /** The routine's position in its loop; callback may suspend inside. */
  datatype Point =
    | LoopTop       // about to set DATA_WAIT
    | Fetch         // about to call TryFetch
    | Callback      // running the user's function on a message
    | AfterCallback // about to yield with READY
    | AfterMiss     // about to yield, state untouched

  /** Which access the processor that owns the routine makes next; Free means lock_ is clear. */
  datatype Owner =
    | Free
    | CheckSleep  // UpdateState: the synchronous events
    | TestFlag    // UpdateState: test_and_set of updated_
    | Promote     // UpdateState: flag consumed; a waiting routine becomes READY
    | Decide      // NextRoutine: resume if READY
    | Running     // inside Resume
    | Releasing   // about to clear lock_

  datatype Dispatcher =
    | Quiet
    | TestDataWait // filled; about to read the state for the first comparison
    | TestIoWait   // about to read it for the second comparison
    | SetFlag      // about to clear updated_

  /** flag: updated_ is clear, a notification is pending. */
  datatype State = State(
    size: nat, tail: nat, next: nat, rstate: RoutineState, flag: bool, point: Point, owner: Owner,
    dispatchers: seq<Dispatcher>)

  datatype Action =
    | Dispatch(d: nat)            // next access of dispatcher d; a quiet one fills
    | Schedule(expired: bool)     // next access of the owning processor, or a processor acquires
    | Suspend(s: RoutineState)    // the callback yields into a state: sleep, I/O, hang up, READY
    | CallbackYield               // the callback yields and leaves the state as it is

  /** A created routine: READY, no notification pending. */
  function Init(size: nat, dispatchers: nat): State {
    State(size, 0, 0, READY, false, LoopTop, Free, seq(dispatchers, _ => Quiet))
  }

  predicate Unfetched(s: State) {
    FetchAt(s.size, s.tail, s.next).Some?
  }

  function Step(s: State, a: Action): State {
    match a
    case Dispatch(d) => if d < |s.dispatchers| then DispatchStep(s, d) else s
    case Schedule(expired) => if s.owner == Running then RoutineStep(s) else ProcessorStep(s, expired)
    case Suspend(r) =>
      if s.owner == Running && s.point == Callback then s.(rstate := r, owner := Releasing) else s
    case CallbackYield => if s.owner == Running && s.point == Callback then s.(owner := Releasing) else s
  }

  function DispatchStep(s: State, d: nat): State
    requires d < |s.dispatchers|
  {
    match s.dispatchers[d]
    case Quiet => s.(tail := s.tail + 1, dispatchers := s.dispatchers[d := TestDataWait])
    case TestDataWait =>
      s.(dispatchers := s.dispatchers[d := if s.rstate == DATA_WAIT then SetFlag else TestIoWait])
    case TestIoWait =>
      s.(dispatchers := s.dispatchers[d := if s.rstate == IO_WAIT then SetFlag else Quiet])
    case SetFlag => s.(flag := true, dispatchers := s.dispatchers[d := Quiet])
  }

  function ProcessorStep(s: State, expired: bool): State {
    match s.owner
    case Free => s.(owner := CheckSleep)
    case CheckSleep =>
      if s.rstate == SLEEP && expired then s.(rstate := READY, owner := Decide) else s.(owner := TestFlag)
    case TestFlag => if s.flag then s.(flag := false, owner := Promote) else s.(owner := Decide)
    case Promote =>
      s.(rstate := if s.rstate == DATA_WAIT || s.rstate == IO_WAIT then READY else s.rstate, owner := Decide)
    case Decide => s.(owner := if s.rstate == READY then Running else Releasing)
    case Running => s
    case Releasing => s.(owner := Free)
  }

  function RoutineStep(s: State): State {
    match s.point
    case LoopTop => s.(rstate := DATA_WAIT, point := Fetch)
    case Fetch =>
      var at := FetchAt(s.size, s.tail, s.next);
      if at.Some? then s.(next := at.value + 1, point := Callback) else s.(point := AfterMiss)
    case Callback => s.(point := AfterCallback)
    case AfterCallback => s.(rstate := READY, point := LoopTop, owner := Releasing)
    case AfterMiss => s.(point := LoopTop, owner := Releasing)
  }

  ghost function Exec(s: State, actions: seq<Action>): State
    decreases |actions|
  {
    if actions == [] then s else Step(Exec(s, actions[..|actions| - 1]), actions[|actions| - 1])
  }

  // ---------------------------------------------------------------- invariant

  /** The routine waits for data: its last fetch missed and it has not been made READY since. */
  predicate Waiting(s: State) {
    s.rstate == DATA_WAIT && (s.point == AfterMiss || (s.point == LoopTop && s.owner != Running))
  }

  ghost predicate Notifying(s: State) {
    exists d | 0 <= d < |s.dispatchers| :: s.dispatchers[d] == TestDataWait || s.dispatchers[d] == SetFlag
  }

  ghost predicate Inv(s: State) {
    // the lost-wakeup clause
    && (Waiting(s) && Unfetched(s) ==> s.flag || Notifying(s) || s.owner == Promote)
    // what the program points say about the state
    && (s.owner == Running && (s.point == Fetch || s.point == AfterMiss) ==> s.rstate == DATA_WAIT)
    && (s.owner == Running && s.point == LoopTop ==> s.rstate == READY)
    && (s.owner != Running ==> s.point == LoopTop || s.point == Callback)
    && (s.point == LoopTop ==> s.rstate == READY || s.rstate == DATA_WAIT)
  }

  lemma DispatchInv(s: State, d: nat)
    requires Inv(s) && d < |s.dispatchers|
    ensures Inv(DispatchStep(s, d))
  {
    var s' := DispatchStep(s, d);
    assert s'.dispatchers[d] == TestDataWait || s'.dispatchers[d] == SetFlag ==> Notifying(s');
    if Notifying(s) {
      var e :| 0 <= e < |s.dispatchers| && (s.dispatchers[e] == TestDataWait || s.dispatchers[e] == SetFlag);
      assert e != d ==> s'.dispatchers[e] == s.dispatchers[e];
    }
  }

  lemma StepInv(s: State, a: Action)
    requires Inv(s)
    ensures Inv(Step(s, a))
  {
    hide FetchAt, Notifying;
    if a.Dispatch? && a.d < |s.dispatchers| {
      DispatchInv(s, a.d);
    } else {
      SameNotifying(s, Step(s, a));
    }
  }

  lemma SameNotifying(s: State, s': State)
    requires s'.dispatchers == s.dispatchers
    ensures Notifying(s') == Notifying(s)
  {
  }

  lemma {:induction false} ExecInv(s: State, actions: seq<Action>)
    requires Inv(s)
    ensures Inv(Exec(s, actions))
    decreases |actions|
  {
    if actions != [] {
      ExecInv(s, actions[..|actions| - 1]);
      StepInv(Exec(s, actions[..|actions| - 1]), actions[|actions| - 1]);
    }
  }

  // ---------------------------------------------------------- main theorems

  /** No lost wakeup: in every run, whenever the routine waits for data and its visitor has an
      unfetched message, a notification is pending, or a dispatcher that has filled is on its way
      to set it, except while a processor has just consumed one and is about to make the routine READY. */
  lemma NoLostWakeup(size: nat, dispatchers: nat, actions: seq<Action>)
    ensures var s := Exec(Init(size, dispatchers), actions);
            Waiting(s) && Unfetched(s) && s.owner != Promote ==> s.flag || Notifying(s)
  {
    ExecInv(Init(size, dispatchers), actions);
  }

  ghost predicate Reachable(s0: State, s: State) {
    exists actions :: Exec(s0, actions) == s
  }

  lemma ReachableStart(s: State)
    ensures Reachable(s, s)
  {
    assert Exec(s, []) == s;
  }

  lemma ReachableStep(s0: State, s: State, a: Action) returns (s': State)
    requires Reachable(s0, s)
    ensures s' == Step(s, a) && Reachable(s0, s')
  {
    var actions :| Exec(s0, actions) == s;
    s' := Step(s, a);
    assert (actions + [a])[..|actions|] == actions;
    assert Exec(s0, actions + [a]) == s';
  }

  /** One message goes through a dispatcher while the routine is READY: nobody sets the flag. */
  lemma DispatchWhileReady(s0: State, s: State) returns (s': State)
    requires Reachable(s0, s) && s.rstate == READY && s.dispatchers == [Quiet]
    ensures Reachable(s0, s') && s' == s.(tail := s.tail + 1)
  {
    hide Reachable;
    s' := ReachableStep(s0, s, Dispatch(0));
    s' := ReachableStep(s0, s', Dispatch(0));
    s' := ReachableStep(s0, s', Dispatch(0));
  }

  /** A processor picks up a READY routine at the top of its loop and runs it up to its fetch. */
  lemma ResumeToFetch(s0: State, s: State) returns (s': State)
    requires Reachable(s0, s) && s.rstate == READY && s.owner == Free && s.point == LoopTop && !s.flag
    ensures Reachable(s0, s') && s' == s.(rstate := DATA_WAIT, owner := Running, point := Fetch)
  {
    hide Reachable;
    s' := ReachableStep(s0, s, Schedule(false));
    s' := ReachableStep(s0, s', Schedule(false));
    s' := ReachableStep(s0, s', Schedule(false));
    s' := ReachableStep(s0, s', Schedule(false));
    s' := ReachableStep(s0, s', Schedule(false));
  }

  /** One while it waits in DATA_WAIT: the flag is set. */
  lemma DispatchWhileWaiting(s0: State, s: State) returns (s': State)
    requires Reachable(s0, s) && s.rstate == DATA_WAIT && s.dispatchers == [Quiet]
    ensures Reachable(s0, s') && s' == s.(tail := s.tail + 1, flag := true)
  {
    hide Reachable;
    s' := ReachableStep(s0, s, Dispatch(0));
    s' := ReachableStep(s0, s', Dispatch(0));
    s' := ReachableStep(s0, s', Dispatch(0));
  }

  /** A fetch that misses parks the routine. */
  lemma MissAndPark(s0: State, s: State) returns (s': State)
    requires Reachable(s0, s) && s.owner == Running && s.point == Fetch && !Unfetched(s)
    ensures Reachable(s0, s') && s' == s.(owner := Free, point := LoopTop)
  {
    hide Reachable;
    s' := ReachableStep(s0, s, Schedule(false));
    s' := ReachableStep(s0, s', Schedule(false));
    s' := ReachableStep(s0, s', Schedule(false));
  }

  /** A fetch that finds a message: its callback runs to the end and the routine yields READY. */
  lemma FetchAndFinish(s0: State, s: State) returns (s': State)
    requires Reachable(s0, s) && s.owner == Running && s.point == Fetch && Unfetched(s)
    ensures Reachable(s0, s')
    ensures s' == s.(next := FetchAt(s.size, s.tail, s.next).value + 1, rstate := READY, owner := Free, point := LoopTop)
  {
    hide Reachable, FetchAt;
    s' := ReachableStep(s0, s, Schedule(false));
    s' := ReachableStep(s0, s', Schedule(false));
    s' := ReachableStep(s0, s', Schedule(false));
    s' := ReachableStep(s0, s', Schedule(false));
  }

  /** The same, but the callback yields. */
  lemma FetchAndYield(s0: State, s: State) returns (s': State)
    requires Reachable(s0, s) && s.owner == Running && s.point == Fetch && Unfetched(s)
    ensures Reachable(s0, s')
    ensures s' == s.(next := FetchAt(s.size, s.tail, s.next).value + 1, owner := Free, point := Callback)
  {
    hide Reachable, FetchAt;
    s' := ReachableStep(s0, s, Schedule(false));
    s' := ReachableStep(s0, s', CallbackYield);
    s' := ReachableStep(s0, s', Schedule(false));
  }

  /** The exception is real: a routine that waits with an unfetched message, while no notification is
      pending and no dispatcher is notifying, because a processor has just consumed the flag. */
  lemma FlagConsumedBeforeReady() returns (s: State)
    ensures Reachable(Init(1, 1), s) && Waiting(s) && Unfetched(s)
    ensures !s.flag && !Notifying(s) && s.owner == Promote
  {
    var s0 := Init(1, 1);
    assert s0.dispatchers == [Quiet];
    hide Reachable;
    ReachableStart(s0);
    s := ResumeToFetch(s0, s0);
    s := MissAndPark(s0, s);
    s := DispatchWhileWaiting(s0, s);
    s := ReachableStep(s0, s, Schedule(false));
    s := ReachableStep(s0, s, Schedule(false));
    s := ReachableStep(s0, s, Schedule(false));
  }

  // ------------------------------------------------- a callback that yields

  /** Off its processor in DATA_WAIT with no notification pending. */
  predicate Unnotified(s: State) {
    s.rstate == DATA_WAIT && !s.flag && s.owner != Running && s.owner != Promote
  }

  /** The wakeup is guaranteed after a failed fetch only: a callback that yields leaves DATA_WAIT in place, and
      the routine can be parked in it with an unfetched message and nobody to notify it. */
  lemma CallbackYieldLosesWakeup() returns (s: State)
    ensures Reachable(Init(2, 1), s) && Unnotified(s) && s.owner == Free && s.point == Callback
    ensures Unfetched(s) && s.dispatchers == [Quiet]
  {
    var s0 := Init(2, 1);
    assert s0.dispatchers == [Quiet];
    hide Reachable;
    ReachableStart(s0);
    s := DispatchWhileReady(s0, s0);
    s := ResumeToFetch(s0, s);
    s := FetchAndFinish(s0, s);
    s := DispatchWhileReady(s0, s);
    s := DispatchWhileReady(s0, s);
    s := ResumeToFetch(s0, s);
    s := FetchAndYield(s0, s);
    assert s == s0.(tail := 3, next := 3, rstate := DATA_WAIT, point := Callback);
  }

  lemma {:induction false} TailGrows(s: State, actions: seq<Action>)
    ensures s.tail <= Exec(s, actions).tail
    decreases |actions|
  {
    if actions != [] { TailGrows(s, actions[..|actions| - 1]); }
  }

  /** Until another message is filled, whatever dispatchers that have already filled and processors do, such a
      routine is not resumed. */
  lemma {:induction false} StuckUntilFill(s: State, actions: seq<Action>)
    requires Unnotified(s) && !Notifying(s) && Exec(s, actions).tail == s.tail
    ensures Unnotified(Exec(s, actions)) && !Notifying(Exec(s, actions))
    ensures Exec(s, actions).next == s.next && Exec(s, actions).point == s.point
    decreases |actions|
  {
    if actions != [] {
      var front, a := actions[..|actions| - 1], actions[|actions| - 1];
      TailGrows(s, front);
      StuckUntilFill(s, front);
      StuckStep(Exec(s, front), a);
    }
  }

  lemma StuckStep(s: State, a: Action)
    requires Unnotified(s) && !Notifying(s) && Step(s, a).tail == s.tail
    ensures Unnotified(Step(s, a)) && !Notifying(Step(s, a)) && Step(s, a).next == s.next && Step(s, a).point == s.point
  {
    var s' := Step(s, a);
    forall d | 0 <= d < |s'.dispatchers|
      ensures s'.dispatchers[d] != TestDataWait && s'.dispatchers[d] != SetFlag
    {
      assert s.dispatchers[d] != TestDataWait && s.dispatchers[d] != SetFlag;
    }
  }

  /** From s, some run that fills no further message resumes the routine. */
  ghost predicate ResumedWithoutFill(s: State) {
    exists r :: Reachable(s, r) && r.tail == s.tail && r.owner == Running
  }

  lemma NotifiedIsResumed(s0: State, s: State)
    requires Reachable(s0, s) && s.rstate == DATA_WAIT && s.owner == Free && s.flag && s.tail == s0.tail
    ensures ResumedWithoutFill(s0)
  {
    hide Reachable;
    var r := ReachableStep(s0, s, Schedule(false));
    r := ReachableStep(s0, r, Schedule(false));
    r := ReachableStep(s0, r, Schedule(false));
    r := ReachableStep(s0, r, Schedule(false));
    r := ReachableStep(s0, r, Schedule(false));
  }

  /** A notifying dispatcher finishes. */
  lemma NotifierSetsFlag(s: State) returns (r: State)
    requires s.rstate == DATA_WAIT && s.owner == Free && Notifying(s)
    ensures Reachable(s, r) && r.rstate == DATA_WAIT && r.owner == Free && r.flag && r.tail == s.tail
  {
    var d :| 0 <= d < |s.dispatchers| && (s.dispatchers[d] == TestDataWait || s.dispatchers[d] == SetFlag);
    hide Reachable;
    ReachableStart(s);
    r := ReachableStep(s, s, Dispatch(d));
    if s.dispatchers[d] == TestDataWait {
      r := ReachableStep(s, r, Dispatch(d));
    }
  }

  /** Without a further message, a routine parked in DATA_WAIT is resumed if and only if a notification is pending or
      a dispatcher that has already filled is on its way to set one, wherever in its loop it parked. */
  lemma ResumedExactlyWhenNotified(s: State)
    requires s.rstate == DATA_WAIT && s.owner == Free
    ensures ResumedWithoutFill(s) <==> s.flag || Notifying(s)
  {
    if s.flag {
      ReachableStart(s);
      NotifiedIsResumed(s, s);
    } else if Notifying(s) {
      var r := NotifierSetsFlag(s);
      NotifiedIsResumed(s, r);
    } else {
      forall actions | Exec(s, actions).tail == s.tail
        ensures Exec(s, actions).owner != Running
      {
        StuckUntilFill(s, actions);
      }
    }
  }

  ghost function Scheduled(s: State, n: nat): State {
    if n == 0 then s else Step(Scheduled(s, n - 1), Schedule(false))
  }

  /** With the dispatchers quiet and the routine parked in DATA_WAIT on an unfetched message, the next
      processor that looks at it makes it READY, resumes it, and it fetches a message. */
  lemma ParkedRoutineFetches(size: nat, dispatchers: nat, actions: seq<Action>)
    requires var s := Exec(Init(size, dispatchers), actions);
             && s.owner == Free && s.rstate == DATA_WAIT && s.point == LoopTop && Unfetched(s)
             && forall d | 0 <= d < |s.dispatchers| :: s.dispatchers[d] == Quiet
    ensures var s := Exec(Init(size, dispatchers), actions);
            var r := Scheduled(s, 7);
            && r.owner == Running && r.point == Callback && r.next == FetchAt(s.size, s.tail, s.next).value + 1
  {
    hide FetchAt;
    NoLostWakeup(size, dispatchers, actions);
    var s := Exec(Init(size, dispatchers), actions);
    assert s.flag;
    assert Scheduled(s, 1) == s.(owner := CheckSleep) by { assert Scheduled(s, 0) == s; }
    assert Scheduled(s, 2) == s.(owner := TestFlag);
    assert Scheduled(s, 3) == s.(owner := Promote, flag := false);
    assert Scheduled(s, 4) == s.(owner := Decide, flag := false, rstate := READY);
    assert Scheduled(s, 5) == s.(owner := Running, flag := false, rstate := READY);
    assert Scheduled(s, 6) == s.(owner := Running, flag := false, rstate := DATA_WAIT, point := Fetch);
  }

  // ------------------------------------------------- callbacks that suspend

  /** A callback that suspends leaves its processor in exactly the state it asked for, still inside its callback. */
  lemma SuspendParks(s0: State, s: State, r: RoutineState) returns (s': State)
    requires Reachable(s0, s) && s.owner == Running && s.point == Callback
    ensures Reachable(s0, s') && s' == s.(rstate := r, owner := Free)
  {
    hide Reachable;
    s' := ReachableStep(s0, s, Suspend(r));
    s' := ReachableStep(s0, s', Schedule(false));
  }

  /** A sleeper is woken by its time alone: the next processor that looks at it resumes it where it stopped if its time
      is up, and otherwise leaves it asleep. */
  lemma SleeperResumedExactly(s: State, expired: bool)
    requires s.rstate == SLEEP && s.owner == Free
    ensures var seen := Step(Step(s, Schedule(expired)), Schedule(expired));
      if expired then Step(seen, Schedule(expired)) == s.(rstate := READY, owner := Running)
      else seen.rstate == SLEEP && seen.owner == TestFlag
  {
  }

  /** Without its time being up nothing resumes a sleeper: neither messages nor notifications. */
  lemma {:induction false} SleeperSleeps(s: State, actions: seq<Action>)
    requires s.rstate == SLEEP && s.owner != Running
    requires forall i | 0 <= i < |actions| :: actions[i] != Schedule(true)
    ensures var r := Exec(s, actions); r.rstate == SLEEP && r.owner != Running && r.point == s.point && r.next == s.next
    decreases |actions|
  {
    if actions != [] { SleeperSleeps(s, actions[..|actions| - 1]); }
  }

  /** A routine that waits for I/O is notified by a message too: once a quiet dispatcher has dispatched one, the next
      processor resumes it where it stopped. */
  lemma DispatchResumesIoWait(s: State, d: nat) returns (r: State)
    requires s.rstate == IO_WAIT && s.owner == Free && d < |s.dispatchers| && s.dispatchers[d] == Quiet && !s.flag
    ensures Reachable(s, r) && r == s.(tail := s.tail + 1, rstate := READY, owner := Running)
  {
    hide Reachable;
    ReachableStart(s);
    r := ReachableStep(s, s, Dispatch(d));
    r := ReachableStep(s, r, Dispatch(d));
    r := ReachableStep(s, r, Dispatch(d));
    r := ReachableStep(s, r, Dispatch(d));
    assert r == s.(tail := s.tail + 1, flag := true);
    r := ResumeNotified(s, r);
  }

  lemma ResumeNotified(s0: State, s: State) returns (r: State)
    requires Reachable(s0, s) && (s.rstate == IO_WAIT || s.rstate == DATA_WAIT) && s.owner == Free && s.flag
    ensures Reachable(s0, r) && r == s.(flag := false, rstate := READY, owner := Running)
  {
    hide Reachable;
    r := ReachableStep(s0, s, Schedule(false));
    r := ReachableStep(s0, r, Schedule(false));
    r := ReachableStep(s0, r, Schedule(false));
    r := ReachableStep(s0, r, Schedule(false));
    r := ReachableStep(s0, r, Schedule(false));
  }

  /** Some dispatcher has filled and not yet finished its notification. */
  ghost predicate Dispatching(s: State) {
    exists d | 0 <= d < |s.dispatchers| :: s.dispatchers[d] != Quiet
  }

  lemma {:induction false} IoWaiterStuck(s: State, actions: seq<Action>)
    requires s.rstate == IO_WAIT && !s.flag && s.owner != Running && s.owner != Promote && !Dispatching(s)
    requires Exec(s, actions).tail == s.tail
    ensures var r := Exec(s, actions);
      r.rstate == IO_WAIT && !r.flag && r.owner != Running && r.owner != Promote && !Dispatching(r)
    decreases |actions|
  {
    if actions != [] {
      var front, a := actions[..|actions| - 1], actions[|actions| - 1];
      TailGrows(s, front);
      TailGrowsStep(Exec(s, front), a);
      IoWaiterStuck(s, front);
    }
  }

  lemma TailGrowsStep(s: State, a: Action)
    ensures s.tail <= Step(s, a).tail
  {
  }

  lemma DispatchFinishes(s: State) returns (r: State)
    requires s.rstate == IO_WAIT && s.owner == Free && Dispatching(s)
    ensures Reachable(s, r) && r.rstate == IO_WAIT && r.owner == Free && r.flag && r.tail == s.tail
  {
    var d :| 0 <= d < |s.dispatchers| && s.dispatchers[d] != Quiet;
    hide Reachable;
    ReachableStart(s);
    r := ReachableStep(s, s, Dispatch(d));
    if s.dispatchers[d] != SetFlag { r := ReachableStep(s, r, Dispatch(d)); }
    if s.dispatchers[d] == TestDataWait { r := ReachableStep(s, r, Dispatch(d)); }
  }

  /** Without a further message, a routine that waits for I/O is resumed if and only if a notification is pending or
      some dispatcher has yet to finish. */
  lemma IoWaiterResumedExactly(s: State)
    requires s.rstate == IO_WAIT && s.owner == Free
    ensures ResumedWithoutFill(s) <==> s.flag || Dispatching(s)
  {
    if s.flag || Dispatching(s) {
      ReachableStart(s);
      var n := s;
      if !s.flag { n := DispatchFinishes(s); }
      var r := ResumeNotified(s, n);
    } else {
      forall actions | Exec(s, actions).tail == s.tail
        ensures Exec(s, actions).owner != Running
      {
        IoWaiterStuck(s, actions);
      }
    }
  }
}

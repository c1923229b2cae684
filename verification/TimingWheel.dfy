/**
 Two-level timing wheel (cyber/timer/timing_wheel.h, cyber/timer/timing_wheel.cc) over
 the tasks of cyber/timer/timer_task.h, and the multiset of deadlines it stands for.
 */
module TimingWheel {
  import Arith

  const WORK_WHEEL_SIZE := 512
  const ASSISTANT_WHEEL_SIZE := 64
  const TIMER_RESOLUTION_MS := 2
  const TIMER_MAX_INTERVAL_MS := WORK_WHEEL_SIZE * ASSISTANT_WHEEL_SIZE * TIMER_RESOLUTION_MS

  class TimerTask {
    var intervalMs: nat
    var remainderIntervalMs: nat
    var nextFireDurationMs: nat
    var accumulatedErrorNs: int
    var lastExecuteTimeNs: nat

    constructor (intervalMs: nat)
      ensures this.intervalMs == nextFireDurationMs == intervalMs
      ensures remainderIntervalMs == accumulatedErrorNs == lastExecuteTimeNs == 0
    {
      this.intervalMs, nextFireDurationMs := intervalMs, intervalMs;
      remainderIntervalMs, accumulatedErrorNs, lastExecuteTimeNs := 0, 0, 0;
    }
  }

  function GetWorkWheelIndex(index: nat): (r: nat)
    ensures r == index % WORK_WHEEL_SIZE
  {
    assert Arith.Pow2(9) == WORK_WHEEL_SIZE;
    Arith.MaskIsMod(index, 9);
    Arith.BitAnd(index, WORK_WHEEL_SIZE - 1)
  }

  function GetAssistantWheelIndex(index: nat): (r: nat)
    ensures r == index % ASSISTANT_WHEEL_SIZE
  {
    assert Arith.Pow2(6) == ASSISTANT_WHEEL_SIZE;
    Arith.MaskIsMod(index, 6);
    Arith.BitAnd(index, ASSISTANT_WHEEL_SIZE - 1)
  }

  /** Ticks covering a duration: the duration over the resolution, rounded up. */
  function Ticks(durationMs: nat): nat {
    (durationMs + TIMER_RESOLUTION_MS - 1) / TIMER_RESOLUTION_MS
  }

  // ------------------------------------------------- the plain deadline table

  /** now counts index advances; ticked says the slot of this index was already fired;
      pending maps each armed, live task to the absolute tick it fires at. */
  datatype Table<Id> = Table(now: nat, ticked: bool, pending: map<Id, nat>)

  /** Wraps of the work wheel until the assistant slot that many steps ahead is cascaded. */
  function Laps(ticks: nat): (r: nat)
    ensures ticks > 0 ==> 1 <= r <= ASSISTANT_WHEEL_SIZE
  {
    if ticks % ASSISTANT_WHEEL_SIZE == 0 then ASSISTANT_WHEEL_SIZE else ticks % ASSISTANT_WHEEL_SIZE
  }

  /** The tick at which a task armed now for k ticks fires. */
  function Due(now: nat, ticked: bool, k: nat): nat {
    var w := now % WORK_WHEEL_SIZE;
    var ticks := (w + k) / WORK_WHEEL_SIZE;
    if w + k < WORK_WHEEL_SIZE then
      if k == 0 && ticked then now + WORK_WHEEL_SIZE else now + k
    else if ticks == 1 && (w + k) % WORK_WHEEL_SIZE < w then now + k
    else
      now - w + WORK_WHEEL_SIZE * Laps(ticks) + (w + k) % WORK_WHEEL_SIZE
  }

  /** Arming is exact precisely up to the reach of the two wheels. */
  lemma DueExactlyInRange(now: nat, ticked: bool, k: nat)
    ensures Due(now, ticked, k) == now + k
            <==> (k >= 1 || !ticked) && now % WORK_WHEEL_SIZE + k < (ASSISTANT_WHEEL_SIZE + 1) * WORK_WHEEL_SIZE
  {
  }

  /** Every period the timer accepts is within reach at any moment, for a fresh task. */
  lemma AcceptedPeriodInRange(now: nat, ticked: bool, periodMs: nat)
    requires 0 < periodMs < TIMER_MAX_INTERVAL_MS
    ensures Due(now, ticked, Ticks(periodMs)) == now + Ticks(periodMs)
  {
    DueExactlyInRange(now, ticked, Ticks(periodMs));
  }

  datatype Event<Id> = Add(task: Id, ticks: nat) | Tick | Advance | Expire(task: Id)

  /** What the wheel promises its callers: a task is armed only while it is not already armed,
      and Tick and Advance alternate, as in the tick thread's loop. */
  ghost predicate Enabled<Id>(s: Table<Id>, e: Event<Id>) {
    match e
    case Add(t, _) => t !in s.pending
    case Tick => !s.ticked
    case Advance => s.ticked
    case Expire(_) => true
  }

  function Next<Id>(s: Table<Id>, e: Event<Id>): Table<Id> {
    match e
    case Add(t, k) => s.(pending := s.pending[t := Due(s.now, s.ticked, k)])
    case Tick => s.(ticked := true, pending := map t | t in s.pending && s.pending[t] != s.now :: s.pending[t])
    case Advance => s.(now := s.now + 1, ticked := false)
    case Expire(t) => s.(pending := s.pending - {t})
  }

  /** The tasks handed to their callbacks by an event. */
  ghost function Fired<Id>(s: Table<Id>, e: Event<Id>): set<Id> {
    if e.Tick? then set t | t in s.pending && s.pending[t] == s.now else {}
  }

  /** A run: states[i] is the table before events[i]. */
  ghost predicate IsRun<Id>(states: seq<Table<Id>>, events: seq<Event<Id>>) {
    && |states| == |events| + 1
    && (forall i | 0 <= i < |events| :: Enabled(states[i], events[i]) && states[i + 1] == Next(states[i], events[i]))
  }

  /** Deadlines never lie in the past. */
  ghost predicate Timely<Id>(s: Table<Id>) {
    forall t | t in s.pending :: if s.ticked then s.now < s.pending[t] else s.now <= s.pending[t]
  }

  lemma {:induction false} RunTimely<Id>(states: seq<Table<Id>>, events: seq<Event<Id>>, j: nat)
    requires IsRun(states, events) && j <= |events| && Timely(states[0])
    ensures Timely(states[j])
  {
    if j > 0 {
      RunTimely(states, events, j - 1);
      if events[j - 1].Add? {
        DueNotPast(states[j - 1].now, states[j - 1].ticked, events[j - 1].ticks);
      }
    }
  }

  lemma DueNotPast(now: nat, ticked: bool, k: nat)
    ensures if ticked then now < Due(now, ticked, k) else now <= Due(now, ticked, k)
  {
  }

  /** Between arming at step i and step j, with no expiry and no re-arming in between: either the
      task is still pending for its deadline and has not fired, or it has fired exactly once, at
      the step that ticked its deadline. */
  ghost predicate PendingOrFiredOnce<Id>(
    states: seq<Table<Id>>, events: seq<Event<Id>>, t: Id, i: nat, j: nat, due: nat)
    requires IsRun(states, events) && i < j <= |events|
  {
    if t in states[j].pending then
      && states[j].pending[t] == due
      && (forall m | i < m < j :: t !in Fired(states[m], events[m]))
    else
      exists m ::
        && i < m < j
        && t in Fired(states[m], events[m]) && states[m].now == due
        && (forall m' | i < m' < j && t in Fired(states[m'], events[m']) :: m' == m)
  }

  lemma {:induction false} ArmedTaskHistory<Id>(
    states: seq<Table<Id>>, events: seq<Event<Id>>, t: Id, i: nat, j: nat)
    requires IsRun(states, events) && i < j <= |events|
    requires events[i].Add? && events[i].task == t
    requires forall m | i < m < j :: events[m] != Expire(t) && !(events[m].Add? && events[m].task == t)
    ensures PendingOrFiredOnce(states, events, t, i, j, Due(states[i].now, states[i].ticked, events[i].ticks))
    decreases j
  {
    if j > i + 1 {
      var due := Due(states[i].now, states[i].ticked, events[i].ticks);
      ArmedTaskHistory(states, events, t, i, j - 1);
      assert states[j] == Next(states[j - 1], events[j - 1]);
      if t in states[j - 1].pending && t !in states[j].pending {
        assert t in Fired(states[j - 1], events[j - 1]);
      } else if t !in states[j].pending {
        var m :| i < m < j - 1 && t in Fired(states[m], events[m]) && states[m].now == due
          && forall m' | i < m' < j - 1 && t in Fired(states[m'], events[m']) :: m' == m;
        assert t !in Fired(states[j - 1], events[j - 1]);
      }
    }
  }

  /** Exactly once, exactly on time: a task armed in range at tick T for k ticks, neither expired
      nor re-armed since, has fired by the time the table is past T + k -- once, at T + k -- and
      has not fired before. */
  lemma FiresExactlyOnceOnTime<Id>(
    states: seq<Table<Id>>, events: seq<Event<Id>>, t: Id, i: nat, j: nat, k: nat)
    requires IsRun(states, events) && i < j <= |events| && Timely(states[0])
    requires events[i] == Add(t, k) && k >= 1
    requires states[i].now % WORK_WHEEL_SIZE + k < (ASSISTANT_WHEEL_SIZE + 1) * WORK_WHEEL_SIZE
    requires forall m | i < m < j :: events[m] != Expire(t) && !(events[m].Add? && events[m].task == t)
    ensures var due := states[i].now + k;
            var past := states[j].now > due || (states[j].now == due && states[j].ticked);
            if past then
              && t !in states[j].pending
              && (exists m :: i < m < j && t in Fired(states[m], events[m]) && states[m].now == due
                    && (forall m' | i < m' < j && t in Fired(states[m'], events[m']) :: m' == m))
            else
              && t in states[j].pending && states[j].pending[t] == due
              && (forall m | i < m < j :: t !in Fired(states[m], events[m]))
  {
    DueExactlyInRange(states[i].now, states[i].ticked, k);
    ArmedTaskHistory(states, events, t, i, j);
    RunTimely(states, events, j);
    var due := states[i].now + k;
    if t !in states[j].pending {
      var m :| i < m < j && t in Fired(states[m], events[m]) && states[m].now == due
        && forall m' | i < m' < j && t in Fired(states[m'], events[m']) :: m' == m;
      TimeAdvances(states, events, m + 1, j);
    }
  }

  lemma {:induction false} TimeAdvances<Id>(states: seq<Table<Id>>, events: seq<Event<Id>>, i: nat, j: nat)
    requires IsRun(states, events) && i <= j <= |events|
    ensures states[i].now < states[j].now
            || (states[i].now == states[j].now && (states[i].ticked ==> states[j].ticked))
    decreases j
  {
    if i < j {
      TimeAdvances(states, events, i, j - 1);
      assert states[j] == Next(states[j - 1], events[j - 1]);
    }
  }

  // ------------------------------------------------------- slots versus table

  /** Contents of both wheels; remainder is each task's remainder_interval_ms, expired the tasks
      whose weak references no longer lock, parked the pending tasks in the assistant wheel. */
  datatype Slots<Id> = Slots(
    work: seq<seq<Id>>, assistant: seq<seq<Id>>, remainder: map<Id, nat>, expired: set<Id>, parked: set<Id>)

  /** Among the entries that are not expired, none occurs twice. */
  ghost predicate LiveOnce<Id>(s: seq<Id>, expired: set<Id>) {
    forall j, k | 0 <= j < k < |s| && s[j] == s[k] :: s[j] in expired
  }

  /** The first tick that has not been fired. */
  function Unfired<Id>(tab: Table<Id>): nat {
    if tab.ticked then tab.now + 1 else tab.now
  }

  /** A live entry of work slot i is due at that slot's next turn. */
  ghost predicate WorkEntry<Id>(s: Slots<Id>, tab: Table<Id>, t: Id, i: int) {
    t in s.expired ||
    (t in tab.pending && t !in s.parked && tab.pending[t] % WORK_WHEEL_SIZE == i
     && Unfired(tab) <= tab.pending[t] < Unfired(tab) + WORK_WHEEL_SIZE)
  }

  /** A live entry of assistant slot i is due in one of the 64 laps from lap lo on. */
  ghost predicate AssistantEntry<Id>(s: Slots<Id>, tab: Table<Id>, t: Id, i: int, lo: nat) {
    t in s.expired ||
    (t in tab.pending && t in s.parked
     && Lap(tab.pending[t]) % ASSISTANT_WHEEL_SIZE == i
     && lo <= Lap(tab.pending[t]) < lo + ASSISTANT_WHEEL_SIZE
     && t in s.remainder && s.remainder[t] == tab.pending[t] % WORK_WHEEL_SIZE)
  }

  function Lap(tick: nat): nat {
    tick / WORK_WHEEL_SIZE
  }

  ghost predicate Shape<Id>(s: Slots<Id>) {
    |s.work| == WORK_WHEEL_SIZE && |s.assistant| == ASSISTANT_WHEEL_SIZE
  }

  ghost predicate Placed<Id>(s: Slots<Id>, tab: Table<Id>, t: Id)
    requires Shape(s) && t in tab.pending
  {
    && t !in s.expired
    && if t in s.parked then t in s.assistant[Lap(tab.pending[t]) % ASSISTANT_WHEEL_SIZE]
       else t in s.work[tab.pending[t] % WORK_WHEEL_SIZE]
  }

  /** The slots store exactly the table: every entry is justified and every pending task has
      exactly one live entry. */
  ghost predicate Stores<Id>(s: Slots<Id>, tab: Table<Id>, lo: nat) {
    && Shape(s)
    && (forall i, t | 0 <= i < WORK_WHEEL_SIZE && t in s.work[i] :: WorkEntry(s, tab, t, i))
    && (forall i, t | 0 <= i < ASSISTANT_WHEEL_SIZE && t in s.assistant[i] :: AssistantEntry(s, tab, t, i, lo))
    && (forall t | t in tab.pending :: Placed(s, tab, t))
    && (forall i | 0 <= i < WORK_WHEEL_SIZE :: LiveOnce(s.work[i], s.expired))
    && (forall i | 0 <= i < ASSISTANT_WHEEL_SIZE :: LiveOnce(s.assistant[i], s.expired))
  }

  function ToWork<Id>(s: Slots<Id>, i: nat, t: Id): Slots<Id>
    requires i < |s.work|
  {
    s.(work := s.work[i := s.work[i] + [t]], parked := s.parked - {t})
  }

  function ToAssistant<Id>(s: Slots<Id>, i: nat, t: Id): Slots<Id>
    requires i < |s.assistant|
  {
    s.(assistant := s.assistant[i := s.assistant[i] + [t]], parked := s.parked + {t})
  }

  /** Arming into the work wheel. */
  lemma AddToWork<Id>(s: Slots<Id>, tab: Table<Id>, lo: nat, t: Id, r: nat, due: nat)
    requires Stores(s, tab, lo) && t !in s.expired && t !in tab.pending
    requires Unfired(tab) <= due < Unfired(tab) + WORK_WHEEL_SIZE
    ensures Stores(ToWork(s.(remainder := s.remainder[t := r]), due % WORK_WHEEL_SIZE, t),
                   tab.(pending := tab.pending[t := due]), lo)
  {
    var s' := ToWork(s.(remainder := s.remainder[t := r]), due % WORK_WHEEL_SIZE, t);
    var tab' := tab.(pending := tab.pending[t := due]);
    forall i, u | 0 <= i < WORK_WHEEL_SIZE && u in s'.work[i]
      ensures WorkEntry(s', tab', u, i)
    {
      if u in s.work[i] { assert WorkEntry(s, tab, u, i); }
    }
    forall i, u | 0 <= i < ASSISTANT_WHEEL_SIZE && u in s'.assistant[i]
      ensures AssistantEntry(s', tab', u, i, lo)
    {
      assert AssistantEntry(s, tab, u, i, lo);
    }
    forall u | u in tab'.pending
      ensures Placed(s', tab', u)
    {
      if u != t { assert Placed(s, tab, u); }
    }
    FreshEntry(s.work[due % WORK_WHEEL_SIZE], t, s.expired);
  }

  lemma FreshEntry<Id>(q: seq<Id>, t: Id, expired: set<Id>)
    requires LiveOnce(q, expired) && t !in q
    ensures LiveOnce(q + [t], expired)
  {
  }

  /** Arming into the assistant wheel. */
  lemma AddToAssistant<Id>(s: Slots<Id>, tab: Table<Id>, lo: nat, t: Id, due: nat)
    requires Stores(s, tab, lo) && t !in s.expired && t !in tab.pending
    requires lo <= Lap(due) < lo + ASSISTANT_WHEEL_SIZE
    ensures Stores(ToAssistant(s.(remainder := s.remainder[t := due % WORK_WHEEL_SIZE]), Lap(due) % ASSISTANT_WHEEL_SIZE, t),
                   tab.(pending := tab.pending[t := due]), lo)
  {
    var k := Lap(due) % ASSISTANT_WHEEL_SIZE;
    var s' := ToAssistant(s.(remainder := s.remainder[t := due % WORK_WHEEL_SIZE]), k, t);
    var tab' := tab.(pending := tab.pending[t := due]);
    forall i, u | 0 <= i < WORK_WHEEL_SIZE && u in s'.work[i]
      ensures WorkEntry(s', tab', u, i)
    {
      assert WorkEntry(s, tab, u, i);
    }
    forall i, u | 0 <= i < ASSISTANT_WHEEL_SIZE && u in s'.assistant[i]
      ensures AssistantEntry(s', tab', u, i, lo)
    {
      if u in s.assistant[i] { assert AssistantEntry(s, tab, u, i, lo); }
    }
    forall u | u in tab'.pending
      ensures Placed(s', tab', u)
    {
      if u != t { assert Placed(s, tab, u); }
    }
    FreshEntry(s.assistant[k], t, s.expired);
  }

  /** Arming a task that is still pending leaves two live entries of it, which no single deadline explains: the
      wheels then stand for no table, wherever the second entry goes. */
  lemma ArmedTwiceIsNoTable<Id>(s: Slots<Id>, tab: Table<Id>, lo: nat, t: Id, remainder: map<Id, nat>, due: nat, i: nat)
    requires Stores(s, tab, lo) && t in tab.pending
    ensures i < WORK_WHEEL_SIZE ==>
      !Stores(ToWork(s.(remainder := remainder), i, t), tab.(pending := tab.pending[t := due]), lo)
    ensures i < ASSISTANT_WHEEL_SIZE ==>
      !Stores(ToAssistant(s.(remainder := remainder), i, t), tab.(pending := tab.pending[t := due]), lo)
  {
    assert Placed(s, tab, t);
    var tab' := tab.(pending := tab.pending[t := due]);
    if i < WORK_WHEEL_SIZE { SecondInWork(s, tab, lo, t, remainder, tab', i); }
    if i < ASSISTANT_WHEEL_SIZE { SecondInAssistant(s, tab, lo, t, remainder, tab', i); }
  }

  lemma TwiceInSlot<Id>(q: seq<Id>, t: Id, expired: set<Id>)
    requires t in q && t !in expired
    ensures !LiveOnce(q + [t], expired)
  {
    var j :| 0 <= j < |q| && q[j] == t;
    assert (q + [t])[j] == (q + [t])[|q|];
  }

  lemma SecondInWork<Id>(s: Slots<Id>, tab: Table<Id>, lo: nat, t: Id, remainder: map<Id, nat>, tab': Table<Id>, i: nat)
    requires Stores(s, tab, lo) && t in tab.pending && i < WORK_WHEEL_SIZE && Placed(s, tab, t)
    ensures !Stores(ToWork(s.(remainder := remainder), i, t), tab', lo)
  {
    var s' := ToWork(s.(remainder := remainder), i, t);
    if t in s.parked {
      assert !AssistantEntry(s', tab', t, Lap(tab.pending[t]) % ASSISTANT_WHEEL_SIZE, lo);
    } else {
      var j := tab.pending[t] % WORK_WHEEL_SIZE;
      assert t in s'.work[j] && t in s'.work[i];
      if j == i {
        TwiceInSlot(s.work[i], t, s.expired);
        assert !LiveOnce(s'.work[i], s'.expired);
      } else {
        assert !(WorkEntry(s', tab', t, i) && WorkEntry(s', tab', t, j));
      }
    }
  }

  lemma SecondInAssistant<Id>(s: Slots<Id>, tab: Table<Id>, lo: nat, t: Id, remainder: map<Id, nat>, tab': Table<Id>, i: nat)
    requires Stores(s, tab, lo) && t in tab.pending && i < ASSISTANT_WHEEL_SIZE && Placed(s, tab, t)
    ensures !Stores(ToAssistant(s.(remainder := remainder), i, t), tab', lo)
  {
    var s' := ToAssistant(s.(remainder := remainder), i, t);
    if t !in s.parked {
      assert !WorkEntry(s', tab', t, tab.pending[t] % WORK_WHEEL_SIZE);
    } else {
      var j := Lap(tab.pending[t]) % ASSISTANT_WHEEL_SIZE;
      assert t in s'.assistant[j] && t in s'.assistant[i];
      if j == i {
        TwiceInSlot(s.assistant[i], t, s.expired);
        assert !LiveOnce(s'.assistant[i], s'.expired);
      } else {
        assert !(AssistantEntry(s', tab', t, i, lo) && AssistantEntry(s', tab', t, j, lo));
      }
    }
  }

  /** A live entry of the current slot is due now, and every task due now is in it. */
  lemma CurrentSlotIsDue<Id>(s: Slots<Id>, tab: Table<Id>, t: Id)
    requires Stores(s, tab, Lap(tab.now) + 1) && !tab.ticked
    ensures t in s.work[tab.now % WORK_WHEEL_SIZE] && t !in s.expired <==> t in tab.pending && tab.pending[t] == tab.now
  {
    var i := tab.now % WORK_WHEEL_SIZE;
    if t in s.work[i] && t !in s.expired {
      assert WorkEntry(s, tab, t, i);
    }
    if t in tab.pending && tab.pending[t] == tab.now {
      assert Placed(s, tab, t);
      if t in s.parked { assert false; }
    }
  }

  lemma NextTurn(now: nat, due: nat)
    ensures now <= due < now + WORK_WHEEL_SIZE && due % WORK_WHEEL_SIZE == now % WORK_WHEEL_SIZE ==> due == now
  {
    if now <= due < now + WORK_WHEEL_SIZE && due % WORK_WHEEL_SIZE == now % WORK_WHEEL_SIZE {
      Arith.ModInjective(now, due, WORK_WHEEL_SIZE);
    }
  }

  /** Emptying the current slot is firing what is due. */
  lemma TickStores<Id>(s: Slots<Id>, tab: Table<Id>, remainder: map<Id, nat>)
    requires Stores(s, tab, Lap(tab.now) + 1) && !tab.ticked
    requires forall t | t in s.remainder && t in Next(tab, Event.Tick).pending :: t in remainder && remainder[t] == s.remainder[t]
    ensures Stores(s.(work := s.work[tab.now % WORK_WHEEL_SIZE := []], remainder := remainder),
                   Next(tab, Event.Tick), Lap(tab.now) + 1)
  {
    hide Lap;
    var k := tab.now % WORK_WHEEL_SIZE;
    var s' := s.(work := s.work[k := []], remainder := remainder);
    var tab' := Next(tab, Event.Tick);
    forall i, u | 0 <= i < WORK_WHEEL_SIZE && u in s'.work[i]
      ensures WorkEntry(s', tab', u, i)
    {
      assert i != k && WorkEntry(s, tab, u, i);
    }
    forall i, u | 0 <= i < ASSISTANT_WHEEL_SIZE && u in s'.assistant[i]
      ensures AssistantEntry(s', tab', u, i, Lap(tab.now) + 1)
    {
      assert AssistantEntry(s, tab, u, i, Lap(tab.now) + 1);
    }
    forall u | u in tab'.pending
      ensures Placed(s', tab', u)
    {
      assert Placed(s, tab, u);
      if u !in s.parked { NextTurn(tab.now, tab.pending[u]); }
    }
  }

  /** Advancing the index without a wrap moves nothing; on a wrap the lap that begins is the first
      one the assistant wheel still holds. */
  lemma AdvanceStores<Id>(s: Slots<Id>, tab: Table<Id>)
    requires Stores(s, tab, Lap(tab.now) + 1) && tab.ticked
    ensures var tab' := Next(tab, Event.Advance);
            Stores(s, tab', Lap(tab'.now) + (if tab'.now % WORK_WHEEL_SIZE == 0 then 0 else 1))
  {
    var tab' := Next(tab, Event.Advance);
    var lo := Lap(tab'.now) + (if tab'.now % WORK_WHEEL_SIZE == 0 then 0 else 1);
    assert lo == Lap(tab.now) + 1;
    forall i, u | 0 <= i < WORK_WHEEL_SIZE && u in s.work[i]
      ensures WorkEntry(s, tab', u, i)
    {
      assert WorkEntry(s, tab, u, i);
    }
    forall i, u | 0 <= i < ASSISTANT_WHEEL_SIZE && u in s.assistant[i]
      ensures AssistantEntry(s, tab', u, i, lo)
    {
      assert AssistantEntry(s, tab, u, i, lo);
    }
    forall u | u in tab'.pending
      ensures Placed(s, tab', u)
    {
      assert Placed(s, tab, u);
    }
  }

  lemma WrapIndices(now: nat)
    ensures (now % WORK_WHEEL_SIZE + 1) % WORK_WHEEL_SIZE == (now + 1) % WORK_WHEEL_SIZE
    ensures if (now + 1) % WORK_WHEEL_SIZE == 0 then
              (Lap(now) % ASSISTANT_WHEEL_SIZE + 1) % ASSISTANT_WHEEL_SIZE == Lap(now + 1) % ASSISTANT_WHEEL_SIZE
            else Lap(now + 1) == Lap(now)
  {
    var q, w := now / WORK_WHEEL_SIZE, now % WORK_WHEEL_SIZE;
    assert now == WORK_WHEEL_SIZE * q + w;
    if w + 1 < WORK_WHEEL_SIZE {
      assert now + 1 == WORK_WHEEL_SIZE * q + (w + 1);
    } else {
      assert now + 1 == WORK_WHEEL_SIZE * (q + 1);
      Arith.SuccMod(q, ASSISTANT_WHEEL_SIZE);
    }
  }

  /** One iteration of the cascade loop: the front entry of the slot whose lap begins. */
  function CascadeOne<Id>(s: Slots<Id>, k: nat): Slots<Id>
    requires Shape(s) && k < ASSISTANT_WHEEL_SIZE && s.assistant[k] != []
    requires s.assistant[k][0] in s.expired
             || (s.assistant[k][0] in s.remainder && s.remainder[s.assistant[k][0]] < WORK_WHEEL_SIZE)
  {
    var t := s.assistant[k][0];
    var rest := s.(assistant := s.assistant[k := s.assistant[k][1..]]);
    if t in s.expired then rest else ToWork(rest, s.remainder[t], t)
  }

  /** The front entry of the slot whose lap begins: where it goes, and that it is its task's only live entry. */
  lemma CascadeFront<Id>(s: Slots<Id>, tab: Table<Id>, k: nat)
    requires Stores(s, tab, Lap(tab.now)) && k == Lap(tab.now) % ASSISTANT_WHEEL_SIZE && s.assistant[k] != []
    ensures var t := s.assistant[k][0];
      t in s.expired ||
      (&& t in tab.pending && t in s.parked && t in s.remainder && s.remainder[t] == tab.pending[t] % WORK_WHEEL_SIZE
       && Lap(tab.pending[t]) == Lap(tab.now) && t !in s.assistant[k][1..] && t !in s.work[s.remainder[t]])
  {
    var t := s.assistant[k][0];
    assert AssistantEntry(s, tab, t, k, Lap(tab.now));
    if t !in s.expired && t in s.work[s.remainder[t]] { assert false; }
  }

  lemma CascadeWork<Id>(s: Slots<Id>, tab: Table<Id>, k: nat)
    requires Stores(s, tab, Lap(tab.now)) && !tab.ticked && tab.now % WORK_WHEEL_SIZE == 0
    requires k == Lap(tab.now) % ASSISTANT_WHEEL_SIZE && s.assistant[k] != []
    requires s.assistant[k][0] in s.expired
             || (s.assistant[k][0] in s.remainder && s.remainder[s.assistant[k][0]] < WORK_WHEEL_SIZE)
    ensures var s' := CascadeOne(s, k);
      && (forall i, u | 0 <= i < WORK_WHEEL_SIZE && u in s'.work[i] :: WorkEntry(s', tab, u, i))
      && (forall i | 0 <= i < WORK_WHEEL_SIZE :: LiveOnce(s'.work[i], s'.expired))
  {
    CascadeFront(s, tab, k);
    var t, s' := s.assistant[k][0], CascadeOne(s, k);
    forall i, u | 0 <= i < WORK_WHEEL_SIZE && u in s'.work[i]
      ensures WorkEntry(s', tab, u, i)
    {
      if u in s.work[i] { assert WorkEntry(s, tab, u, i); }
    }
    if t !in s.expired { FreshEntry(s.work[s.remainder[t]], t, s.expired); }
  }

  lemma CascadeAssistant<Id>(s: Slots<Id>, tab: Table<Id>, k: nat)
    requires Stores(s, tab, Lap(tab.now)) && k == Lap(tab.now) % ASSISTANT_WHEEL_SIZE && s.assistant[k] != []
    requires s.assistant[k][0] in s.expired
             || (s.assistant[k][0] in s.remainder && s.remainder[s.assistant[k][0]] < WORK_WHEEL_SIZE)
    ensures var s' := CascadeOne(s, k);
      && (forall i, u | 0 <= i < ASSISTANT_WHEEL_SIZE && u in s'.assistant[i] :: AssistantEntry(s', tab, u, i, Lap(tab.now)))
      && (forall i | 0 <= i < ASSISTANT_WHEEL_SIZE :: LiveOnce(s'.assistant[i], s'.expired))
  {
    CascadeFront(s, tab, k);
    var s' := CascadeOne(s, k);
    forall i, u | 0 <= i < ASSISTANT_WHEEL_SIZE && u in s'.assistant[i]
      ensures AssistantEntry(s', tab, u, i, Lap(tab.now))
    {
      assert u in s.assistant[i] && AssistantEntry(s, tab, u, i, Lap(tab.now));
    }
  }

  lemma CascadePlaced<Id>(s: Slots<Id>, tab: Table<Id>, k: nat, u: Id)
    requires Stores(s, tab, Lap(tab.now)) && k == Lap(tab.now) % ASSISTANT_WHEEL_SIZE && s.assistant[k] != []
    requires s.assistant[k][0] in s.expired
             || (s.assistant[k][0] in s.remainder && s.remainder[s.assistant[k][0]] < WORK_WHEEL_SIZE)
    requires u in tab.pending
    ensures Placed(CascadeOne(s, k), tab, u)
  {
    CascadeFront(s, tab, k);
    assert Placed(s, tab, u);
    assert u in s.assistant[k] && u != s.assistant[k][0] ==> u in s.assistant[k][1..];
  }

  lemma CascadeOneStores<Id>(s: Slots<Id>, tab: Table<Id>, k: nat)
    requires Stores(s, tab, Lap(tab.now)) && !tab.ticked && tab.now % WORK_WHEEL_SIZE == 0
    requires k == Lap(tab.now) % ASSISTANT_WHEEL_SIZE && s.assistant[k] != []
    ensures s.assistant[k][0] in s.expired
            || (s.assistant[k][0] in s.remainder && s.remainder[s.assistant[k][0]] < WORK_WHEEL_SIZE)
    ensures Stores(CascadeOne(s, k), tab, Lap(tab.now))
  {
    CascadeFront(s, tab, k);
    hide WorkEntry, AssistantEntry, Placed, LiveOnce;
    CascadeWork(s, tab, k);
    CascadeAssistant(s, tab, k);
    forall u | u in tab.pending
      ensures Placed(CascadeOne(s, k), tab, u)
    {
      CascadePlaced(s, tab, k, u);
    }
  }

  /** With its slot empty, the lap that begins needs the assistant wheel no more. */
  lemma CascadeDone<Id>(s: Slots<Id>, tab: Table<Id>)
    requires Stores(s, tab, Lap(tab.now)) && s.assistant[Lap(tab.now) % ASSISTANT_WHEEL_SIZE] == []
    ensures Stores(s, tab, Lap(tab.now) + 1)
  {
    forall i, u | 0 <= i < ASSISTANT_WHEEL_SIZE && u in s.assistant[i]
      ensures AssistantEntry(s, tab, u, i, Lap(tab.now) + 1)
    {
      assert AssistantEntry(s, tab, u, i, Lap(tab.now));
    }
  }

  lemma ExpireStores<Id>(s: Slots<Id>, tab: Table<Id>, lo: nat, t: Id, remainder: map<Id, nat>)
    requires Stores(s, tab, lo)
    requires forall u | u in s.remainder && u != t :: u in remainder && remainder[u] == s.remainder[u]
    ensures Stores(s.(expired := s.expired + {t}, remainder := remainder), Next(tab, Event.Expire(t)), lo)
  {
    var s' := s.(expired := s.expired + {t}, remainder := remainder);
    var tab' := Next(tab, Event.Expire(t));
    forall i, u | 0 <= i < WORK_WHEEL_SIZE && u in s'.work[i]
      ensures WorkEntry(s', tab', u, i)
    {
      assert WorkEntry(s, tab, u, i);
    }
    forall i, u | 0 <= i < ASSISTANT_WHEEL_SIZE && u in s'.assistant[i]
      ensures AssistantEntry(s', tab', u, i, lo)
    {
      assert AssistantEntry(s, tab, u, i, lo);
    }
    forall u | u in tab'.pending
      ensures Placed(s', tab', u)
    {
      assert Placed(s, tab, u);
    }
  }

  /** The entries whose weak reference still locks, in order. */
  function Live<Id>(s: seq<Id>, expired: set<Id>): seq<Id> {
    if s == [] then []
    else Live(s[..|s| - 1], expired) + if s[|s| - 1] in expired then [] else [s[|s| - 1]]
  }

  lemma {:induction false} LiveProperties<Id>(s: seq<Id>, expired: set<Id>)
    ensures forall t :: t in Live(s, expired) <==> t in s && t !in expired
    ensures LiveOnce(s, expired) ==> LiveOnce(Live(s, expired), {})
  {
    if s != [] {
      var k := |s| - 1;
      LiveProperties(s[..k], expired);
      assert s == s[..k] + [s[k]];
      if LiveOnce(s, expired) && s[k] !in expired {
        assert s[k] !in s[..k];
      }
    }
  }

  /** at lists, in rising order, exactly the places of the live entries of a slot, and live the entries there. */
  ghost predicate LivePlaces<Id>(s: seq<Id>, expired: set<Id>, live: seq<Id>, at: seq<nat>) {
    && |at| == |live| && (forall i, j | 0 <= i < j < |at| :: at[i] < at[j])
    && (forall i | 0 <= i < |at| :: at[i] < |s| && s[at[i]] == live[i])
    && (forall p: nat | p < |s| :: s[p] !in expired <==> p in at)
  }

  lemma LivePlacesMore<Id>(s: seq<Id>, expired: set<Id>, live: seq<Id>, at: seq<nat>, x: Id)
    requires LivePlaces(s, expired, live, at)
    ensures x in expired ==> LivePlaces(s + [x], expired, live, at)
    ensures x !in expired ==> LivePlaces(s + [x], expired, live + [x], at + [|s|])
  {
    var longer := s + [x];
    assert forall p: nat | p < |s| :: longer[p] == s[p];
    assert forall i | 0 <= i < |at| :: at[i] in at && at[i] < |s|;
    assert longer[|s|] == x && |s| !in at;
  }

  lemma NoLivePlaces<Id>(expired: set<Id>)
    ensures LivePlaces<Id>([], expired, [], [])
  {
  }

  /** The live entries come out in the order in which they stand in the slot, none left out. */
  lemma {:induction false} LiveInOrder<Id>(s: seq<Id>, expired: set<Id>) returns (at: seq<nat>)
    ensures LivePlaces(s, expired, Live(s, expired), at)
  {
    hide LivePlaces;
    at := [];
    if s == [] {
      NoLivePlaces<Id>(expired);
    } else {
      var front, x := s[..|s| - 1], s[|s| - 1];
      at := LiveInOrder(front, expired);
      LivePlacesMore(front, expired, Live(front, expired), at, x);
      assert front + [x] == s;
      if x in expired {
        assert Live(s, expired) == Live(front, expired);
      } else {
        at := at + [|front|];
      }
    }
  }

  lemma SlotLiveOnce<Id>(s: Slots<Id>, tab: Table<Id>, i: nat)
    requires Stores(s, tab, Lap(tab.now) + 1) && i < WORK_WHEEL_SIZE
    ensures i < |s.work| && LiveOnce(s.work[i], s.expired)
  {
  }

  /** The live entries of the current slot are exactly what the table fires, each once. */
  lemma SlotFires<Id>(s: Slots<Id>, tab: Table<Id>)
    requires Stores(s, tab, Lap(tab.now) + 1) && !tab.ticked
    ensures |s.work| == WORK_WHEEL_SIZE
    ensures var fired := Live(s.work[tab.now % WORK_WHEEL_SIZE], s.expired);
      LiveOnce(fired, {}) && forall t :: t in fired <==> t in Fired(tab, Event.Tick)
  {
    SlotLiveOnce(s, tab, tab.now % WORK_WHEEL_SIZE);
    var slot := s.work[tab.now % WORK_WHEEL_SIZE];
    LiveProperties(slot, s.expired);
    forall t
      ensures t in Live(slot, s.expired) <==> t in Fired(tab, Event.Tick)
    {
      CurrentSlotIsDue(s, tab, t);
    }
  }

  lemma LapsCongruent(lap: nat, ticks: nat)
    ensures (lap + Laps(ticks)) % ASSISTANT_WHEEL_SIZE
            == (lap % ASSISTANT_WHEEL_SIZE + ticks) % ASSISTANT_WHEEL_SIZE
  {
  }

  /** A deadline inside the work wheel's reach is at the index sum. */
  lemma DueInWork(now: nat, ticked: bool, k: nat)
    requires var w := now % WORK_WHEEL_SIZE;
             w + k < WORK_WHEEL_SIZE || ((w + k) / WORK_WHEEL_SIZE == 1 && (w + k) % WORK_WHEEL_SIZE < w)
    ensures var w, due := now % WORK_WHEEL_SIZE, Due(now, ticked, k);
            var from := if ticked then now + 1 else now;
            due % WORK_WHEEL_SIZE == (w + k) % WORK_WHEEL_SIZE && from <= due < from + WORK_WHEEL_SIZE
  {
  }

  /** Any other deadline is in the assistant slot and at the remainder the index sum gives. */
  lemma DueInAssistant(now: nat, ticked: bool, k: nat)
    requires var w := now % WORK_WHEEL_SIZE;
             w + k >= WORK_WHEEL_SIZE && !((w + k) / WORK_WHEEL_SIZE == 1 && (w + k) % WORK_WHEEL_SIZE < w)
    ensures var w, due := now % WORK_WHEEL_SIZE, Due(now, ticked, k);
            && due % WORK_WHEEL_SIZE == (w + k) % WORK_WHEEL_SIZE
            && Lap(now) + 1 <= Lap(due) < Lap(now) + 1 + ASSISTANT_WHEEL_SIZE
            && Lap(due) % ASSISTANT_WHEEL_SIZE
               == (Lap(now) % ASSISTANT_WHEEL_SIZE + (w + k) / WORK_WHEEL_SIZE) % ASSISTANT_WHEEL_SIZE
  {
    var w := now % WORK_WHEEL_SIZE;
    var ticks := (w + k) / WORK_WHEEL_SIZE;
    LapsCongruent(Lap(now), ticks);
    assert Due(now, ticked, k) == WORK_WHEEL_SIZE * (Lap(now) + Laps(ticks)) + (w + k) % WORK_WHEEL_SIZE;
    Arith.DivModUnique(WORK_WHEEL_SIZE, Lap(now) + Laps(ticks), (w + k) % WORK_WHEEL_SIZE);
  }

  // ------------------------------------------------------------------ the wheel

  class Wheel {
    var running: bool
    var tickCount: nat
    const work: array<seq<TimerTask>>
    const assistant: array<seq<TimerTask>>
    var workIndex: nat
    var assistantIndex: nat
    /** Tasks whose last owner is gone; the wheel holds weak references. */
    var expired: set<TimerTask>

    ghost var now: nat
    ghost var ticked: bool
    ghost var pending: map<TimerTask, nat>
    ghost var parked: set<TimerTask>

    /** The deadline table this wheel stands for. */
    ghost function Abs(): Table<TimerTask>
      reads this
    {
      Table(now, ticked, pending)
    }

    ghost function Contents(): Slots<TimerTask>
      reads this, work, assistant, pending.Keys
    {
      Slots(work[..], assistant[..], map t | t in pending :: t.remainderIntervalMs, expired, parked)
    }

    ghost predicate Indices()
      reads this
    {
      && work.Length == WORK_WHEEL_SIZE && assistant.Length == ASSISTANT_WHEEL_SIZE && work != assistant
      && workIndex == now % WORK_WHEEL_SIZE
      && assistantIndex == Lap(now) % ASSISTANT_WHEEL_SIZE
    }

    ghost predicate Valid()
      reads this, work, assistant, pending.Keys
    {
      Indices() && Stores(Contents(), Abs(), Lap(now) + 1)
    }

    constructor ()
      ensures Valid() && Abs() == Table(0, false, map[]) && expired == {} && !running
      ensures fresh(work) && fresh(assistant)
    {
      work := new seq<TimerTask>[WORK_WHEEL_SIZE](_ => []);
      assistant := new seq<TimerTask>[ASSISTANT_WHEEL_SIZE](_ => []);
      running, tickCount, workIndex, assistantIndex, expired := false, 0, 0, 0, {};
      now, ticked, pending, parked := 0, false, map[], {};
    }

    /** Appends to a work slot the task whose deadline is that slot's next turn. */
    method PutInWork(i: nat, task: TimerTask, ghost due: nat)
      requires Valid() && task !in expired && task !in pending && i == due % WORK_WHEEL_SIZE
      requires Unfired(Abs()) <= due < Unfired(Abs()) + WORK_WHEEL_SIZE
      modifies this`pending, this`parked, work
      ensures Valid() && pending == old(pending)[task := due]
    {
      hide Stores;
      ghost var s, tab := Contents(), Abs();
      AddToWork(s, tab, Lap(now) + 1, task, task.remainderIntervalMs, due);
      work[i] := work[i] + [task];
      pending, parked := pending[task := due], parked - {task};
      assert Contents() == ToWork(s.(remainder := s.remainder[task := task.remainderIntervalMs]), i, task);
    }

    /** Appends to an assistant slot a task of one of the next 64 laps. */
    method PutInAssistant(i: nat, task: TimerTask, ghost due: nat)
      requires Valid() && task !in expired && task !in pending
      requires task.remainderIntervalMs == due % WORK_WHEEL_SIZE && i == Lap(due) % ASSISTANT_WHEEL_SIZE
      requires Lap(now) + 1 <= Lap(due) < Lap(now) + 1 + ASSISTANT_WHEEL_SIZE
      modifies this`pending, this`parked, assistant
      ensures Valid() && pending == old(pending)[task := due]
    {
      hide Stores;
      ghost var s, tab := Contents(), Abs();
      AddToAssistant(s, tab, Lap(now) + 1, task, due);
      assistant[i] := assistant[i] + [task];
      pending, parked := pending[task := due], parked + {task};
      assert Contents() == ToAssistant(s.(remainder := s.remainder[task := task.remainderIntervalMs]), i, task);
    }

    method AddTask(task: TimerTask)
      requires Valid() && task !in expired && task !in pending
      modifies this, work, assistant, task`remainderIntervalMs
      ensures Valid() && expired == old(expired) && running && tickCount == old(tickCount)
      ensures Abs() == Next(old(Abs()), Add(task, Ticks(task.nextFireDurationMs)))
    {
      hide Stores, Due, Lap;
      var ticks := Ticks(task.nextFireDurationMs);
      ghost var s := Contents();
      running := true;
      assert Contents() == s;
      if workIndex + ticks >= WORK_WHEEL_SIZE {
        AddBeyondWrap(task, ticks);
      } else {
        DueInWork(now, ticked, ticks);
        PutInWork(workIndex + ticks, task, Due(now, ticked, ticks));
      }
    }

    /** A deadline beyond the end of the work wheel: in a slot already passed, or in the assistant wheel. */
    method AddBeyondWrap(task: TimerTask, ticks: nat)
      requires Valid() && task !in expired && task !in pending && workIndex + ticks >= WORK_WHEEL_SIZE
      modifies this`pending, this`parked, work, assistant, task`remainderIntervalMs
      ensures Valid() && pending == old(pending)[task := Due(now, ticked, ticks)]
    {
      hide Stores, Due, Lap;
      ghost var s := Contents();
      var workWheelIndex := workIndex + ticks;
      var realWorkWheelIndex := GetWorkWheelIndex(workWheelIndex);
      task.remainderIntervalMs := realWorkWheelIndex;
      assert Contents() == s;
      var assistantTicks := workWheelIndex / WORK_WHEEL_SIZE;
      if assistantTicks == 1 && realWorkWheelIndex < workIndex {
        DueInWork(now, ticked, ticks);
        PutInWork(realWorkWheelIndex, task, Due(now, ticked, ticks));
      } else {
        DueInAssistant(now, ticked, ticks);
        PutInAssistant(GetAssistantWheelIndex(assistantIndex + assistantTicks), task, Due(now, ticked, ticks));
      }
    }

    /** The last owner of a task lets go: the weak references in the wheel stop locking. */
    method Expire(task: TimerTask)
      requires Valid()
      modifies this
      ensures Valid() && expired == old(expired) + {task}
      ensures Abs() == Next(old(Abs()), Event.Expire(task))
    {
      hide Stores;
      ghost var s, tab := Contents(), Abs();
      expired := expired + {task};
      pending := pending - {task};
      ExpireStores(s, tab, Lap(now) + 1, task, Contents().remainder);
    }

    /** The erase loop over the current work slot: the tasks that are still alive, in order. */
    method EraseSlot() returns (fired: seq<TimerTask>)
      requires workIndex < work.Length
      modifies work
      ensures work[..] == old(work[..])[workIndex := []]
      ensures fired == Live(old(work[workIndex]), expired)
    {
      ghost var all, slot, n := work[..], work[workIndex], 0;
      fired := [];
      while work[workIndex] != []
        invariant n <= |slot| && work[..] == all[workIndex := slot[n..]]
        invariant fired == Live(slot[..n], expired)
        decreases |slot| - n
      {
        var task := work[workIndex][0];
        assert task == slot[n] && slot[..n + 1] == slot[..n] + [task];
        if task !in expired {
          fired := fired + [task];
        }
        work[workIndex] := work[workIndex][1..];
        n := n + 1;
      }
      assert slot[..n] == slot;
    }

    /** Empties the current work slot, handing every task that is still alive to its callback. */
    method Tick() returns (fired: seq<TimerTask>)
      requires Valid() && !ticked
      modifies this, work
      ensures Valid() && expired == old(expired)
      ensures Abs() == Next(old(Abs()), Event.Tick)
      ensures LiveOnce(fired, {})
      ensures forall t :: t in fired <==> t in Fired(old(Abs()), Event.Tick)
      ensures tickCount == old(tickCount) + 1
    {
      hide Stores, Live, LiveOnce;
      ghost var s, tab := Contents(), Abs();
      fired := EraseSlot();
      SlotFires(s, tab);
      assert fired == Live(s.work[now % WORK_WHEEL_SIZE], s.expired);
      ticked, tickCount := true, tickCount + 1;
      pending := map t | t in pending && pending[t] != now :: pending[t];
      TickStores(s, tab, Contents().remainder);
      assert Contents().work == s.work[workIndex := []];
    }

    /** Moves the slot of the lap that begins into the work wheel. */
    method Cascade()
      requires Indices() && Stores(Contents(), Abs(), Lap(now)) && !ticked && workIndex == 0
      modifies this`parked, work, assistant
      ensures Valid()
    {
      hide Stores;
      while assistant[assistantIndex] != []
        invariant Indices() && Stores(Contents(), Abs(), Lap(now))
        modifies this`parked, work, assistant
        decreases |assistant[assistantIndex]|
      {
        ghost var s := Contents();
        CascadeOneStores(s, Abs(), assistantIndex);
        var task := assistant[assistantIndex][0];
        if task !in expired {
          work[task.remainderIntervalMs] := work[task.remainderIntervalMs] + [task];
          parked := parked - {task};
        }
        assistant[assistantIndex] := assistant[assistantIndex][1..];
        assert Contents() == CascadeOne(s, assistantIndex);
      }
      CascadeDone(Contents(), Abs());
    }

    /** Moves to the next work slot and, on a wrap, to the next assistant slot, cascading it. */
    method Advance()
      requires Valid() && ticked
      modifies this, work, assistant
      ensures Valid() && expired == old(expired) && tickCount == old(tickCount)
      ensures Abs() == Next(old(Abs()), Event.Advance)
    {
      hide Stores, Lap;
      WrapIndices(now);
      ghost var s := Contents();
      AdvanceStores(s, Abs());
      workIndex := GetWorkWheelIndex(workIndex + 1);
      now, ticked := now + 1, false;
      assert Contents() == s;
      if workIndex == 0 {
        assistantIndex := GetAssistantWheelIndex(assistantIndex + 1);
        assert Contents() == s;
        Cascade();
      }
    }

    /** n turns of the tick thread with no call in between: turn i hands out exactly the tasks due at
        that tick, each once, and what is due later stays armed. */
    method TickFunc(n: nat) returns (log: seq<seq<TimerTask>>)
      requires Valid() && !ticked
      modifies this, work, assistant
      ensures Valid() && !ticked && now == old(now) + n && expired == old(expired) && |log| == n
      ensures forall i | 0 <= i < n :: LiveOnce(log[i], {})
      ensures forall i, t | 0 <= i < n :: t in log[i] <==> t in old(pending) && old(pending)[t] == old(now) + i
      ensures pending == Beyond(old(pending), old(now), n) && tickCount == old(tickCount) + n
    {
      hide Valid, LiveOnce;
      log := [];
      for i := 0 to n
        invariant Valid() && !ticked && now == old(now) + i && expired == old(expired) && |log| == i
        invariant forall k | 0 <= k < i :: LiveOnce(log[k], {})
        invariant forall k, t | 0 <= k < i :: t in log[k] <==> t in old(pending) && old(pending)[t] == old(now) + k
        invariant pending == Beyond(old(pending), old(now), i) && tickCount == old(tickCount) + i
      {
        ghost var before := log;
        var fired := Tick();
        Advance();
        log := log + [fired];
        assert forall k | 0 <= k < i :: log[k] == before[k];
      }
    }
  }

  /** The tasks that n ticks from now on leave armed. */
  ghost function Beyond(pending: map<TimerTask, nat>, now: nat, n: nat): map<TimerTask, nat> {
    map t | t in pending && !(now <= pending[t] < now + n) :: pending[t]
  }
}

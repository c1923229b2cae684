/**
 The periodic timer (cyber/timer/timer.cc): how each firing corrects the next one.
 */
module Timer {
  import opened TimingWheel

  const TWO_63 := 0x8000_0000_0000_0000
  const TWO_64 := 0x1_0000_0000_0000_0000
  const NS_PER_MS := 1_000_000

  function ToUint64(x: int): (r: nat)
    ensures r < TWO_64
  {
    x % TWO_64
  }

  function ToInt64(x: int): (r: int)
    ensures -TWO_63 <= r < TWO_63
  {
    (x + TWO_63) % TWO_64 - TWO_63
  }

  lemma Int64Exact(x: int)
    requires -TWO_63 <= x < TWO_63
    ensures ToInt64(x) == x && ToInt64(ToUint64(x)) == x
  {
  }

  /** Adding a wrapped difference to a wrapped sum wraps the true sum. */
  lemma Int64Adds(a: int, b: int)
    ensures ToInt64(ToInt64(a) + ToUint64(b)) == ToInt64(a + b)
  {
  }

  /** llround of nanoseconds over 1e6: to the nearest millisecond, halves away from zero. */
  function RoundMs(ns: int): int {
    if ns >= 0 then (ns + NS_PER_MS / 2) / NS_PER_MS else -((-ns + NS_PER_MS / 2) / NS_PER_MS)
  }

  lemma RoundWithinHalf(ns: int)
    ensures -NS_PER_MS / 2 <= RoundMs(ns) * NS_PER_MS - ns <= NS_PER_MS / 2
  {
  }

  /** Halves are rounded away from zero, on both sides. */
  lemma RoundHalvesAway(k: nat)
    ensures RoundMs(k * NS_PER_MS + NS_PER_MS / 2) == k + 1 && RoundMs(-(k * NS_PER_MS + NS_PER_MS / 2)) == -(k + 1)
  {
  }

  /** The part of the task a firing updates. */
  datatype Feedback = Feedback(accumulatedErrorNs: int, lastExecuteTimeNs: nat, nextFireDurationMs: nat)

  function AccumulatedError(f: Feedback, intervalMs: nat, start: nat): int {
    if f.lastExecuteTimeNs == 0 then f.accumulatedErrorNs
    else ToInt64(f.accumulatedErrorNs + ToUint64(start - f.lastExecuteTimeNs - intervalMs * NS_PER_MS))
  }

  /** Does the correction fit, or is the timer so late that it fires at the shortest distance? */
  predicate Unclamped(intervalMs: nat, executeMs: int, errorMs: int) {
    executeMs < intervalMs
    && ToInt64(ToUint64(intervalMs - executeMs - TIMER_RESOLUTION_MS)) >= errorMs
  }

  function NextFireMs(intervalMs: nat, executeMs: int, errorMs: int): nat {
    if Unclamped(intervalMs, executeMs, errorMs) then ToUint64(intervalMs - executeMs - errorMs)
    else TIMER_RESOLUTION_MS
  }

  /** One firing whose callback ran from start to end. */
  function Fire(f: Feedback, intervalMs: nat, start: nat, end: nat): Feedback {
    var error := AccumulatedError(f, intervalMs, start);
    Feedback(error, start, NextFireMs(intervalMs, RoundMs(ToUint64(end - start)), RoundMs(error)))
  }

  /** The next firing is never nearer than one tick, despite the unsigned subtraction, and in the
      unclamped branch the unsigned result is the true difference. */
  lemma NextFireAtLeastOneTick(intervalMs: nat, executeMs: int, errorMs: int)
    requires 0 < intervalMs < TIMER_MAX_INTERVAL_MS && 0 <= executeMs && -TWO_63 <= errorMs < TWO_63
    ensures NextFireMs(intervalMs, executeMs, errorMs) >= TIMER_RESOLUTION_MS
    ensures Unclamped(intervalMs, executeMs, errorMs) <==>
              executeMs < intervalMs && intervalMs - executeMs - errorMs >= TIMER_RESOLUTION_MS
    ensures Unclamped(intervalMs, executeMs, errorMs) ==>
              NextFireMs(intervalMs, executeMs, errorMs) == intervalMs - executeMs - errorMs
  {
    if executeMs < intervalMs {
      Int64Exact(intervalMs - executeMs - TIMER_RESOLUTION_MS);
    }
  }

  // ------------------------------------------------------------- runs of firings

  /** A run: the callback's start and end of every firing, on a monotonic clock. */
  ghost predicate Monotonic(runs: seq<(nat, nat)>) {
    && (forall i | 0 <= i < |runs| :: runs[i].0 <= runs[i].1 < TWO_63)
    && (forall i, j | 0 <= i < j < |runs| :: runs[i].0 <= runs[j].0)
  }

  function FireAll(intervalMs: nat, runs: seq<(nat, nat)>): Feedback {
    if runs == [] then Feedback(0, 0, intervalMs) else
      var k := |runs| - 1;
      Fire(FireAll(intervalMs, runs[..k]), intervalMs, runs[k].0, runs[k].1)
  }

  /** The firing the error is measured from: the first with a nonzero start, as zero marks a task
      that has not fired. */
  function Base(runs: seq<(nat, nat)>): (b: nat)
    requires runs != []
    ensures b < |runs| && (forall i | 0 <= i < b :: runs[i].0 == 0) && (runs[b].0 == 0 ==> b == |runs| - 1)
    ensures runs[0].0 > 0 ==> b == 0
    decreases |runs|
  {
    if runs[0].0 > 0 || |runs| == 1 then 0 else 1 + Base(runs[1..])
  }

  lemma {:induction false} BaseOfPrefix(runs: seq<(nat, nat)>)
    requires |runs| >= 2
    ensures var k := |runs| - 1;
            Base(runs) == if runs[..k][Base(runs[..k])].0 > 0 then Base(runs[..k]) else k
    decreases |runs|
  {
    var k := |runs| - 1;
    if runs[0].0 == 0 && |runs| > 2 {
      assert runs[1..][..k - 1] == runs[..k][1..];
      BaseOfPrefix(runs[1..]);
    }
  }

  /** How late the last firing started, against an exact period counted from the base firing. */
  function Lateness(intervalMs: nat, runs: seq<(nat, nat)>): int
    requires runs != []
  {
    var n, b := |runs| - 1, Base(runs);
    runs[n].0 - runs[b].0 - (n - b) * (intervalMs * NS_PER_MS)
  }

  lemma PeriodStep(k: int, b: int, period: int)
    ensures (k - b) * period == (k - 1 - b) * period + period
  {
  }

  /** One more firing adds its own deviation to the lateness. */
  lemma LatenessGrows(intervalMs: nat, runs: seq<(nat, nat)>)
    requires |runs| >= 2
    ensures var k := |runs| - 1;
            if runs[..k][Base(runs[..k])].0 > 0 then
              Lateness(intervalMs, runs)
              == Lateness(intervalMs, runs[..k]) + (runs[k].0 - runs[k - 1].0 - intervalMs * NS_PER_MS)
            else Lateness(intervalMs, runs) == Lateness(intervalMs, runs[..k]) == 0 && runs[k - 1].0 == 0
  {
    var k := |runs| - 1;
    BaseOfPrefix(runs);
    PeriodStep(k, Base(runs[..k]), intervalMs * NS_PER_MS);
  }

  lemma LatestStart(intervalMs: nat, runs: seq<(nat, nat)>)
    requires runs != []
    ensures FireAll(intervalMs, runs).lastExecuteTimeNs == runs[|runs| - 1].0
  {
  }

  lemma FireAllError(intervalMs: nat, runs: seq<(nat, nat)>)
    requires Monotonic(runs) && runs != []
    ensures FireAll(intervalMs, runs).accumulatedErrorNs
            == AccumulatedError(FireAll(intervalMs, runs[..|runs| - 1]), intervalMs, runs[|runs| - 1].0)
    ensures var k := |runs| - 1;
            FireAll(intervalMs, runs).nextFireDurationMs
            == NextFireMs(intervalMs, RoundMs(ToUint64(runs[k].1 - runs[k].0)),
                          RoundMs(FireAll(intervalMs, runs).accumulatedErrorNs))
  {
    hide NextFireMs, RoundMs, ToUint64, AccumulatedError;
  }

  /** An error that is a wrapped lateness stays one. */
  lemma ErrorIsLateness(f: Feedback, intervalMs: nat, start: nat, late: int, later: int)
    requires f.accumulatedErrorNs == ToInt64(late)
    requires later == late + (if f.lastExecuteTimeNs == 0 then 0 else start - f.lastExecuteTimeNs - intervalMs * NS_PER_MS)
    ensures AccumulatedError(f, intervalMs, start) == ToInt64(later)
  {
    hide ToInt64, ToUint64;
    Int64Adds(late, start - f.lastExecuteTimeNs - intervalMs * NS_PER_MS);
  }

  lemma LatenessStep(intervalMs: nat, runs: seq<(nat, nat)>)
    requires Monotonic(runs) && |runs| >= 2
    ensures var k := |runs| - 1;
            Lateness(intervalMs, runs) == Lateness(intervalMs, runs[..k])
              + (if runs[k - 1].0 == 0 then 0 else runs[k].0 - runs[k - 1].0 - intervalMs * NS_PER_MS)
  {
    var k := |runs| - 1;
    assert runs[..k][Base(runs[..k])].0 <= runs[k - 1].0;
    hide Lateness, Monotonic, Base;
    LatenessGrows(intervalMs, runs);
  }

  /** The error after one more firing, from the lateness before it. */
  lemma ErrorStep(intervalMs: nat, runs: seq<(nat, nat)>)
    requires Monotonic(runs) && |runs| >= 2
    requires FireAll(intervalMs, runs[..|runs| - 1]).accumulatedErrorNs == ToInt64(Lateness(intervalMs, runs[..|runs| - 1]))
    ensures FireAll(intervalMs, runs).accumulatedErrorNs == ToInt64(Lateness(intervalMs, runs))
  {
    hide *;
    var k := |runs| - 1;
    FireAllError(intervalMs, runs);
    LatestStart(intervalMs, runs[..k]);
    LatenessStep(intervalMs, runs);
    ErrorIsLateness(FireAll(intervalMs, runs[..k]), intervalMs, runs[k].0,
                    Lateness(intervalMs, runs[..k]), Lateness(intervalMs, runs));
  }

  /** The accumulated error telescopes: over any run it is the lateness, in 64 bits. */
  lemma {:induction false} ErrorTelescopes(intervalMs: nat, runs: seq<(nat, nat)>)
    requires Monotonic(runs) && runs != []
    ensures FireAll(intervalMs, runs).accumulatedErrorNs == ToInt64(Lateness(intervalMs, runs))
    decreases |runs|
  {
    if |runs| == 1 {
      FireAllError(intervalMs, runs);
      assert runs[..0] == [];
      Int64Exact(0);
      assert Lateness(intervalMs, runs) == 0;
    } else {
      hide FireAll, Lateness, ToInt64;
      ErrorTelescopes(intervalMs, runs[..|runs| - 1]);
      ErrorStep(intervalMs, runs);
    }
  }

  /** What the last firing armed, when the correction fits. */
  lemma ArmedDistance(intervalMs: nat, runs: seq<(nat, nat)>)
    requires Monotonic(runs) && runs != [] && 0 < intervalMs < TIMER_MAX_INTERVAL_MS && CorrectionFits(intervalMs, runs)
    ensures var n := |runs| - 1;
            FireAll(intervalMs, runs).nextFireDurationMs
            == intervalMs - RoundMs(runs[n].1 - runs[n].0) - RoundMs(ToInt64(Lateness(intervalMs, runs)))
  {
    var n := |runs| - 1;
    var error, exec := FireAll(intervalMs, runs).accumulatedErrorNs, runs[n].1 - runs[n].0;
    assert 0 <= exec < TWO_63 && ToUint64(exec) == exec;
    ErrorTelescopes(intervalMs, runs);
    hide FireAll, Lateness, Monotonic, RoundMs, NextFireMs, Unclamped, ToUint64, Base;
    RoundBounds(exec, error);
    NextFireAtLeastOneTick(intervalMs, RoundMs(exec), RoundMs(error));
    FireAllError(intervalMs, runs);
  }

  /** The last firing took the unclamped branch. */
  predicate CorrectionFits(intervalMs: nat, runs: seq<(nat, nat)>)
    requires runs != []
  {
    var execute: int := runs[|runs| - 1].1 as int - runs[|runs| - 1].0;
    Unclamped(intervalMs, RoundMs(execute), RoundMs(FireAll(intervalMs, runs).accumulatedErrorNs))
  }

  predicate FitsInt64(x: int) {
    -TWO_63 <= x < TWO_63
  }

  /** A number that does not fit is misread by at least 2^64. */
  lemma Int64Misreads(x: int)
    ensures FitsInt64(x) <==> ToInt64(x) == x
    ensures !FitsInt64(x) ==> x - ToInt64(x) <= -TWO_64 || x - ToInt64(x) >= TWO_64
  {
    Int64Congruent(x);
  }

  lemma Int64Congruent(x: int)
    ensures (x - ToInt64(x)) % TWO_64 == 0
  {
  }

  /** The timer does not drift: when the correction fits, the end of the callback plus the armed
      distance is within one millisecond of the exact instant of the next period, if and only if the
      lateness is one that 64 bits can tell. */
  lemma NextFireOnSchedule(intervalMs: nat, runs: seq<(nat, nat)>)
    requires Monotonic(runs) && runs != [] && 0 < intervalMs < TIMER_MAX_INTERVAL_MS && CorrectionFits(intervalMs, runs)
    ensures var n, b := |runs| - 1, Base(runs);
            var next := runs[n].1 + FireAll(intervalMs, runs).nextFireDurationMs * NS_PER_MS;
            var ideal := runs[b].0 + (n - b + 1) * (intervalMs * NS_PER_MS);
            -NS_PER_MS <= next - ideal <= NS_PER_MS <==> FitsInt64(Lateness(intervalMs, runs))
  {
    var n, b := |runs| - 1, Base(runs);
    var late, exec := Lateness(intervalMs, runs), runs[n].1 - runs[n].0;
    assert late == runs[n].0 - runs[b].0 - (n - b) * (intervalMs * NS_PER_MS);
    hide *;
    ArmedDistance(intervalMs, runs);
    RoundWithinHalf(ToInt64(late));
    RoundWithinHalf(exec);
    PeriodStep(n + 1, b, intervalMs * NS_PER_MS);
    Int64Misreads(late);
    FitsInt64IsMeant(late);
  }

  lemma FitsInt64IsMeant(x: int)
    ensures FitsInt64(x) <==> -TWO_63 <= x < TWO_63
  {
  }

  lemma RoundBounds(exec: nat, late: int)
    requires -TWO_63 <= late < TWO_63
    ensures RoundMs(exec) >= 0 && -TWO_63 <= RoundMs(late) < TWO_63
  {
  }

  /** Closed loop: whenever the previous correction fitted and the firing comes no more than early before
      and jitter after the armed instant, it starts within a millisecond plus that of its exact instant,
      however long and however late the timer ran before: errors do not add up. */
  lemma DriftBounded(intervalMs: nat, runs: seq<(nat, nat)>, early: nat, jitter: nat)
    requires Monotonic(runs) && |runs| >= 2 && 0 < intervalMs < TIMER_MAX_INTERVAL_MS
    requires var prefix := runs[..|runs| - 1];
             var n := |prefix| - 1;
             && CorrectionFits(intervalMs, prefix) && FitsInt64(Lateness(intervalMs, prefix))
             && var armed := prefix[n].1 + FireAll(intervalMs, prefix).nextFireDurationMs * NS_PER_MS;
                armed - early <= runs[n + 1].0 <= armed + jitter
    ensures -NS_PER_MS - early <= Lateness(intervalMs, runs) <= NS_PER_MS + jitter
  {
    var prefix := runs[..|runs| - 1];
    var n, b := |prefix| - 1, Base(prefix);
    assert Lateness(intervalMs, prefix) == prefix[n].0 - prefix[b].0 - (n - b) * (intervalMs * NS_PER_MS);
    NextFireOnSchedule(intervalMs, prefix);
    LatenessGrows(intervalMs, runs);
    PeriodStep(n + 1, b, intervalMs * NS_PER_MS);
  }

  // ---------------------------------------------------------- the clock of the wheel

  const TICK_NS := TIMER_RESOLUTION_MS * NS_PER_MS

  /** From one index to another the tick thread keeps a schedule or is at most late behind it; a stall outside may
      have shifted the schedule by any amount. */
  ghost predicate TicksOnTime(tickAt: nat -> int, origin: int, late: nat, from: nat, to: nat) {
    forall i: nat | from <= i <= to :: origin + i * TICK_NS <= tickAt(i) <= origin + i * TICK_NS + late
  }

  /** How the wheel keeps an armed distance of d milliseconds: armed at some instant while the index is
      now, the task fires less than one tick early and at most a millisecond late, plus what the tick thread
      is late meanwhile and the delay until its callback starts. */
  lemma WheelDelivers(tickAt: nat -> int, origin: int, late: nat, now: nat, ticked: bool, d: nat, end: int, start: int, delay: nat)
    requires d >= 1 && TicksOnTime(tickAt, origin, late, now, now + Ticks(d))
    requires now % WORK_WHEEL_SIZE + Ticks(d) < (ASSISTANT_WHEEL_SIZE + 1) * WORK_WHEEL_SIZE
    requires tickAt(now) <= end < tickAt(now + 1)
    requires var due := Due(now, ticked, Ticks(d)); tickAt(due) <= start <= tickAt(due) + delay
    ensures end + d * NS_PER_MS - TICK_NS - late < start <= end + d * NS_PER_MS + NS_PER_MS + late + delay
  {
    DueExactlyInRange(now, ticked, Ticks(d));
    hide Due;
    var k := Ticks(d);
    assert d <= TIMER_RESOLUTION_MS * k <= d + 1;
    assert tickAt(now + k) >= origin + (now + k) * TICK_NS;
  }

  /** The timer on the wheel: a periodic firing whose predecessor's correction fitted and was armed within
      reach starts less than 3 ms before and at most 2 ms behind its exact instant, plus what the tick thread
      is late and the delay until the callback starts. */
  lemma PeriodicFiringOnTime(intervalMs: nat, runs: seq<(nat, nat)>, tickAt: nat -> int, origin: int, late: nat,
                             now: nat, ticked: bool, delay: nat)
    requires Monotonic(runs) && |runs| >= 2 && 0 < intervalMs < TIMER_MAX_INTERVAL_MS
    requires var prefix := runs[..|runs| - 1];
             var n, d := |prefix| - 1, FireAll(intervalMs, prefix).nextFireDurationMs;
             && CorrectionFits(intervalMs, prefix) && FitsInt64(Lateness(intervalMs, prefix))
             && TicksOnTime(tickAt, origin, late, now, now + Ticks(d))
             && tickAt(now) <= prefix[n].1 < tickAt(now + 1)
             && now % WORK_WHEEL_SIZE + Ticks(d) < (ASSISTANT_WHEEL_SIZE + 1) * WORK_WHEEL_SIZE
             && var due := Due(now, ticked, Ticks(d));
                tickAt(due) <= runs[n + 1].0 <= tickAt(due) + delay
    ensures -3 * NS_PER_MS - late < Lateness(intervalMs, runs) <= 2 * NS_PER_MS + late + delay
  {
    hide FireAll, CorrectionFits, Monotonic, Lateness, TicksOnTime, Due, Ticks, Base, FitsInt64;
    var prefix := runs[..|runs| - 1];
    var n := |prefix| - 1;
    var d := FireAll(intervalMs, prefix).nextFireDurationMs;
    MonotonicPrefix(runs, |runs| - 1);
    ArmedAtLeastOneTick(intervalMs, prefix);
    WheelDelivers(tickAt, origin, late, now, ticked, d, prefix[n].1, runs[n + 1].0, delay);
    DriftBounded(intervalMs, runs, TICK_NS + late - 1, NS_PER_MS + late + delay);
  }

  lemma MonotonicPrefix(runs: seq<(nat, nat)>, k: nat)
    requires Monotonic(runs) && k <= |runs|
    ensures Monotonic(runs[..k])
  {
  }

  lemma ArmedAtLeastOneTick(intervalMs: nat, runs: seq<(nat, nat)>)
    requires runs != [] && Monotonic(runs) && 0 < intervalMs < TIMER_MAX_INTERVAL_MS
    ensures FireAll(intervalMs, runs).nextFireDurationMs >= TIMER_RESOLUTION_MS
  {
    var n := |runs| - 1;
    FireAllError(intervalMs, runs);
    ErrorTelescopes(intervalMs, runs);
    RoundBounds(ToUint64(runs[n].1 - runs[n].0), FireAll(intervalMs, runs).accumulatedErrorNs);
    NextFireAtLeastOneTick(intervalMs, RoundMs(ToUint64(runs[n].1 - runs[n].0)),
                           RoundMs(FireAll(intervalMs, runs).accumulatedErrorNs));
  }

  // ---------------------------------------------------------- reach of a periodic firing

  /** Does the corrected distance stay within the wheel's reach at this work index? */
  predicate InReach(intervalMs: nat, executeMs: int, errorMs: int, workIndex: nat) {
    || executeMs >= intervalMs
    || intervalMs - executeMs - errorMs
       <= TIMER_RESOLUTION_MS * ((ASSISTANT_WHEEL_SIZE + 1) * WORK_WHEEL_SIZE - 1 - workIndex)
  }

  /** A task armed again fires at exactly its armed distance if and only if that is within reach. */
  lemma RearmedExactlyInReach(intervalMs: nat, executeMs: int, errorMs: int, now: nat, ticked: bool)
    requires 0 < intervalMs < TIMER_MAX_INTERVAL_MS && 0 <= executeMs && FitsInt64(errorMs)
    ensures var k := Ticks(NextFireMs(intervalMs, executeMs, errorMs));
            Due(now, ticked, k) == now + k <==> InReach(intervalMs, executeMs, errorMs, now % WORK_WHEEL_SIZE)
  {
    NextFireAtLeastOneTick(intervalMs, executeMs, errorMs);
    hide NextFireMs, Due, Unclamped;
    NextFireClamped(intervalMs, executeMs, errorMs);
    DueExactlyInRange(now, ticked, Ticks(NextFireMs(intervalMs, executeMs, errorMs)));
  }

  lemma NextFireClamped(intervalMs: nat, executeMs: int, errorMs: int)
    ensures !Unclamped(intervalMs, executeMs, errorMs) ==> NextFireMs(intervalMs, executeMs, errorMs) == TIMER_RESOLUTION_MS
  {
  }

  /** Whatever the moment, a distance is within reach if and only if it is at most the largest interval. */
  lemma InReachAtAnyMoment(intervalMs: nat, executeMs: int, errorMs: int)
    ensures (forall w: nat | w < WORK_WHEEL_SIZE :: InReach(intervalMs, executeMs, errorMs, w)) <==>
            executeMs >= intervalMs || intervalMs - executeMs - errorMs <= TIMER_MAX_INTERVAL_MS
  {
    assert InReach(intervalMs, executeMs, errorMs, WORK_WHEEL_SIZE - 1) <==>
           executeMs >= intervalMs || intervalMs - executeMs - errorMs <= TIMER_MAX_INTERVAL_MS;
  }

  /** A run: three firings of a timer with the largest period, whose callbacks take no time. */
  function LateBaseRun(): seq<(nat, nat)> {
    [(131_073_900_000, 131_073_900_000), (196_609_900_000, 196_609_900_000), (262_142_000_000, 262_142_000_000)]
  }

  /** The tick at which each of them fires. */
  function LateBaseTicks(): seq<nat> {
    [65536, 98304, 131071]
  }

  /** A distance out of reach, on a wheel whose ticks are all on time.  Started at tick 32768, the timer fires at
      each armed deadline, and each callback starts less than one tick behind its own tick.  The first starts
      late and the third on time, so the third arms 65537 ms; at its work index 511 that is beyond reach, and
      the timer fires at the very next tick. */
  lemma LateBaseOverreaches()
    ensures var runs, ticks := LateBaseRun(), LateBaseTicks();
      && Monotonic(runs)
      && (forall k | 0 <= k < 3 :: ticks[k] * TICK_NS <= runs[k].0 < (ticks[k] + 1) * TICK_NS)
      && Due(32768, true, Ticks(65535)) == ticks[0]
      && FireAll(65535, runs[..1]).nextFireDurationMs == 65535 && Due(ticks[0], true, Ticks(65535)) == ticks[1]
      && FireAll(65535, runs[..2]).nextFireDurationMs == 65534 && Due(ticks[1], true, Ticks(65534)) == ticks[2]
      && FireAll(65535, runs).nextFireDurationMs == 65537 && Due(ticks[2], true, Ticks(65537)) == ticks[2] + 1
      && ticks[2] % WORK_WHEEL_SIZE == 511 && !InReach(65535, 0, -2, 511)
  {
    LateBaseFeedback();
    LateBaseDues();
    hide FireAll, Due;
    var runs, ticks := LateBaseRun(), LateBaseTicks();
    assert forall k | 0 <= k < 3 :: ticks[k] * TICK_NS <= runs[k].0 < (ticks[k] + 1) * TICK_NS;
  }

  lemma LateBaseDues()
    ensures Due(32768, true, Ticks(65535)) == 65536 && Due(65536, true, Ticks(65535)) == 98304
    ensures Due(98304, true, Ticks(65534)) == 131071 && Due(131071, true, Ticks(65537)) == 131072
  {
  }

  lemma LateBaseFeedback()
    ensures var runs := LateBaseRun();
      && FireAll(65535, runs[..1]) == Feedback(0, 131_073_900_000, 65535)
      && FireAll(65535, runs[..2]) == Feedback(1_000_000, 196_609_900_000, 65534)
      && FireAll(65535, runs) == Feedback(-1_900_000, 262_142_000_000, 65537)
  {
    LateBaseFirings();
    hide Fire;
    var runs := LateBaseRun();
    var one, two := runs[..1], runs[..2];
    assert one[..0] == [] && two[..1] == one && runs[..2] == two;
    assert FireAll(65535, one[..0]) == Feedback(0, 0, 65535);
    assert FireAll(65535, one) == Fire(FireAll(65535, one[..0]), 65535, 131_073_900_000, 131_073_900_000);
    assert FireAll(65535, two) == Fire(FireAll(65535, two[..1]), 65535, 196_609_900_000, 196_609_900_000);
    assert FireAll(65535, runs) == Fire(FireAll(65535, runs[..2]), 65535, 262_142_000_000, 262_142_000_000);
  }

  lemma LateBaseFirings()
    ensures Fire(Feedback(0, 0, 65535), 65535, 131_073_900_000, 131_073_900_000) == Feedback(0, 131_073_900_000, 65535)
    ensures Fire(Feedback(0, 131_073_900_000, 65535), 65535, 196_609_900_000, 196_609_900_000)
            == Feedback(1_000_000, 196_609_900_000, 65534)
    ensures Fire(Feedback(1_000_000, 196_609_900_000, 65534), 65535, 262_142_000_000, 262_142_000_000)
            == Feedback(-1_900_000, 262_142_000_000, 65537)
  {
    LateBaseErrors();
    LateBaseDistance(0, 65535);
    LateBaseDistance(1_000_000, 65534);
    LateBaseDistance(-1_900_000, 65537);
    hide AccumulatedError, NextFireMs, RoundMs;
    assert ToUint64(0) == 0;
  }

  lemma LateBaseErrors()
    ensures AccumulatedError(Feedback(0, 0, 65535), 65535, 131_073_900_000) == 0
    ensures AccumulatedError(Feedback(0, 131_073_900_000, 65535), 65535, 196_609_900_000) == 1_000_000
    ensures AccumulatedError(Feedback(1_000_000, 196_609_900_000, 65534), 65535, 262_142_000_000) == -1_900_000
  {
  }

  lemma LateBaseDistance(errorNs: int, distanceMs: nat)
    requires (errorNs, distanceMs) in {(0, 65535), (1_000_000, 65534), (-1_900_000, 65537)}
    ensures NextFireMs(65535, RoundMs(0), RoundMs(errorNs)) == distanceMs
  {
  }

  // ---------------------------------------------------------- timer and wheel

  function FeedbackOf(task: TimerTask): Feedback
    reads task
  {
    Feedback(task.accumulatedErrorNs, task.lastExecuteTimeNs, task.nextFireDurationMs)
  }

  /** Accepts exactly the periods the wheel can hold. */
  method InitTimerTask(periodMs: nat) returns (ok: bool, task: TimerTask?)
    ensures ok <==> 0 < periodMs < TIMER_MAX_INTERVAL_MS
    ensures ok ==> task != null && fresh(task) && task.intervalMs == periodMs
                   && FeedbackOf(task) == FireAll(periodMs, [])
  {
    if periodMs == 0 || periodMs >= TIMER_MAX_INTERVAL_MS {
      return false, null;
    }
    task := new TimerTask(periodMs);
    ok := true;
  }

  /** Arms a fresh task: it is due exactly one period, in ticks, from now. */
  method Start(wheel: Wheel, task: TimerTask)
    requires wheel.Valid() && task !in wheel.expired && task !in wheel.pending
    requires task.nextFireDurationMs == task.intervalMs && 0 < task.intervalMs < TIMER_MAX_INTERVAL_MS
    modifies wheel, wheel.work, wheel.assistant, task`remainderIntervalMs
    ensures wheel.Valid() && wheel.expired == old(wheel.expired)
    ensures wheel.Abs() == old(wheel.Abs()).(pending := old(wheel.pending)[task := old(wheel.now) + Ticks(task.intervalMs)])
  {
    hide Stores, Due, Ticks;
    AcceptedPeriodInRange(wheel.now, wheel.ticked, task.intervalMs);
    wheel.AddTask(task);
  }

  /** The feedback part of the periodic callback. */
  method UpdateFeedback(task: TimerTask, start: nat, end: nat)
    requires start <= end < TWO_64
    modifies task
    ensures task.intervalMs == old(task.intervalMs)
    ensures FeedbackOf(task) == Fire(old(FeedbackOf(task)), old(task.intervalMs), start, end)
  {
    assert ToUint64(end - start) == end - start;
    hide ToInt64, ToUint64, RoundMs;
    var executeTimeMs := RoundMs(end - start);
    if task.lastExecuteTimeNs == 0 {
      task.lastExecuteTimeNs := start;
    } else {
      task.accumulatedErrorNs :=
        ToInt64(task.accumulatedErrorNs + ToUint64(start - task.lastExecuteTimeNs - task.intervalMs * NS_PER_MS));
    }
    task.lastExecuteTimeNs := start;
    if executeTimeMs >= task.intervalMs {
      task.nextFireDurationMs := TIMER_RESOLUTION_MS;
    } else {
      var accumulatedErrorMs := RoundMs(task.accumulatedErrorNs);
      if ToInt64(ToUint64(task.intervalMs - executeTimeMs - TIMER_RESOLUTION_MS)) >= accumulatedErrorMs {
        task.nextFireDurationMs := ToUint64(task.intervalMs - executeTimeMs - accumulatedErrorMs);
      } else {
        task.nextFireDurationMs := TIMER_RESOLUTION_MS;
      }
    }
  }

  /** The periodic callback after the user's function ran from start to end: it updates the feedback
      and arms the task again, at least one tick ahead, for exactly its new distance if and only if that is
      within reach. */
  method OnFire(wheel: Wheel, task: TimerTask, start: nat, end: nat)
    requires wheel.Valid() && task !in wheel.expired && task !in wheel.pending
    requires 0 < task.intervalMs < TIMER_MAX_INTERVAL_MS && start <= end < TWO_64
    requires -TWO_63 <= task.accumulatedErrorNs < TWO_63
    modifies wheel, wheel.work, wheel.assistant, task
    ensures wheel.Valid() && wheel.expired == old(wheel.expired) && task.intervalMs == old(task.intervalMs)
    ensures FeedbackOf(task) == Fire(old(FeedbackOf(task)), old(task.intervalMs), start, end)
    ensures wheel.Abs() == Next(old(wheel.Abs()), Add(task, Ticks(task.nextFireDurationMs)))
    ensures Ticks(task.nextFireDurationMs) >= 1
    ensures wheel.pending[task] == wheel.now + Ticks(task.nextFireDurationMs) <==>
      InReach(task.intervalMs, RoundMs(end - start), RoundMs(task.accumulatedErrorNs), wheel.workIndex)
  {
    hide Stores, Fire, Due, InReach, RoundMs, Ticks;
    ghost var contents := wheel.Contents();
    UpdateFeedback(task, start, end);
    FireArmsAhead(old(FeedbackOf(task)), task.intervalMs, start, end, wheel.now, wheel.ticked);
    assert wheel.Contents() == contents;
    wheel.AddTask(task);
  }

  lemma FireArmsAhead(f: Feedback, intervalMs: nat, start: nat, end: nat, now: nat, ticked: bool)
    requires 0 < intervalMs < TIMER_MAX_INTERVAL_MS && start <= end < TWO_64 && -TWO_63 <= f.accumulatedErrorNs < TWO_63
    ensures var g := Fire(f, intervalMs, start, end);
      && g.nextFireDurationMs >= TIMER_RESOLUTION_MS && Ticks(g.nextFireDurationMs) >= 1
      && (Due(now, ticked, Ticks(g.nextFireDurationMs)) == now + Ticks(g.nextFireDurationMs) <==>
          InReach(intervalMs, RoundMs(end - start), RoundMs(g.accumulatedErrorNs), now % WORK_WHEEL_SIZE))
  {
    assert ToUint64(end - start) == end - start;
    hide ToUint64, ToInt64, RoundMs, NextFireMs, Due, InReach;
    var executeMs, errorMs := RoundMs(end - start), RoundMs(AccumulatedError(f, intervalMs, start));
    RoundBounds(end - start, AccumulatedError(f, intervalMs, start));
    NextFireAtLeastOneTick(intervalMs, executeMs, errorMs);
    RearmedExactlyInReach(intervalMs, executeMs, errorMs, now, ticked);
  }
}

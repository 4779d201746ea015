/** The remembered CPU samples over every run of calls, for both loads. */
module CpuHistory {
  import opened Options
  import opened Words
  import opened CpuLoad

  /** A load calculation and the timestamp it looks at. */
  datatype Meter<!R> = Meter(stamp: R -> int, calculate: (R, R) -> Verdict)

  ghost function SystemMeter(): Meter<SystemTime> {
    Meter((r: SystemTime) => r.timestamp, CalculateSystemCpuLoad)
  }

  ghost function ProcessMeter(): Meter<ProcessTime> {
    Meter((r: ProcessTime) => r.timestamp, CalculateProcessCpuLoad)
  }

  /** The verdicts about elapsed time depend on the timestamps alone. */
  ghost predicate Sound<R(!new)>(m: Meter<R>) {
    forall end, start ::
      var d, v := ComputeTimeInterval(m.stamp(end), m.stamp(start)), m.calculate(end, start);
      (v.ElapsedTimeNegative? <==> d < 0) && (v.ElapsedTimeTooSmall? <==> 0 <= d < MINIMUM_CPU_LOAD_INTERVAL)
  }

  lemma MetersAreSound()
    ensures Sound(SystemMeter()) && Sound(ProcessMeter())
  {
    hide ComputeTimeInterval;
  }

  ghost predicate Run<R(!new)>(m: Meter<R>, states: seq<History<R>>, readings: seq<Reading<R>>) {
    && |states| == |readings| + 1 && states[0].status == NoHistory && states[0].negativeCount == 0
    && forall n :: 0 <= n < |readings| ==> states[n + 1] == Called(states[n], readings[n], m.calculate)
  }

  // ---- in every run ----

  /** The count of negative elapsed times never exceeds the maximum. */
  lemma {:induction false} CountBounded<R(!new)>(m: Meter<R>, states: seq<History<R>>, readings: seq<Reading<R>>,
                                                 n: nat)
    requires Run(m, states, readings) && n <= |readings|
    ensures states[n].negativeCount <= 3
  {
    if n > 0 {
      CountBounded(m, states, readings, n - 1);
    }
  }

  /** Once the platform has denied a sample, nothing changes and no load is ever available again. */
  lemma {:induction false} DenialIsFinal<R(!new)>(m: Meter<R>, states: seq<History<R>>, readings: seq<Reading<R>>,
                                                  n: nat, k: nat)
    requires Run(m, states, readings) && n <= k <= |readings| && !Calls(states[n].status)
    ensures states[k] == states[n]
    ensures k < |readings| ==> Answer(states[k], readings[k], m.calculate) == (NotAvailable, None)
    decreases k
  {
    if n < k {
      DenialIsFinal(m, states, readings, n, k - 1);
      assert states[k] == Called(states[k - 1], readings[k - 1], m.calculate);
    }
  }

  /** A load that is returned was measured against a remembered sample at least the minimum interval older. */
  lemma LoadIsMeasured<R(!new)>(m: Meter<R>, h: History<R>, newest: R)
    requires Sound(m) && Answer(h, Sample(newest), m.calculate).0 == ErrorNone
    ensures exists base ::
      && (base == h.oldest || base == h.interim)
      && m.calculate(newest, base).Ok?
      && Answer(h, Sample(newest), m.calculate).1 == Some(m.calculate(newest, base).load)
      && MINIMUM_CPU_LOAD_INTERVAL <= ComputeTimeInterval(m.stamp(newest), m.stamp(base))
  {
    hide ComputeTimeInterval;
    var base := if m.calculate(newest, h.interim).Ok? then h.interim else h.oldest;
    assert m.calculate(newest, base).Ok?;
  }

  /** Hence every system load that is returned lies between 0 and 1. */
  lemma SystemLoadIsShare(h: History<SystemTime>, newest: SystemTime)
    requires Answer(h, Sample(newest), CalculateSystemCpuLoad).0 == ErrorNone
    ensures var load := Answer(h, Sample(newest), CalculateSystemCpuLoad).1; load.Some? && 0.0 <= load.value <= 1.0
  {
    hide CalculateSystemCpuLoad;
    SystemLoadInRange(newest, h.interim);
    SystemLoadInRange(newest, h.oldest);
  }

  // ---- while timestamps stay within half the timer's range ----

  /** All samples were taken within 2^63 ns, in whatever order. */
  ghost predicate Window<R(!new)>(m: Meter<R>, readings: seq<Reading<R>>, base: int) {
    forall n :: 0 <= n < |readings| && readings[n].Sample? ==> Within(m.stamp(readings[n].record), base)
  }

  predicate Within(stamp: int, base: int) {
    base <= stamp < base + TWO_63
  }

  lemma WithinWindow(end: int, start: int, base: int)
    requires Within(end, base) && Within(start, base)
    ensures ComputeTimeInterval(end, start) == end - start
  {
    hide ComputeTimeInterval;
    IntervalIsDifference(end, start);
    Int64ExactIff(end - start);
  }

  /** Elapsed time is the difference of the timestamps, and the oldest sample is older than the interim sample,
      give or take the minimum interval. */
  ghost predicate Ordered<R(!new)>(m: Meter<R>, h: History<R>, base: int) {
    h.status == Supported ==>
      && Within(m.stamp(h.oldest), base) && Within(m.stamp(h.interim), base)
      && m.stamp(h.oldest) < m.stamp(h.interim) + MINIMUM_CPU_LOAD_INTERVAL
  }

  ghost predicate Judged<R(!new)>(m: Meter<R>, newest: R, start: R) {
    var d, v := m.stamp(newest) - m.stamp(start), m.calculate(newest, start);
    (v.ElapsedTimeNegative? <==> d < 0) && (v.ElapsedTimeTooSmall? <==> 0 <= d < MINIMUM_CPU_LOAD_INTERVAL)
  }

  lemma JudgedWithin<R(!new)>(m: Meter<R>, newest: R, start: R, base: int)
    requires Sound(m) && Within(m.stamp(newest), base) && Within(m.stamp(start), base)
    ensures Judged(m, newest, start)
  {
    hide ComputeTimeInterval;
    WithinWindow(m.stamp(newest), m.stamp(start), base);
  }

  lemma OrderedStep<R(!new)>(m: Meter<R>, h: History<R>, reading: Reading<R>, base: int)
    requires Sound(m) && Ordered(m, h, base)
    requires reading.Sample? ==> Within(m.stamp(reading.record), base)
    ensures Ordered(m, Called(h, reading, m.calculate), base)
  {
    hide Sound, Within;
    if h.status == Supported && reading.Sample? {
      JudgedWithin(m, reading.record, h.interim, base);
      JudgedWithin(m, reading.record, h.oldest, base);
    }
  }

  /** In every reachable history the oldest timestamp is below the interim timestamp plus the minimum interval. */
  lemma {:induction false} OldestBeforeInterim<R(!new)>(m: Meter<R>, states: seq<History<R>>, readings: seq<Reading<R>>,
                                                        base: int, n: nat)
    requires Sound(m) && Run(m, states, readings) && Window(m, readings, base) && n <= |readings|
    ensures Ordered(m, states[n], base)
  {
    hide Sound, Within;
    if n > 0 {
      OldestBeforeInterim(m, states, readings, base, n - 1);
      OrderedStep(m, states[n - 1], readings[n - 1], base);
    }
  }

  // ---- recovery ----

  /** From call `from` on the clock runs forward, samples are available, and the CPU time is never found to have
      decreased. */
  ghost predicate Forward<R(!new)>(m: Meter<R>, states: seq<History<R>>, readings: seq<Reading<R>>, from: nat)
    requires |states| == |readings| + 1
  {
    && (forall k :: from <= k < |readings| ==> readings[k].Sample?)
    && (forall k :: from < k < |readings| ==> Advances(m, readings, k))
    && (forall k :: from <= k < |readings| ==> Steady(m, states[k], readings[k].record))
  }

  ghost predicate Advances<R(!new)>(m: Meter<R>, readings: seq<Reading<R>>, k: nat)
    requires 0 < k < |readings| && readings[k - 1].Sample? && readings[k].Sample?
  {
    m.stamp(readings[k - 1].record) <= m.stamp(readings[k].record)
  }

  ghost predicate Steady<R(!new)>(m: Meter<R>, h: History<R>, newest: R) {
    !m.calculate(newest, h.interim).NegativeInterval? && !m.calculate(newest, h.oldest).NegativeInterval?
  }

  /** The oldest sample is not ahead of the clock. */
  predicate Behind<R(!new)>(m: Meter<R>, h: History<R>, now: R) {
    m.stamp(h.oldest) <= m.stamp(now)
  }

  /** One call on a steady history: a fresh or older oldest sample, or one more negative elapsed time; once the
      oldest sample is not ahead it succeeds as soon as the minimum interval has passed. */
  lemma SteadyCall<R(!new)>(m: Meter<R>, h: History<R>, newest: R, base: int)
    requires Sound(m) && Ordered(m, h, base) && h.status == Supported
        && h.negativeCount <= MAXIMUM_NEGATIVE_ELAPSED_TIME_COUNT
    requires Within(m.stamp(newest), base) && Steady(m, h, newest)
    ensures var next := Called(h, Sample(newest), m.calculate);
            && next.status == Supported
            && (Behind(m, next, newest)
                || (!Behind(m, h, newest) && next.oldest == h.oldest
                    && h.negativeCount < MAXIMUM_NEGATIVE_ELAPSED_TIME_COUNT
                    && next.negativeCount == h.negativeCount + 1))
    ensures MINIMUM_CPU_LOAD_INTERVAL <= m.stamp(newest) - m.stamp(h.oldest) ==>
              Answer(h, Sample(newest), m.calculate).0 == ErrorNone
  {
    hide Sound, Within;
    JudgedWithin(m, newest, h.interim, base);
    JudgedWithin(m, newest, h.oldest, base);
  }

  /** After `k` calls the oldest sample is no longer ahead, or each call has counted one more. */
  lemma {:induction false} CountsUntilBehind<R(!new)>(m: Meter<R>, states: seq<History<R>>, readings: seq<Reading<R>>,
                                                      base: int, from: nat, k: nat)
    requires Sound(m) && Run(m, states, readings) && Window(m, readings, base) && Forward(m, states, readings, from)
    requires from < k <= |readings| && states[from].status == Supported
    ensures states[k].status == Supported
    ensures Behind(m, states[k], readings[k - 1].record) || states[k].negativeCount >= k - from
    decreases k
  {
    hide Sound, Within, Steady, Called;
    OldestBeforeInterim(m, states, readings, base, k - 1);
    CountBounded(m, states, readings, k - 1);
    if k - 1 > from {
      CountsUntilBehind(m, states, readings, base, from, k - 1);
      assert Advances(m, readings, k - 1);
    }
    assert readings[k - 1].Sample? && readings[k - 1] == Sample(readings[k - 1].record);
    SteadyCall(m, states[k - 1], readings[k - 1].record, base);
  }

  /** Recovery: however far the clock has jumped back, after four calls the oldest sample is not ahead of the
      clock, and from then on every call at least the minimum interval after it succeeds. */
  lemma RecoveryInFour<R(!new)>(m: Meter<R>, states: seq<History<R>>, readings: seq<Reading<R>>, base: int, from: nat,
                                k: nat)
    requires Sound(m) && Run(m, states, readings) && Window(m, readings, base) && Forward(m, states, readings, from)
    requires from + 4 <= k <= |readings| && states[from].status == Supported
    ensures Behind(m, states[k], readings[k - 1].record)
    ensures k < |readings| && MINIMUM_CPU_LOAD_INTERVAL <= m.stamp(readings[k].record) - m.stamp(states[k].oldest) ==>
              Answer(states[k], readings[k], m.calculate).0 == ErrorNone
  {
    hide Sound, Within, Steady, Called, Answer;
    CountsUntilBehind(m, states, readings, base, from, k);
    CountBounded(m, states, readings, k);
    OldestBeforeInterim(m, states, readings, base, k);
    if k < |readings| {
      assert readings[k] == Sample(readings[k].record);
      SteadyCall(m, states[k], readings[k].record, base);
    }
  }

  // ---- the system load ----

  /** The CPU time of the samples, in the order of the calls, never decreases. */
  ghost predicate CpuTimeGrows(readings: seq<Reading<SystemTime>>) {
    forall i, j :: 0 <= i < j < |readings| && readings[i].Sample? && readings[j].Sample? ==>
      readings[i].record.cpuTime <= readings[j].record.cpuTime
  }

  ghost predicate AtMost(h: History<SystemTime>, cpuTime: int) {
    h.status == Supported ==> h.oldest.cpuTime <= cpuTime && h.interim.cpuTime <= cpuTime
  }

  lemma {:induction false} RememberedAtMost(states: seq<History<SystemTime>>, readings: seq<Reading<SystemTime>>,
                                            n: nat, cpuTime: int)
    requires Run(SystemMeter(), states, readings) && CpuTimeGrows(readings) && n <= |readings|
    requires forall k :: 0 <= k < n && readings[k].Sample? ==> readings[k].record.cpuTime <= cpuTime
    ensures AtMost(states[n], cpuTime)
  {
    hide CalculateSystemCpuLoad;
    if n > 0 {
      RememberedAtMost(states, readings, n - 1, cpuTime);
    }
  }

  /** Recovery of the system load, stated about the samples alone: the clock may have done anything before, the
      CPU time has only grown. */
  lemma SystemRecovery(states: seq<History<SystemTime>>, readings: seq<Reading<SystemTime>>, base: int, from: nat,
                       k: nat)
    requires Run(SystemMeter(), states, readings) && Window(SystemMeter(), readings, base) && CpuTimeGrows(readings)
    requires forall i :: from <= i < |readings| ==> readings[i].Sample?
    requires forall i :: from < i < |readings| ==> readings[i - 1].record.timestamp <= readings[i].record.timestamp
    requires from + 4 <= k < |readings| && states[from].status == Supported
    requires MINIMUM_CPU_LOAD_INTERVAL <= readings[k].record.timestamp - states[k].oldest.timestamp
    ensures Answer(states[k], readings[k], CalculateSystemCpuLoad).0 == ErrorNone
  {
    hide Called, Answer;
    MetersAreSound();
    var m := SystemMeter();
    forall i | from <= i < |readings|
      ensures Steady(m, states[i], readings[i].record)
    {
      StaysSupported(states, readings, from, i);
      RememberedAtMost(states, readings, i, readings[i].record.cpuTime);
      NotNegative(readings[i].record, states[i]);
    }
    forall i | from < i < |readings|
      ensures Advances(m, readings, i)
    {
    }
    RecoveryInFour(m, states, readings, base, from, k);
  }

  lemma NotNegative(newest: SystemTime, h: History<SystemTime>)
    requires h.oldest.cpuTime <= newest.cpuTime && h.interim.cpuTime <= newest.cpuTime
    ensures Steady(SystemMeter(), h, newest)
  {
  }

  lemma {:induction false} StaysSupported(states: seq<History<SystemTime>>, readings: seq<Reading<SystemTime>>,
                                          from: nat, n: nat)
    requires Run(SystemMeter(), states, readings) && from <= n <= |readings| && states[from].status == Supported
    requires forall i :: from <= i < n ==> readings[i].Sample?
    ensures states[n].status == Supported
    decreases n
  {
    hide CalculateSystemCpuLoad;
    if from < n {
      StaysSupported(states, readings, from, n - 1);
    }
  }

  // ---- what does not hold ----

  /** Three calls are not enough: the oldest sample can still be ahead of the clock. */
  lemma ThreeAreNotEnough()
    ensures var h := History(Supported, SystemTime(5_000_000, 0, 1), SystemTime(5_000_000, 0, 1), 0);
            var now := SystemTime(0, 0, 1);
            var after := Called(Called(Called(h, Sample(now), CalculateSystemCpuLoad),
                                       Sample(now), CalculateSystemCpuLoad), Sample(now), CalculateSystemCpuLoad);
            !Behind(SystemMeter(), after, now) && after.negativeCount == 3
  {
    hide ComputeTimeInterval;
    WithinWindow(0, 5_000_000, 0);
  }

  // ---- when the count is that of consecutive results ----

  /** The call measures an elapsed time: samples are remembered and a new one is available. */
  ghost predicate Measures<R(!new)>(h: History<R>, reading: Reading<R>) {
    h.status == Supported && reading.Sample?
  }

  /** The call succeeds against the interim sample. */
  ghost predicate InterimSuccess<R(!new)>(m: Meter<R>, h: History<R>, reading: Reading<R>) {
    Measures(h, reading) && m.calculate(reading.record, h.interim).Ok?
  }

  /** The call finds negative elapsed time against the oldest sample. */
  ghost predicate Negative<R(!new)>(m: Meter<R>, h: History<R>, reading: Reading<R>) {
    && Measures(h, reading) && !m.calculate(reading.record, h.interim).Ok?
    && m.calculate(reading.record, h.oldest).ElapsedTimeNegative?
  }

  /** How many of the calls that measured, counted back from call `n`, found negative elapsed time in a row, since
      the last time that a fresh oldest sample was adopted for it. */
  ghost function Streak<R(!new)>(m: Meter<R>, states: seq<History<R>>, readings: seq<Reading<R>>, n: nat): nat
    requires n <= |readings| <= |states|
  {
    if n == 0 then 0
    else if !Measures(states[n - 1], readings[n - 1]) then Streak(m, states, readings, n - 1)
    else if !Negative(m, states[n - 1], readings[n - 1]) then 0
    else if Streak(m, states, readings, n - 1) == MAXIMUM_NEGATIVE_ELAPSED_TIME_COUNT then 0
    else Streak(m, states, readings, n - 1) + 1
  }

  /** A call that succeeds against the interim sample while negative results are counted keeps their count. */
  ghost predicate KeepsStaleCount<R(!new)>(m: Meter<R>, h: History<R>, reading: Reading<R>) {
    h.negativeCount > 0 && InterimSuccess(m, h, reading)
  }

  ghost predicate CountsAreStreaks<R(!new)>(m: Meter<R>, states: seq<History<R>>, readings: seq<Reading<R>>, n: nat)
    requires n <= |readings| < |states|
  {
    forall k :: 0 <= k <= n ==> states[k].negativeCount == Streak(m, states, readings, k)
  }

  lemma StreakStep<R(!new)>(m: Meter<R>, states: seq<History<R>>, readings: seq<Reading<R>>, n: nat)
    requires Run(m, states, readings) && n < |readings|
    requires states[n].negativeCount == Streak(m, states, readings, n)
    ensures states[n + 1].negativeCount == Streak(m, states, readings, n + 1)
        <==> !KeepsStaleCount(m, states[n], readings[n])
  {
    assert states[n + 1] == Called(states[n], readings[n], m.calculate);
  }

  lemma {:induction false} StreaksUpTo<R(!new)>(m: Meter<R>, states: seq<History<R>>, readings: seq<Reading<R>>, n: nat)
    requires Run(m, states, readings) && n <= |readings|
    requires forall k :: 0 <= k < n ==> !KeepsStaleCount(m, states[k], readings[k])
    ensures CountsAreStreaks(m, states, readings, n)
  {
    if n > 0 {
      StreaksUpTo(m, states, readings, n - 1);
      StreakStep(m, states, readings, n - 1);
    }
  }

  /** The counter is described as counting consecutive negative elapsed times. It does so in every state of a run
      if and only if no call of the run succeeds against the interim sample while the counter is not 0. */
  lemma CountIsStreakIff<R(!new)>(m: Meter<R>, states: seq<History<R>>, readings: seq<Reading<R>>)
    requires Run(m, states, readings)
    ensures CountsAreStreaks(m, states, readings, |readings|)
       <==> forall k :: 0 <= k < |readings| ==> !KeepsStaleCount(m, states[k], readings[k])
  {
    hide KeepsStaleCount, Streak;
    if forall k :: 0 <= k < |readings| ==> !KeepsStaleCount(m, states[k], readings[k]) {
      StreaksUpTo(m, states, readings, |readings|);
    } else {
      var k :| 0 <= k < |readings| && KeepsStaleCount(m, states[k], readings[k]);
      if CountsAreStreaks(m, states, readings, |readings|) {
        StreakStep(m, states, readings, k);
      }
    }
  }

  /** The oldest sample is given up for negative elapsed time. */
  ghost predicate GivesUp<R(!new)>(m: Meter<R>, h: History<R>, reading: Reading<R>) {
    Negative(m, h, reading) && h.negativeCount == MAXIMUM_NEGATIVE_ELAPSED_TIME_COUNT
  }

  /** In such runs the oldest sample is given up only after three negative results in a row before the present one. */
  lemma GivenUpAfterStreak<R(!new)>(m: Meter<R>, states: seq<History<R>>, readings: seq<Reading<R>>, n: nat)
    requires Run(m, states, readings) && n < |readings| && GivesUp(m, states[n], readings[n])
    requires forall k :: 0 <= k < n ==> !KeepsStaleCount(m, states[k], readings[k])
    ensures Streak(m, states, readings, n) == MAXIMUM_NEGATIVE_ELAPSED_TIME_COUNT
    ensures states[n + 1].oldest == readings[n].record
  {
    StreaksUpTo(m, states, readings, n);
  }

  /** Otherwise it can be given up at once: three calls with the clock back, one that succeeds ahead, and the next
      call with the clock back discards the oldest sample, although the result before it was a success. */
  lemma GivenUpTooSoon()
    ensures exists states: seq<History<SystemTime>>, readings: seq<Reading<SystemTime>> ::
      && Run(SystemMeter(), states, readings) && |readings| == 6
      && Answer(states[4], readings[4], CalculateSystemCpuLoad) == (ErrorNone, Some(0.0))
      && Streak(SystemMeter(), states, readings, 5) == 0
      && GivesUp(SystemMeter(), states[5], readings[5])
      && states[6].oldest == readings[5].record != states[5].oldest
  {
    hide ComputeTimeInterval;
    WithinWindow(0, 5_000_000, 0);
    WithinWindow(9_000_000, 5_000_000, 0);
    WithinWindow(0, 9_000_000, 0);
    var first, back, ahead := SystemTime(5_000_000, 0, 1), SystemTime(0, 0, 1), SystemTime(9_000_000, 0, 1);
    var none := SystemTime(0, 0, 1);
    var readings := [Sample(first), Sample(back), Sample(back), Sample(back), Sample(ahead), Sample(back)];
    var states := [
      History(NoHistory, none, none, 0),
      History(Supported, first, first, 0),
      History(Supported, first, first, 1),
      History(Supported, first, first, 2),
      History(Supported, first, first, 3),
      History(Supported, first, ahead, 3),
      History(Supported, back, ahead, 0)
    ];
    assert Run(SystemMeter(), states, readings);
    assert InterimSuccess(SystemMeter(), states[4], readings[4]);
    assert Streak(SystemMeter(), states, readings, 5) == 0;
    assert GivesUp(SystemMeter(), states[5], readings[5]);
  }
}

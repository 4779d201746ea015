/** What the CPU-load calls answer, in terms of the samples that were taken, for both loads and over every run. */
module CpuAnswers {
  import opened Options
  import opened Words
  import opened CpuLoad
  import opened CpuHistory

  // ---- the number that is returned ----

  /** `load` is the part that `used` is of all the time that `cpus` CPUs had in `gap`, cut off at 1. */
  predicate IsShare(load: real, used: int, cpus: CpuCount, gap: int) {
    var all := cpus * gap;
    if used <= all then load * all as real == used as real else load == 1.0
  }

  lemma ShareIsShare(used: int, cpus: CpuCount, gap: int)
    requires gap > 0
    ensures IsShare(Share(used, cpus, gap), used, cpus, gap)
  {
    var all := cpus * gap;
    assert all > 0;
    var q := used as real / all as real;
    assert q * all as real == used as real;
    if used > all {
      assert q > 1.0;
    }
  }

  /** The verdict on two system samples taken within 2^63 ns. */
  lemma SystemVerdict(end: SystemTime, start: SystemTime, base: int)
    requires Within(end.timestamp, base) && Within(start.timestamp, base)
    ensures var gap, used := end.timestamp - start.timestamp, end.cpuTime - start.cpuTime;
            var v := CalculateSystemCpuLoad(end, start);
      && (v.ElapsedTimeNegative? <==> gap < 0)
      && (v.ElapsedTimeTooSmall? <==> 0 <= gap < 1_000_000)
      && (v.NegativeInterval? <==> 1_000_000 <= gap && used < 0)
      && (v.Ok? ==> IsShare(v.load, used, end.numberOfCpus, gap))
  {
    hide ComputeTimeInterval, Share, IsShare, Within;
    WithinWindow(end.timestamp, start.timestamp, base);
    var gap := end.timestamp - start.timestamp;
    if gap > 0 {
      ShareIsShare(end.cpuTime - start.cpuTime, end.numberOfCpus, gap);
    }
  }

  /** The CPU times of a process fit the signed 64-bit fields that hold them. */
  predicate Counted(r: ProcessTime) {
    0 <= r.systemCpuTime < TWO_63 && 0 <= r.userCpuTime < TWO_63
  }

  /** What a process used between two samples, in user mode and for itself by the system. */
  function UsedBetween(end: ProcessTime, start: ProcessTime): int {
    (end.systemCpuTime + end.userCpuTime) - (start.systemCpuTime + start.userCpuTime)
  }

  /** The verdict on two process samples: only a user time that decreased makes the interval negative, and a process
      that used more than 2^63 ns counts as fully loaded. */
  lemma ProcessVerdict(end: ProcessTime, start: ProcessTime, base: int)
    requires Within(end.timestamp, base) && Within(start.timestamp, base) && Counted(end) && Counted(start)
    ensures var gap, used := end.timestamp - start.timestamp, UsedBetween(end, start);
            var v := CalculateProcessCpuLoad(end, start);
      && (v.ElapsedTimeNegative? <==> gap < 0)
      && (v.ElapsedTimeTooSmall? <==> 0 <= gap < 1_000_000)
      && (v.NegativeInterval? <==> 1_000_000 <= gap && end.userCpuTime < start.userCpuTime)
      && (v.Ok? ==> if used < TWO_63 then IsShare(v.load, used, end.numberOfCpus, gap) else v.load == 1.0)
  {
    hide ComputeTimeInterval, Share, IsShare, Within;
    WithinWindow(end.timestamp, start.timestamp, base);
    var gap, used := end.timestamp - start.timestamp, UsedBetween(end, start);
    if gap > 0 && start.userCpuTime <= end.userCpuTime {
      assert Int64(used) == if used < TWO_63 then used else used - TWO_64;
      ShareIsShare(used, end.numberOfCpus, gap);
    }
  }

  // ---- what a call answers ----

  /** A system load against the interim sample, or else against the oldest, when at least 1,000,000 ns and no negative
      CPU time have passed since; an internal error when the CPU time fell below that of the oldest; otherwise the
      caller is asked to try again. */
  lemma SystemAnswer(h: History<SystemTime>, newest: SystemTime, base: int)
    requires h.status == Supported && Within(newest.timestamp, base)
    requires Within(h.interim.timestamp, base) && Within(h.oldest.timestamp, base)
    ensures var (rc, load) := Answer(h, Sample(newest), CalculateSystemCpuLoad);
            var gap, used := newest.timestamp - h.interim.timestamp, newest.cpuTime - h.interim.cpuTime;
            var longGap, longUsed := newest.timestamp - h.oldest.timestamp, newest.cpuTime - h.oldest.cpuTime;
      && (rc == ErrorNone <==> load.Some?)
      && (if 1_000_000 <= gap && 0 <= used
          then load.Some? && IsShare(load.value, used, newest.numberOfCpus, gap)
          else if 1_000_000 <= longGap && 0 <= longUsed
          then load.Some? && IsShare(load.value, longUsed, newest.numberOfCpus, longGap)
          else rc == if 1_000_000 <= longGap then Internal else Retry)
  {
    hide CalculateSystemCpuLoad, IsShare, Within;
    SystemVerdict(newest, h.interim, base);
    SystemVerdict(newest, h.oldest, base);
  }

  /** The process load in the same way; only a user time that fell is noticed. */
  lemma ProcessAnswer(h: History<ProcessTime>, newest: ProcessTime, base: int)
    requires h.status == Supported && Within(newest.timestamp, base)
    requires Within(h.interim.timestamp, base) && Within(h.oldest.timestamp, base)
    requires Counted(newest) && Counted(h.interim) && Counted(h.oldest)
    ensures var (rc, load) := Answer(h, Sample(newest), CalculateProcessCpuLoad);
            var gap, longGap := newest.timestamp - h.interim.timestamp, newest.timestamp - h.oldest.timestamp;
      && (rc == ErrorNone <==> load.Some?)
      && (if 1_000_000 <= gap && h.interim.userCpuTime <= newest.userCpuTime
          then load.Some? && IsProcessShare(load.value, newest, h.interim)
          else if 1_000_000 <= longGap && h.oldest.userCpuTime <= newest.userCpuTime
          then load.Some? && IsProcessShare(load.value, newest, h.oldest)
          else rc == if 1_000_000 <= longGap then Internal else Retry)
  {
    hide CalculateProcessCpuLoad, IsShare, Within;
    ProcessVerdict(newest, h.interim, base);
    ProcessVerdict(newest, h.oldest, base);
  }

  predicate IsProcessShare(load: real, end: ProcessTime, start: ProcessTime) {
    var used := UsedBetween(end, start);
    if used < TWO_63 then IsShare(load, used, end.numberOfCpus, end.timestamp - start.timestamp) else load == 1.0
  }

  // ---- what is remembered ----

  /** In every run: there is no history before the first call, the calls are supported while every sample was
      available, and otherwise the first denial says why they are not. */
  lemma {:induction false} StatusTellsDenials<R(!new)>(m: Meter<R>, states: seq<History<R>>, readings: seq<Reading<R>>,
                                                       n: nat)
    requires Run(m, states, readings) && n <= |readings|
    ensures states[n].status == NoHistory <==> n == 0
    ensures states[n].status == Supported <==> 0 < n && forall k :: 0 <= k < n ==> readings[k].Sample?
    ensures states[n].status.Unavailable? ==>
      exists k :: 0 <= k < n && readings[k] == Denied(states[n].status.why)
                  && forall l :: 0 <= l < k ==> readings[l].Sample?
  {
    if n > 0 {
      StatusTellsDenials(m, states, readings, n - 1);
      assert states[n] == Called(states[n - 1], readings[n - 1], m.calculate);
    }
  }

  /** The call adopts its sample as the interim sample: it is the first, or it was measured against the interim sample
      with enough time in between, whether or not the CPU time had fallen. */
  ghost predicate AdoptsInterim<R(!new)>(m: Meter<R>, h: History<R>, reading: Reading<R>) {
    && reading.Sample? && !h.status.Unavailable?
    && (h.status.NoHistory? || m.calculate(reading.record, h.interim).Ok?
        || m.calculate(reading.record, h.interim).NegativeInterval?)
  }

  /** The call measures a load against the interim sample, which becomes the oldest. */
  ghost predicate PassesOn<R(!new)>(m: Meter<R>, h: History<R>, reading: Reading<R>) {
    reading.Sample? && h.status == Supported && m.calculate(reading.record, h.interim).Ok?
  }

  /** The call adopts its sample as the oldest: it is the first, or there was nothing to measure against the interim
      sample and the oldest is useless, because its CPU time was higher or because of three negative times before. */
  ghost predicate StartsOver<R(!new)>(m: Meter<R>, h: History<R>, reading: Reading<R>) {
    && reading.Sample? && !h.status.Unavailable?
    && (h.status.NoHistory?
        || (!m.calculate(reading.record, h.interim).Ok?
            && (m.calculate(reading.record, h.oldest).NegativeInterval?
                || (m.calculate(reading.record, h.oldest).ElapsedTimeNegative? && h.negativeCount == 3))))
  }

  /** The interim sample is that of the last call that adopted one. */
  ghost predicate InterimFrom<R(!new)>(m: Meter<R>, states: seq<History<R>>, readings: seq<Reading<R>>, n: nat, k: nat)
    requires n <= |readings| < |states|
  {
    && k < n && readings[k].Sample? && AdoptsInterim(m, states[k], readings[k])
    && states[n].interim == readings[k].record
    && forall l :: k < l < n ==> !AdoptsInterim(m, states[l], readings[l])
  }

  /** The oldest sample is what the last call that changed it made of it. */
  ghost predicate OldestFrom<R(!new)>(m: Meter<R>, states: seq<History<R>>, readings: seq<Reading<R>>, n: nat, k: nat)
    requires n <= |readings| < |states|
  {
    && k < n && readings[k].Sample?
    && (if StartsOver(m, states[k], readings[k]) then states[n].oldest == readings[k].record
        else PassesOn(m, states[k], readings[k]) && states[n].oldest == states[k].interim)
    && forall l :: k < l < n ==> !StartsOver(m, states[l], readings[l]) && !PassesOn(m, states[l], readings[l])
  }

  /** How one call changes what is remembered. */
  lemma CallRemembers<R(!new)>(m: Meter<R>, h: History<R>, reading: Reading<R>)
    ensures var next := Called(h, reading, m.calculate);
      && next.interim == (if AdoptsInterim(m, h, reading) then reading.record else h.interim)
      && next.oldest == (if StartsOver(m, h, reading) then reading.record
                         else if PassesOn(m, h, reading) then h.interim else h.oldest)
  {
  }

  /** In every run, from the first sample on, both remembered samples are the ones the last adopting calls left. */
  lemma {:induction false} RememberedFrom<R(!new)>(m: Meter<R>, states: seq<History<R>>, readings: seq<Reading<R>>,
                                                   n: nat)
    requires Run(m, states, readings) && n <= |readings| && states[n].status == Supported
    ensures exists k: nat :: InterimFrom(m, states, readings, n, k)
    ensures exists k: nat :: OldestFrom(m, states, readings, n, k)
  {
    hide AdoptsInterim, StartsOver, PassesOn;
    StatusTellsDenials(m, states, readings, n);
    var c := n - 1;
    assert states[n] == Called(states[c], readings[c], m.calculate);
    CallRemembers(m, states[c], readings[c]);
    StatusTellsDenials(m, states, readings, c);
    if c == 0 {
      FirstAdopts(m, states[0], readings[0]);
      assert InterimFrom(m, states, readings, n, 0) && OldestFrom(m, states, readings, n, 0);
    } else {
      RememberedFrom(m, states, readings, c);
      var i: nat :| InterimFrom(m, states, readings, c, i);
      var o: nat :| OldestFrom(m, states, readings, c, o);
      assert InterimFrom(m, states, readings, n, if AdoptsInterim(m, states[c], readings[c]) then c else i);
      var moved := StartsOver(m, states[c], readings[c]) || PassesOn(m, states[c], readings[c]);
      assert OldestFrom(m, states, readings, n, if moved then c else o);
    }
  }

  lemma FirstAdopts<R(!new)>(m: Meter<R>, h: History<R>, reading: Reading<R>)
    requires h.status == NoHistory && reading.Sample?
    ensures AdoptsInterim(m, h, reading) && StartsOver(m, h, reading)
  {
  }

  /** Some earlier call of the run took this sample. */
  ghost predicate Taken<R(!new)>(readings: seq<Reading<R>>, n: nat, record: R)
    requires n <= |readings|
  {
    exists k :: 0 <= k < n && readings[k] == Sample(record)
  }

  lemma {:induction false} RememberedWereTaken<R(!new)>(m: Meter<R>, states: seq<History<R>>, readings: seq<Reading<R>>,
                                                        n: nat)
    requires Run(m, states, readings) && n <= |readings| && states[n].status == Supported
    ensures Taken(readings, n, states[n].interim) && Taken(readings, n, states[n].oldest)
    decreases n
  {
    hide AdoptsInterim, StartsOver;
    RememberedFrom(m, states, readings, n);
    var i: nat :| InterimFrom(m, states, readings, n, i);
    assert readings[i] == Sample(states[n].interim);
    var o: nat :| OldestFrom(m, states, readings, n, o);
    if StartsOver(m, states[o], readings[o]) {
      assert readings[o] == Sample(states[n].oldest);
    } else {
      RememberedWereTaken(m, states, readings, o);
      var k :| 0 <= k < o && readings[k] == Sample(states[o].interim);
      assert readings[k] == Sample(states[n].oldest);
    }
  }

  /** The calls that cannot measure: the first one that gets a sample asks the caller to try again, and from the first
      denial on every call answers that the load is not available. */
  lemma NothingToMeasure<R(!new)>(m: Meter<R>, states: seq<History<R>>, readings: seq<Reading<R>>, n: nat)
    requires Run(m, states, readings) && n < |readings|
    ensures n == 0 && readings[0].Sample? ==> Answer(states[n], readings[n], m.calculate) == (Retry, None)
    ensures (exists k :: 0 <= k <= n && readings[k].Denied?) ==>
              Answer(states[n], readings[n], m.calculate) == (NotAvailable, None)
  {
    StatusTellsDenials(m, states, readings, n);
  }

  /** Every system load that any run returns is the share of the CPUs' time used between two of its samples, taken at
      least 1,000,000 ns apart. */
  lemma SystemLoadIsMeasured(states: seq<History<SystemTime>>, readings: seq<Reading<SystemTime>>, base: int, n: nat)
    requires Run(SystemMeter(), states, readings) && Window(SystemMeter(), readings, base) && n < |readings|
    requires Answer(states[n], readings[n], CalculateSystemCpuLoad).0 == ErrorNone
    ensures readings[n].Sample? && Answer(states[n], readings[n], CalculateSystemCpuLoad).1.Some?
    ensures var end, load := readings[n].record, Answer(states[n], readings[n], CalculateSystemCpuLoad).1.value;
      exists start :: Taken(readings, n, start)
        && 1_000_000 <= end.timestamp - start.timestamp && 0 <= end.cpuTime - start.cpuTime
        && IsShare(load, end.cpuTime - start.cpuTime, end.numberOfCpus, end.timestamp - start.timestamp)
  {
    hide CalculateSystemCpuLoad, IsShare, Called;
    var m, h := SystemMeter(), states[n];
    StatusTellsDenials(m, states, readings, n);
    RememberedWereTaken(m, states, readings, n);
    TakenWithin(m, readings, base, n, h.interim);
    TakenWithin(m, readings, base, n, h.oldest);
    SystemAnswer(h, readings[n].record, base);
  }

  /** Every process load that any run returns is the share that the process used between two of its samples. */
  lemma ProcessLoadIsMeasured(states: seq<History<ProcessTime>>, readings: seq<Reading<ProcessTime>>, base: int, n: nat)
    requires Run(ProcessMeter(), states, readings) && Window(ProcessMeter(), readings, base) && n < |readings|
    requires forall k :: 0 <= k < |readings| && readings[k].Sample? ==> Counted(readings[k].record)
    requires Answer(states[n], readings[n], CalculateProcessCpuLoad).0 == ErrorNone
    ensures readings[n].Sample? && Answer(states[n], readings[n], CalculateProcessCpuLoad).1.Some?
    ensures var end, load := readings[n].record, Answer(states[n], readings[n], CalculateProcessCpuLoad).1.value;
      exists start :: Taken(readings, n, start)
        && 1_000_000 <= end.timestamp - start.timestamp && start.userCpuTime <= end.userCpuTime
        && IsProcessShare(load, end, start)
  {
    hide CalculateProcessCpuLoad, IsProcessShare, Called, Counted;
    var m, h := ProcessMeter(), states[n];
    StatusTellsDenials(m, states, readings, n);
    RememberedWereTaken(m, states, readings, n);
    TakenWithin(m, readings, base, n, h.interim);
    TakenWithin(m, readings, base, n, h.oldest);
    ProcessAnswer(h, readings[n].record, base);
  }

  lemma TakenWithin<R(!new)>(m: Meter<R>, readings: seq<Reading<R>>, base: int, n: nat, record: R)
    requires Window(m, readings, base) && n <= |readings| && Taken(readings, n, record)
    ensures Within(m.stamp(record), base)
    ensures exists k :: 0 <= k < |readings| && readings[k] == Sample(record)
  {
  }
}

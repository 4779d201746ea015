/** The CPU-load calls: two remembered samples and a counter that let the load recover from clocks that jump. */
module CpuLoad {
  import opened Options
  import opened Words

  const MINIMUM_CPU_LOAD_INTERVAL: int := 1_000_000
  const MAXIMUM_NEGATIVE_ELAPSED_TIME_COUNT: nat := 3

  type CpuCount = n: nat | n > 0 witness 1

  datatype SystemTime = SystemTime(timestamp: int, cpuTime: int, numberOfCpus: CpuCount)

  datatype ProcessTime = ProcessTime(timestamp: int, systemCpuTime: int, userCpuTime: int, numberOfCpus: CpuCount)

  datatype Verdict = Ok(load: real) | ElapsedTimeNegative | ElapsedTimeTooSmall | NegativeInterval

  /** `computeTimeInterval`: unsigned subtraction, read as signed. */
  function ComputeTimeInterval(endNS: int, startNS: int): int {
    Int64(UInt64(UInt64(endNS) - UInt64(startNS)))
  }

  /** The interval is right exactly for gaps of less than 2^63 ns, however often the timer wrapped. */
  lemma IntervalIff(end: int, start: int)
    ensures ComputeTimeInterval(Int64(end), Int64(start)) == end - start <==> -TWO_63 <= end - start < TWO_63
  {
    hide ComputeTimeInterval, Int64;
    IntervalIsDifference(Int64(end), Int64(start));
    Int64Absorbs(end, 0 - Int64(start));
    Int64Negates(end, start);
    Int64ExactIff(end - start);
  }

  lemma Int64ExactIff(x: int)
    ensures Int64(x) == x <==> -TWO_63 <= x < TWO_63
  {
  }

  lemma IntervalIsDifference(end: int, start: int)
    ensures ComputeTimeInterval(end, start) == Int64(end - start)
  {
    var j, k := end / TWO_64, start / TWO_64;
    assert UInt64(end) == end - j * TWO_64 && UInt64(start) == start - k * TWO_64;
    var x := UInt64(end) - UInt64(start);
    assert UInt64(x) == x - (x / TWO_64) * TWO_64;
    Int64Shift(end - start, k - j - x / TWO_64);
  }

  lemma Int64Shift(x: int, k: int)
    ensures Int64(x + k * TWO_64) == Int64(x)
  {
    assert (x + TWO_63 + k * TWO_64) % TWO_64 == (x + TWO_63) % TWO_64;
  }

  lemma Int64Negates(end: int, start: int)
    ensures Int64(end - Int64(start)) == Int64(end - start)
  {
    var k := (start + TWO_63) / TWO_64;
    assert Int64(start) == start - k * TWO_64;
    Int64Shift(end - start, k);
  }

  // ---- one load ----

  function Min(a: real, b: real): real {
    if a < b then a else b
  }

  function CalculateSystemCpuLoad(end: SystemTime, start: SystemTime): Verdict {
    var timestampDelta := ComputeTimeInterval(end.timestamp, start.timestamp);
    if timestampDelta < 0 then ElapsedTimeNegative
    else if timestampDelta < MINIMUM_CPU_LOAD_INTERVAL then ElapsedTimeTooSmall
    else if end.cpuTime < start.cpuTime then NegativeInterval
    else Ok(Share(end.cpuTime - start.cpuTime, end.numberOfCpus, timestampDelta))
  }

  /** The share of the CPUs' time, cut off at 1. */
  function Share(cpuTimeDelta: int, cpus: CpuCount, elapsed: int): real
    requires elapsed > 0
  {
    assert cpus * elapsed > 0;
    Min(cpuTimeDelta as real / (cpus * elapsed) as real, 1.0)
  }

  function CalculateProcessCpuLoad(end: ProcessTime, start: ProcessTime): Verdict {
    var timestampDelta := ComputeTimeInterval(end.timestamp, start.timestamp);
    if timestampDelta < 0 then ElapsedTimeNegative
    else if timestampDelta < MINIMUM_CPU_LOAD_INTERVAL then ElapsedTimeTooSmall
    else if end.userCpuTime < start.userCpuTime then NegativeInterval
    else
      var systemCpuTimeDelta := end.systemCpuTime - start.systemCpuTime;
      var userCpuTimeDelta := end.userCpuTime - start.userCpuTime;
      var processTimeDelta := Int64(systemCpuTimeDelta + userCpuTimeDelta);
      if processTimeDelta < systemCpuTimeDelta then Ok(1.0)
      else Ok(Share(processTimeDelta, end.numberOfCpus, timestampDelta))
  }

  lemma ShareRange(delta: int, cpus: CpuCount, elapsed: int)
    requires elapsed > 0
    ensures 0.0 <= Share(delta, cpus, elapsed) <==> 0 <= delta
    ensures Share(delta, cpus, elapsed) <= 1.0
  {
    var d, q := cpus * elapsed, delta as real / (cpus * elapsed) as real;
    assert d > 0;
    assert q * d as real == delta as real;
  }

  /** A system load lies between 0 and 1. */
  lemma SystemLoadInRange(end: SystemTime, start: SystemTime)
    ensures var v := CalculateSystemCpuLoad(end, start); v.Ok? ==> 0.0 <= v.load <= 1.0
  {
    var v := CalculateSystemCpuLoad(end, start);
    if v.Ok? {
      ShareRange(end.cpuTime - start.cpuTime, end.numberOfCpus, ComputeTimeInterval(end.timestamp, start.timestamp));
    }
  }

  /** A process load is at most 1, but not negative exactly when system and user time together did not decrease:
      only the user time is checked. */
  lemma ProcessLoadInRangeIff(end: ProcessTime, start: ProcessTime)
    requires 0 <= start.systemCpuTime < TWO_63 && 0 <= end.systemCpuTime < TWO_63
    requires 0 <= start.userCpuTime < TWO_63 && 0 <= end.userCpuTime < TWO_63
    requires CalculateProcessCpuLoad(end, start).Ok?
    ensures 0.0 <= CalculateProcessCpuLoad(end, start).load <= 1.0
       <==> start.systemCpuTime + start.userCpuTime <= end.systemCpuTime + end.userCpuTime
  {
    hide ComputeTimeInterval, Share;
    var system, user := end.systemCpuTime - start.systemCpuTime, end.userCpuTime - start.userCpuTime;
    assert -TWO_63 < system < TWO_63 && 0 <= user < TWO_63;
    assert Int64(system + user) == if system + user < TWO_63 then system + user else system + user - TWO_64;
    ShareRange(Int64(system + user), end.numberOfCpus, ComputeTimeInterval(end.timestamp, start.timestamp));
  }

  /** A process whose system time is reported lower than before, while its user time grew, gets a negative load. */
  lemma ProcessLoadCanBeNegative()
    ensures var v := CalculateProcessCpuLoad(ProcessTime(1_000_000, 0, 1, 1), ProcessTime(0, 5, 0, 1));
            v.Ok? && v.load < 0.0
  {
    hide ComputeTimeInterval, Share;
    var end, start := ProcessTime(1_000_000, 0, 1, 1), ProcessTime(0, 5, 0, 1);
    IntervalIsDifference(1_000_000, 0);
    ShareRange(-4, 1, 1_000_000);
  }

  // ---- the remembered samples, as a value ----

  datatype Denial = CpuLoadErrorValue | InsufficientPrivilege | Unsupported

  datatype Status = NoHistory | Supported | Unavailable(why: Denial)

  datatype ErrorCode = ErrorNone | Retry | Internal | NotAvailable | IllegalArgument | ThreadNotAttached

  /** What the caller passes and finds: its VM thread, somewhere to put the load, the thread's VM, the VM's system
      information, and whether the monitor can be entered. */
  datatype Caller = Caller(hasThread: bool, hasOutput: bool, hasVm: bool, hasSysInfo: bool, enters: bool)

  /** Why the call is refused before any sample is taken, in the order of the checks. */
  function Refusal(c: Caller): (r: Option<ErrorCode>)
    ensures r == None <==> c == Caller(true, true, true, true, true)
    ensures r == Some(ThreadNotAttached) <==> !c.hasThread
    ensures r == Some(IllegalArgument) <==> c.hasThread && !(c.hasOutput && c.hasVm)
    ensures r == Some(NotAvailable) <==> c.hasThread && c.hasOutput && c.hasVm && !c.hasSysInfo
    ensures r == Some(Internal) <==> c.hasThread && c.hasOutput && c.hasVm && c.hasSysInfo && !c.enters
  {
    if !c.hasThread then Some(ThreadNotAttached)
    else if !c.hasOutput || !c.hasVm then Some(IllegalArgument)
    else if !c.hasSysInfo then Some(NotAvailable)
    else if !c.enters then Some(Internal)
    else None
  }

  /** What the port library reports: a sample, or why there is none. */
  datatype Reading<R> = Sample(record: R) | Denied(why: Denial)

  datatype History<R> = History(status: Status, oldest: R, interim: R, negativeCount: nat)

  function Calls(status: Status): bool {
    !status.Unavailable?
  }

  /** The history after a call. */
  function Called<R>(h: History<R>, reading: Reading<R>, calculate: (R, R) -> Verdict): History<R> {
    if !Calls(h.status) then h
    else
      match reading
      case Denied(why) => h.(status := Unavailable(why))
      case Sample(newest) =>
        if h.status == NoHistory then h.(status := Supported, oldest := newest, interim := newest)
        else
          var rc := calculate(newest, h.interim);
          if rc.Ok? then h.(oldest := h.interim, interim := newest)
          else Recomputed(h.(interim := if rc.NegativeInterval? then newest else h.interim), newest,
            calculate(newest, h.oldest))
  }

  function Recomputed<R>(h: History<R>, newest: R, rc: Verdict): History<R> {
    match rc
    case Ok(_) => h.(negativeCount := 0)
    case NegativeInterval => h.(oldest := newest, negativeCount := 0)
    case ElapsedTimeTooSmall => h.(negativeCount := 0)
    case ElapsedTimeNegative =>
      if h.negativeCount == MAXIMUM_NEGATIVE_ELAPSED_TIME_COUNT then h.(oldest := newest, negativeCount := 0)
      else h.(negativeCount := h.negativeCount + 1)
  }

  /** What the call returns; a load exactly when it succeeds. */
  function Answer<R>(h: History<R>, reading: Reading<R>, calculate: (R, R) -> Verdict): (ErrorCode, Option<real>) {
    if !Calls(h.status) || reading.Denied? then (NotAvailable, None)
    else if h.status == NoHistory then (Retry, None)
    else
      var first, second := calculate(reading.record, h.interim), calculate(reading.record, h.oldest);
      if first.Ok? then (ErrorNone, Some(first.load))
      else if second.Ok? then (ErrorNone, Some(second.load))
      else if second.NegativeInterval? then (Internal, None)
      else (Retry, None)
  }

  // ---- the calls ----

  class SysInfo {
    var systemCpuTimeNegativeElapsedTimeCount: nat
    var processCpuTimeNegativeElapsedTimeCount: nat
    var systemCpuLoadCallStatus: Status
    var processCpuLoadCallStatus: Status
    var oldestSystemCpuTime: SystemTime
    var interimSystemCpuTime: SystemTime
    var oldestProcessCpuTime: ProcessTime
    var interimProcessCpuTime: ProcessTime

    constructor ()
      ensures SystemHistory() == History(NoHistory, SystemTime(0, 0, 1), SystemTime(0, 0, 1), 0)
      ensures ProcessHistory() == History(NoHistory, ProcessTime(0, 0, 0, 1), ProcessTime(0, 0, 0, 1), 0)
    {
      systemCpuTimeNegativeElapsedTimeCount, processCpuTimeNegativeElapsedTimeCount := 0, 0;
      systemCpuLoadCallStatus, processCpuLoadCallStatus := NoHistory, NoHistory;
      oldestSystemCpuTime, interimSystemCpuTime := SystemTime(0, 0, 1), SystemTime(0, 0, 1);
      oldestProcessCpuTime, interimProcessCpuTime := ProcessTime(0, 0, 0, 1), ProcessTime(0, 0, 0, 1);
    }

    function SystemHistory(): History<SystemTime>
      reads this
    {
      History(systemCpuLoadCallStatus, oldestSystemCpuTime, interimSystemCpuTime, systemCpuTimeNegativeElapsedTimeCount)
    }

    function ProcessHistory(): History<ProcessTime>
      reads this
    {
      History(processCpuLoadCallStatus, oldestProcessCpuTime, interimProcessCpuTime,
        processCpuTimeNegativeElapsedTimeCount)
    }

    /** `omrtiGetSystemCpuLoad`. */
    method GetSystemCpuLoad(caller: Caller, reading: Reading<SystemTime>)
      returns (ret: ErrorCode, systemCpuLoad: Option<real>)
      modifies this
      ensures Refusal(caller).Some? ==>
                ret == Refusal(caller).value && systemCpuLoad == None && SystemHistory() == old(SystemHistory())
      ensures Refusal(caller).None? ==>
        && (ret, systemCpuLoad) == Answer(old(SystemHistory()), reading, CalculateSystemCpuLoad)
        && SystemHistory() == Called(old(SystemHistory()), reading, CalculateSystemCpuLoad)
      ensures ProcessHistory() == old(ProcessHistory())
    {
      ret, systemCpuLoad := ErrorNone, None;
      if !caller.hasThread {
        return ThreadNotAttached, None;
      }
      if !caller.hasOutput || !caller.hasVm {
        return IllegalArgument, None;
      }
      if !caller.hasSysInfo {
        return NotAvailable, None;
      }
      if !caller.enters {
        return Internal, None;
      }
      if systemCpuLoadCallStatus == Supported || systemCpuLoadCallStatus == NoHistory {
        if reading.Denied? {
          systemCpuLoadCallStatus := Unavailable(reading.why);
          ret := NotAvailable;
        } else if systemCpuLoadCallStatus == NoHistory {
          oldestSystemCpuTime, interimSystemCpuTime := reading.record, reading.record;
          systemCpuLoadCallStatus := Supported;
          ret := Retry;
        } else {
          var newest := reading.record;
          var rc := CalculateSystemCpuLoad(newest, interimSystemCpuTime);
          if rc.Ok? {
            systemCpuLoad := Some(rc.load);
            oldestSystemCpuTime := interimSystemCpuTime;
            interimSystemCpuTime := newest;
          } else {
            if rc.NegativeInterval? {
              interimSystemCpuTime := newest;
            }
            rc := CalculateSystemCpuLoad(newest, oldestSystemCpuTime);
            if rc.Ok? {
              systemCpuLoad := Some(rc.load);
              systemCpuTimeNegativeElapsedTimeCount := 0;
            } else if rc.NegativeInterval? {
              oldestSystemCpuTime := newest;
              systemCpuTimeNegativeElapsedTimeCount := 0;
              ret := Internal;
            } else if rc.ElapsedTimeTooSmall? {
              systemCpuTimeNegativeElapsedTimeCount := 0;
              ret := Retry;
            } else {
              if systemCpuTimeNegativeElapsedTimeCount == MAXIMUM_NEGATIVE_ELAPSED_TIME_COUNT {
                oldestSystemCpuTime := newest;
                systemCpuTimeNegativeElapsedTimeCount := 0;
              } else {
                systemCpuTimeNegativeElapsedTimeCount := systemCpuTimeNegativeElapsedTimeCount + 1;
              }
              ret := Retry;
            }
          }
        }
      } else {
        ret := NotAvailable;
      }
    }

    /** `omrtiGetProcessCpuLoad`. */
    method GetProcessCpuLoad(caller: Caller, reading: Reading<ProcessTime>)
      returns (ret: ErrorCode, processCpuLoad: Option<real>)
      modifies this
      ensures Refusal(caller).Some? ==>
                ret == Refusal(caller).value && processCpuLoad == None && ProcessHistory() == old(ProcessHistory())
      ensures Refusal(caller).None? ==>
        && (ret, processCpuLoad) == Answer(old(ProcessHistory()), reading, CalculateProcessCpuLoad)
        && ProcessHistory() == Called(old(ProcessHistory()), reading, CalculateProcessCpuLoad)
      ensures SystemHistory() == old(SystemHistory())
    {
      ret, processCpuLoad := ErrorNone, None;
      if !caller.hasThread {
        return ThreadNotAttached, None;
      }
      if !caller.hasOutput || !caller.hasVm {
        return IllegalArgument, None;
      }
      if !caller.hasSysInfo {
        return NotAvailable, None;
      }
      if !caller.enters {
        return Internal, None;
      }
      if processCpuLoadCallStatus == Supported || processCpuLoadCallStatus == NoHistory {
        if reading.Denied? {
          processCpuLoadCallStatus := Unavailable(reading.why);
          ret := NotAvailable;
        } else if processCpuLoadCallStatus == NoHistory {
          oldestProcessCpuTime, interimProcessCpuTime := reading.record, reading.record;
          processCpuLoadCallStatus := Supported;
          ret := Retry;
        } else {
          var newest := reading.record;
          var rc := CalculateProcessCpuLoad(newest, interimProcessCpuTime);
          if rc.Ok? {
            processCpuLoad := Some(rc.load);
            oldestProcessCpuTime := interimProcessCpuTime;
            interimProcessCpuTime := newest;
          } else {
            if rc.NegativeInterval? {
              interimProcessCpuTime := newest;
            }
            rc := CalculateProcessCpuLoad(newest, oldestProcessCpuTime);
            if rc.Ok? {
              processCpuLoad := Some(rc.load);
              processCpuTimeNegativeElapsedTimeCount := 0;
            } else if rc.NegativeInterval? {
              oldestProcessCpuTime := newest;
              processCpuTimeNegativeElapsedTimeCount := 0;
              ret := Internal;
            } else if rc.ElapsedTimeTooSmall? {
              processCpuTimeNegativeElapsedTimeCount := 0;
              ret := Retry;
            } else {
              if processCpuTimeNegativeElapsedTimeCount == MAXIMUM_NEGATIVE_ELAPSED_TIME_COUNT {
                oldestProcessCpuTime := newest;
                processCpuTimeNegativeElapsedTimeCount := 0;
              } else {
                processCpuTimeNegativeElapsedTimeCount := processCpuTimeNegativeElapsedTimeCount + 1;
              }
              ret := Retry;
            }
          }
        }
      } else {
        ret := NotAvailable;
      }
    }
  }
}

/**
 The atomic operations as N threads run them: every load, pre-read and compare-and-swap is a step of its own,
 and the steps of different threads interleave in any order.
 */
module AtomicLoops {
  import opened Words

  /** A call. `Update` is a retry loop: it loads, computes `f` and retries until the swap succeeds, and returns
      the new value (add, subtract) or the old one (bitAnd, bitOr, set). */
  datatype Call<!T> =
    | Update(f: T -> T, returnsNew: bool)
    | CompareExchange(expected: T, desired: T, preRead: bool)

  datatype Phase<!T> =
    | Idle
    | Loading(call: Call<T>)
    | PreReading(call: Call<T>)
    | Exchanging(call: Call<T>, oldValue: T)
    | Finished(call: Call<T>, result: T)

  datatype State<!T> = State(word: T, threads: seq<Phase<T>>)

  datatype Step<!T> =
    | Invoke(thread: nat, call: Call<T>)
    | Load(thread: nat)
    | PreRead(thread: nat)
    | Exchange(thread: nat)
    | Return(thread: nat, result: T)

  // ---- what one call does when it runs alone ----

  function NewValue<T(==)>(call: Call<T>, v: T): T {
    match call
    case Update(f, _) => f(v)
    case CompareExchange(expected, desired, _) => if v == expected then desired else v
  }

  function Result<T>(call: Call<T>, v: T): T {
    if call.Update? && call.returnsNew then call.f(v) else v
  }

  // ---- the steps ----

  function Start<T>(call: Call<T>): Phase<T> {
    match call
    case Update(_, _) => Loading(call)
    case CompareExchange(expected, _, preRead) => if preRead then PreReading(call) else Exchanging(call, expected)
  }

  /** Step `step` leads from `s` to `s'`. */
  ghost predicate Next<T(!new)>(s: State<T>, step: Step<T>, s': State<T>) {
    var t := step.thread;
    && t < |s.threads|
    && match step
       case Invoke(_, call) =>
         s.threads[t].Idle? && s' == Moved(s, t, s.word, Start(call))
       case Load(_) =>
         s.threads[t].Loading? && s' == Moved(s, t, s.word, Exchanging(s.threads[t].call, s.word))
       case PreRead(_) =>
         && s.threads[t].PreReading? && s.threads[t].call.CompareExchange?
         && var call := s.threads[t].call;
            s' == Moved(s, t, s.word,
                        if s.word != call.expected then Finished(call, s.word) else Exchanging(call, call.expected))
       case Exchange(_) =>
         && s.threads[t].Exchanging?
         && var call, seen := s.threads[t].call, s.threads[t].oldValue;
            var desired := if call.Update? then call.f(seen) else call.desired;
            s' == if s.word == seen
                  then Moved(s, t, desired, Finished(call, if call.Update? && call.returnsNew then desired else seen))
                  else Moved(s, t, s.word, if call.Update? then Loading(call) else Finished(call, s.word))
       case Return(_, result) =>
         s.threads[t].Finished? && s.threads[t].result == result && s' == Moved(s, t, s.word, Idle)
  }

  ghost function Moved<T>(s: State<T>, t: nat, word: T, phase: Phase<T>): State<T>
    requires t < |s.threads|
  {
    State(word, s.threads[t := phase])
  }

  /** A run from a state in which no thread is inside a call. */
  ghost predicate Run<T(!new)>(states: seq<State<T>>, steps: seq<Step<T>>) {
    && |states| == |steps| + 1
    && (forall t :: 0 <= t < |states[0].threads| ==> states[0].threads[t].Idle?)
    && forall n :: 0 <= n < |steps| ==> Next(states[n], steps[n], states[n + 1])
  }

  /** The phase of a thread; a thread that does not exist is idle. */
  ghost function PhaseOf<T>(s: State<T>, t: nat): Phase<T> {
    if t < |s.threads| then s.threads[t] else Idle
  }

  /** The step in which a call takes effect: a swap that succeeds, or the one look at the word by which a
      single compare-and-swap gives up. */
  ghost predicate TakesEffect<T(!new)>(s: State<T>, step: Step<T>) {
    var phase := PhaseOf(s, step.thread);
    match step
    case PreRead(_) => phase.PreReading? && phase.call.CompareExchange? && s.word != phase.call.expected
    case Exchange(_) => phase.Exchanging? && (s.word == phase.oldValue || phase.call.CompareExchange?)
    case _ => false
  }

  /** The call that takes effect in a step. */
  ghost function EffectOf<T(!new)>(s: State<T>, step: Step<T>): Call<T>
    requires TakesEffect(s, step)
  {
    PhaseOf(s, step.thread).call
  }

  /** Only loops load, only single exchanges pre-read, and these swap only what they expect. */
  ghost predicate PhaseConsistent<T>(phase: Phase<T>) {
    match phase
    case Loading(call) => call.Update?
    case PreReading(call) => call.CompareExchange?
    case Exchanging(call, oldValue) => call.Update? || oldValue == call.expected
    case _ => true
  }

  ghost predicate Consistent<T>(s: State<T>) {
    forall t :: 0 <= t < |s.threads| ==> PhaseConsistent(s.threads[t])
  }

  lemma {:induction false} RunConsistent<T(!new)>(states: seq<State<T>>, steps: seq<Step<T>>, n: nat)
    requires Run(states, steps) && n <= |steps|
    ensures Consistent(states[n])
  {
    if n > 0 {
      RunConsistent(states, steps, n - 1);
      assert Next(states[n - 1], steps[n - 1], states[n]);
    }
  }

  // ---- the word is the calls in the order of their effects ----

  /** The calls that took effect in the first `n` steps, in that order. */
  ghost function Log<T(!new)>(states: seq<State<T>>, steps: seq<Step<T>>, n: nat): seq<Call<T>>
    requires n <= |steps| <= |states|
  {
    if n == 0 then []
    else
      Log(states, steps, n - 1)
      + (if TakesEffect(states[n - 1], steps[n - 1]) then [EffectOf(states[n - 1], steps[n - 1])] else [])
  }

  /** The value after running the calls one at a time. */
  ghost function Replay<T>(v: T, log: seq<Call<T>>): T {
    if log == [] then v else NewValue(log[|log| - 1], Replay(v, log[..|log| - 1]))
  }

  /** A step changes the word exactly as the call that takes effect in it, and leaves it alone otherwise. */
  lemma StepEffect<T(!new)>(s: State<T>, step: Step<T>, s': State<T>)
    requires Next(s, step, s') && Consistent(s)
    ensures s'.word == if TakesEffect(s, step) then NewValue(EffectOf(s, step), s.word) else s.word
    ensures |s'.threads| == |s.threads|
  {
    assert PhaseConsistent(s.threads[step.thread]);
  }

  /** In every interleaving the word is its initial value with the calls that took effect applied one at a
      time, in the order of their effects. */
  lemma {:induction false} WordIsReplay<T(!new)>(states: seq<State<T>>, steps: seq<Step<T>>, n: nat)
    requires Run(states, steps) && n <= |steps|
    ensures states[n].word == Replay(states[0].word, Log(states, steps, n))
  {
    if n > 0 {
      WordIsReplay(states, steps, n - 1);
      RunConsistent(states, steps, n - 1);
      var log := Log(states, steps, n - 1);
      StepEffect(states[n - 1], steps[n - 1], states[n]);
      if TakesEffect(states[n - 1], steps[n - 1]) {
        var call := EffectOf(states[n - 1], steps[n - 1]);
        assert (log + [call])[..|log|] == log;
      } else {
        assert log + [] == log;
      }
    }
  }

  // ---- every call takes effect exactly once ----

  ghost predicate Marks<T>(step: Step<T>, t: nat) {
    step.thread == t && (step.Invoke? || step.Return?)
  }

  /** The thread is inside the call it invoked in step `i` just before step `n`. */
  ghost predicate Inside<T(!new)>(steps: seq<Step<T>>, i: nat, n: nat) {
    i < n <= |steps| && steps[i].Invoke? && forall k :: i < k < n ==> !Marks(steps[k], steps[i].thread)
  }

  ghost predicate EffectAt<T(!new)>(states: seq<State<T>>, steps: seq<Step<T>>, t: nat, p: nat)
    requires |steps| <= |states|
  {
    p < |steps| && steps[p].thread == t && TakesEffect(states[p], steps[p])
  }

  /** Where a call invoked in step `i` stands: either it has not taken effect, or it did exactly once and its
      result is the one it has when it runs alone on the word it found. */
  ghost predicate Stands<T(!new)>(states: seq<State<T>>, steps: seq<Step<T>>, i: nat, n: nat)
    requires |states| == |steps| + 1 && i < n <= |steps| && steps[i].Invoke?
  {
    var t, call := steps[i].thread, steps[i].call;
    var phase := PhaseOf(states[n], t);
    if phase.Finished?
    then phase.call == call
         && exists p: nat :: OnlyEffect(states, steps, t, i, n, p) && phase.result == Result(call, states[p].word)
    else phase != Idle && phase.call == call && forall p :: i < p < n ==> !EffectAt(states, steps, t, p)
  }

  /** Step `p` is the only one between `i` and `n` in which a call of thread `t` takes effect. */
  ghost predicate OnlyEffect<T(!new)>(states: seq<State<T>>, steps: seq<Step<T>>, t: nat, i: nat, n: nat, p: nat)
    requires |steps| <= |states|
  {
    && i < p < n && EffectAt(states, steps, t, p)
    && forall q :: i < q < n && EffectAt(states, steps, t, q) ==> q == p
  }

  lemma {:induction false} CallStands<T(!new)>(states: seq<State<T>>, steps: seq<Step<T>>, i: nat, n: nat)
    requires Run(states, steps) && Inside(steps, i, n)
    ensures Stands(states, steps, i, n)
    decreases n
  {
    assert Next(states[n - 1], steps[n - 1], states[n]);
    if n > i + 1 {
      CallStands(states, steps, i, n - 1);
      RunConsistent(states, steps, n - 1);
      StandsStep(states, steps, i, n - 1);
    }
  }

  lemma StandsStep<T(!new)>(states: seq<State<T>>, steps: seq<Step<T>>, i: nat, n: nat)
    requires |states| == |steps| + 1 && i < n < |steps| && steps[i].Invoke?
    requires Stands(states, steps, i, n) && Consistent(states[n])
    requires Next(states[n], steps[n], states[n + 1]) && !Marks(steps[n], steps[i].thread)
    ensures Stands(states, steps, i, n + 1)
  {
    var t, call := steps[i].thread, steps[i].call;
    if steps[n].thread != t {
      assert PhaseOf(states[n + 1], t) == PhaseOf(states[n], t);
      if PhaseOf(states[n], t).Finished? {
        var p: nat :| OnlyEffect(states, steps, t, i, n, p)
          && PhaseOf(states[n], t).result == Result(call, states[p].word);
        assert OnlyEffect(states, steps, t, i, n + 1, p);
      }
    } else {
      assert PhaseConsistent(states[n].threads[t]);
      if EffectAt(states, steps, t, n) {
        assert OnlyEffect(states, steps, t, i, n + 1, n);
        assert PhaseOf(states[n + 1], t).result == Result(call, states[n].word);
      }
    }
  }

  lemma ReturnsResult<T(!new)>(states: seq<State<T>>, steps: seq<Step<T>>, j: nat)
    requires Run(states, steps) && j < |steps| && steps[j].Return?
    ensures var phase := PhaseOf(states[j], steps[j].thread); phase.Finished? && steps[j].result == phase.result
  {
    assert Next(states[j], steps[j], states[j + 1]);
  }

  /** Every call that returns took effect exactly once between its invocation and its return, and returned what
      it returns when it runs alone on the word it found at that moment, pre-read or not. */
  lemma EveryCallIsAtomic<T(!new)>(states: seq<State<T>>, steps: seq<Step<T>>, i: nat, j: nat)
    requires Run(states, steps)
    requires j < |steps| && Inside(steps, i, j) && steps[j].Return? && steps[j].thread == steps[i].thread
    ensures exists p: nat ::
      && OnlyEffect(states, steps, steps[i].thread, i, j, p)
      && EffectOf(states[p], steps[p]) == steps[i].call
      && steps[j].result == Result(steps[i].call, Replay(states[0].word, Log(states, steps, p)))
  {
    hide Log, Replay, TakesEffect, Next;
    var t := steps[i].thread;
    CallStands(states, steps, i, j);
    ReturnsResult(states, steps, j);
    var p: nat :| OnlyEffect(states, steps, t, i, j, p) && steps[j].result == Result(steps[i].call, states[p].word);
    WordIsReplay(states, steps, p);
    CallKept(states, steps, i, p);
  }

  lemma CallKept<T(!new)>(states: seq<State<T>>, steps: seq<Step<T>>, i: nat, p: nat)
    requires Run(states, steps) && Inside(steps, i, p) && EffectAt(states, steps, steps[i].thread, p)
    ensures EffectOf(states[p], steps[p]) == steps[i].call
  {
    CallStands(states, steps, i, p);
  }

  // ---- a retry means that somebody else got through ----

  ghost predicate Changes<T(!new)>(states: seq<State<T>>, k: nat) {
    k + 1 < |states| && states[k].word != states[k + 1].word
  }

  lemma {:induction false} WaitingKeeps<T(!new)>(states: seq<State<T>>, steps: seq<Step<T>>, t: nat, i: nat, n: nat)
    requires Run(states, steps) && i < n <= |steps| && steps[i] == Load(t)
    requires forall k :: i < k < n ==> steps[k].thread != t
    ensures var phase := PhaseOf(states[n], t); phase.Exchanging? && phase.oldValue == states[i].word
    ensures states[n].word != states[i].word ==> exists k: nat :: i < k < n && Changes(states, k)
    decreases n
  {
    assert Next(states[n - 1], steps[n - 1], states[n]);
    if n > i + 1 {
      WaitingKeeps(states, steps, t, i, n - 1);
      assert states[n].word != states[n - 1].word ==> Changes(states, n - 1);
    }
  }

  /** When the swap of a retry loop fails, some call of another thread changed the word after the load: the
      loops starve one another only by making progress. */
  lemma FailureMeansProgress<T(!new)>(states: seq<State<T>>, steps: seq<Step<T>>, t: nat, i: nat, j: nat)
    requires Run(states, steps) && i < j < |steps| && steps[i] == Load(t) && steps[j] == Exchange(t)
    requires forall k :: i < k < j ==> steps[k].thread != t
    requires var phase := PhaseOf(states[j], t); phase.Exchanging? && states[j].word != phase.oldValue
    ensures exists k: nat :: i < k < j && Changes(states, k) && steps[k].thread != t && TakesEffect(states[k], steps[k])
  {
    hide Next, TakesEffect;
    WaitingKeeps(states, steps, t, i, j);
    var k: nat :| i < k < j && Changes(states, k);
    OnlyEffectsChange(states, steps, k);
  }

  lemma OnlyEffectsChange<T(!new)>(states: seq<State<T>>, steps: seq<Step<T>>, k: nat)
    requires Run(states, steps) && Changes(states, k)
    ensures TakesEffect(states[k], steps[k])
  {
    RunConsistent(states, steps, k);
    StepEffect(states[k], steps[k], states[k + 1]);
  }

  // ---- the operations ----

  datatype Width = Bits32 | Bits64

  function Wrap(w: Width, x: int): int {
    if w.Bits32? then UInt32(x) else UInt64(x)
  }

  /** `add`, `addU32` and `addU64`. */
  ghost function Add(addend: int, w: Width): Call<int> {
    Update((v: int) => Wrap(w, v + addend), true)
  }

  ghost function Subtract(value: int, w: Width): Call<int> {
    Update((v: int) => Wrap(w, v - value), true)
  }

  ghost function BitAnd(mask: bv64): Call<bv64> {
    Update((v: bv64) => v & mask, false)
  }

  ghost function BitOr(mask: bv64): Call<bv64> {
    Update((v: bv64) => v | mask, false)
  }

  ghost function Set<T(!new)>(value: T): Call<T> {
    Update((v: T) => value, false)
  }

  /** The log consists of additions and subtractions, adding up to these deltas. */
  ghost predicate Adds(log: seq<Call<int>>, deltas: seq<int>, w: Width) {
    && |deltas| == |log|
    && forall k :: 0 <= k < |log| ==> log[k] == Add(deltas[k], w) || log[k] == Subtract(0 - deltas[k], w)
  }

  function Sum(s: seq<int>): int {
    if s == [] then 0 else Sum(s[..|s| - 1]) + s[|s| - 1]
  }

  lemma {:induction false} ReplayIsSum(v: int, log: seq<Call<int>>, deltas: seq<int>, w: Width)
    requires v == Wrap(w, v) && Adds(log, deltas, w)
    ensures Replay(v, log) == Wrap(w, v + Sum(deltas))
  {
    hide Wrap;
    if log != [] {
      var n := |log| - 1;
      ReplayIsSum(v, log[..n], deltas[..n], w);
      OneDelta(log[n], deltas[n], w, Replay(v, log[..n]));
      WrapAbsorbs(w, v + Sum(deltas[..n]), deltas[n]);
    }
  }

  lemma OneDelta(call: Call<int>, delta: int, w: Width, v: int)
    requires call == Add(delta, w) || call == Subtract(0 - delta, w)
    ensures NewValue(call, v) == Result(call, v) == Wrap(w, v + delta)
  {
    hide Wrap;
  }

  lemma WrapAbsorbs(w: Width, a: int, b: int)
    ensures Wrap(w, Wrap(w, a) + b) == Wrap(w, a + b)
  {
    hide UInt32, UInt64;
    UInt32Absorbs(a, b);
    UInt64Absorbs(a, b);
  }

  /** Counting: when only additions and subtractions run, the word is its initial value plus the wrapping sum
      of what took effect, whatever the interleaving. */
  lemma WrappingSum(states: seq<State<int>>, steps: seq<Step<int>>, n: nat, deltas: seq<int>, w: Width)
    requires Run(states, steps) && n <= |steps| && states[0].word == Wrap(w, states[0].word)
    requires Adds(Log(states, steps, n), deltas, w)
    ensures states[n].word == Wrap(w, states[0].word + Sum(deltas))
  {
    hide Wrap, Next, Adds, Log, Replay;
    WordIsReplay(states, steps, n);
    ReplayIsSum(states[0].word, Log(states, steps, n), deltas, w);
  }

  /** `set` and `setU64`: after the last of them took effect the word has its value, whatever ran before. */
  lemma LastSetWins<T(!new)>(states: seq<State<T>>, steps: seq<Step<T>>, n: nat, value: T)
    requires Run(states, steps) && n <= |steps|
    requires var log := Log(states, steps, n); log != [] && log[|log| - 1] == Set(value)
    ensures states[n].word == value
  {
    hide Log;
    WordIsReplay(states, steps, n);
  }

  /** The bits of `mask` are all set in `v`. */
  predicate AllSet(v: bv64, mask: bv64) {
    v & mask == mask
  }

  /** A call that leaves the bits of `mask` set. */
  ghost predicate Keeps(call: Call<bv64>, mask: bv64) {
    forall v :: AllSet(v, mask) ==> AllSet(NewValue(call, v), mask)
  }

  lemma OrSetsAndKeeps(bits: bv64, mask: bv64)
    ensures Keeps(BitOr(bits), mask)
    ensures forall v :: AllSet(NewValue(BitOr(bits), v), bits)
  {
  }

  lemma AndKeepsIff(bits: bv64, mask: bv64)
    ensures Keeps(BitAnd(bits), mask) <==> AllSet(bits, mask)
  {
    if Keeps(BitAnd(bits), mask) {
      assert AllSet(mask, mask);
      assert NewValue(BitAnd(bits), mask) == mask & bits;
      AndIsSubset(bits, mask);
    }
  }

  lemma AndIsSubset(bits: bv64, mask: bv64)
    ensures (mask & bits) & mask == mask ==> bits & mask == mask
  {
  }

  /** Flags: bits set by a `bitOr` that took effect are set until a call that clears some of them takes effect. */
  lemma BitsStaySet(states: seq<State<bv64>>, steps: seq<Step<bv64>>, n: nat, k: nat, mask: bv64)
    requires Run(states, steps) && n <= |steps|
    requires var log := Log(states, steps, n);
             k < |log| && log[k] == BitOr(mask) && forall m :: k < m < |log| ==> Keeps(log[m], mask)
    ensures AllSet(states[n].word, mask)
  {
    hide Log, Replay, AllSet, Keeps;
    WordIsReplay(states, steps, n);
    BitsStayInReplay(states[0].word, Log(states, steps, n), k, mask);
  }

  lemma {:induction false} BitsStayInReplay(v: bv64, log: seq<Call<bv64>>, k: nat, mask: bv64)
    requires k < |log| && log[k] == BitOr(mask) && forall m :: k < m < |log| ==> Keeps(log[m], mask)
    ensures AllSet(Replay(v, log), mask)
    decreases |log|
  {
    hide AllSet, BitOr;
    var n := |log| - 1;
    assert Replay(v, log) == NewValue(log[n], Replay(v, log[..n]));
    if k < n {
      BitsStayInReplay(v, log[..n], k, mask);
      assert Keeps(log[n], mask);
    } else {
      OrSetsAndKeeps(mask, mask);
    }
  }

  // ---- what each operation does to the word, and what it returns ----

  /** The call invoked in step `i` returns in step `j`. */
  ghost predicate Returned<T(!new)>(steps: seq<Step<T>>, i: nat, j: nat) {
    j < |steps| && Inside(steps, i, j) && steps[j].Return? && steps[j].thread == steps[i].thread
  }

  lemma EffectSeen<T(!new)>(states: seq<State<T>>, steps: seq<Step<T>>, i: nat, j: nat) returns (p: nat)
    requires Run(states, steps) && Returned(steps, i, j)
    ensures OnlyEffect(states, steps, steps[i].thread, i, j, p)
    ensures states[p + 1].word == NewValue(steps[i].call, states[p].word)
    ensures steps[j].result == Result(steps[i].call, states[p].word)
  {
    hide Log, Replay, TakesEffect, Next;
    EveryCallIsAtomic(states, steps, i, j);
    p :| OnlyEffect(states, steps, steps[i].thread, i, j, p) && EffectOf(states[p], steps[p]) == steps[i].call
      && steps[j].result == Result(steps[i].call, Replay(states[0].word, Log(states, steps, p)));
    WordIsReplay(states, steps, p);
    RunConsistent(states, steps, p);
    StepEffect(states[p], steps[p], states[p + 1]);
  }

  lemma InRange<T(!new)>(states: seq<State<T>>, steps: seq<Step<T>>, i: nat, j: nat, p: nat)
    requires Run(states, steps) && Returned(steps, i, j) && OnlyEffect(states, steps, steps[i].thread, i, j, p)
    ensures i < p < j < |steps| < |states| && steps[i].Invoke?
  {
  }

  /** The number of values of a word. */
  function Modulus(w: Width): int {
    if w.Bits32? then 0x1_0000_0000 else 0x1_0000_0000_0000_0000
  }

  /** An addition that returned raised the word by its addend, modulo the width, in one step in between, and returned
      what it left; a subtraction lowered it. */
  lemma AddAndSubtract(states: seq<State<int>>, steps: seq<Step<int>>, i: nat, j: nat, value: int, w: Width)
    requires Run(states, steps) && Returned(steps, i, j)
    ensures steps[i].call == Add(value, w) ==> exists p: nat ::
      && OnlyEffect(states, steps, steps[i].thread, i, j, p)
      && (states[p + 1].word - states[p].word - value) % Modulus(w) == 0 <= states[p + 1].word < Modulus(w)
      && steps[j].result == states[p + 1].word
    ensures steps[i].call == Subtract(value, w) ==> exists p: nat ::
      && OnlyEffect(states, steps, steps[i].thread, i, j, p)
      && (states[p + 1].word - states[p].word + value) % Modulus(w) == 0 <= states[p + 1].word < Modulus(w)
      && steps[j].result == states[p + 1].word
  {
    hide Run, OnlyEffect, Wrap, Inside;
    var p := EffectSeen(states, steps, i, j);
    InRange(states, steps, i, j, p);
    if steps[i].call == Add(value, w) {
      WrapIsCongruent(w, states[p].word + value);
    }
    if steps[i].call == Subtract(value, w) {
      WrapIsCongruent(w, states[p].word - value);
    }
  }

  lemma WrapIsCongruent(w: Width, x: int)
    ensures 0 <= Wrap(w, x) < Modulus(w) && (Wrap(w, x) - x) % Modulus(w) == 0
  {
    if w.Bits32? {
      assert UInt32(x) - x == (0 - x / TWO_32) * TWO_32;
    } else {
      assert UInt64(x) - x == (0 - x / TWO_64) * TWO_64;
    }
  }

  /** No bit of `mask` is set in `v`. */
  predicate NoneSet(v: bv64, mask: bv64) {
    v & mask == 0
  }

  /** A `bitAnd` that returned left exactly the flags that were set before and are in its mask; a `bitOr` those that
      were set before or are in its mask. Both returned the word they found. */
  lemma FlagsAfter(states: seq<State<bv64>>, steps: seq<Step<bv64>>, i: nat, j: nat, mask: bv64)
    requires Run(states, steps) && Returned(steps, i, j)
    ensures steps[i].call == BitAnd(mask) ==> exists p: nat ::
      && OnlyEffect(states, steps, steps[i].thread, i, j, p)
      && (forall m :: AllSet(states[p + 1].word, m) <==> AllSet(states[p].word, m) && AllSet(mask, m))
      && steps[j].result == states[p].word
    ensures steps[i].call == BitOr(mask) ==> exists p: nat ::
      && OnlyEffect(states, steps, steps[i].thread, i, j, p)
      && (forall m :: NoneSet(states[p + 1].word, m) <==> NoneSet(states[p].word, m) && NoneSet(mask, m))
      && steps[j].result == states[p].word
  {
    hide Run, OnlyEffect, AllSet, NoneSet, Inside;
    var p := EffectSeen(states, steps, i, j);
    InRange(states, steps, i, j, p);
    forall m
      ensures AllSet(NewValue(BitAnd(mask), states[p].word), m) <==> AllSet(states[p].word, m) && AllSet(mask, m)
      ensures NoneSet(NewValue(BitOr(mask), states[p].word), m) <==> NoneSet(states[p].word, m) && NoneSet(mask, m)
    {
      AndBits(mask, states[p].word, m);
      OrBits(mask, states[p].word, m);
    }
  }

  lemma AndBits(bits: bv64, v: bv64, m: bv64)
    ensures AllSet(NewValue(BitAnd(bits), v), m) <==> AllSet(v, m) && AllSet(bits, m)
  {
    hide AllSet;
    if AllSet(v & bits, m) {
      AndIsInFirst(v, bits, m);
      AndIsInSecond(v, bits, m);
    }
    if AllSet(v, m) && AllSet(bits, m) {
      InBothIsInAnd(v, bits, m);
    }
  }

  lemma AndIsInFirst(v: bv64, bits: bv64, m: bv64)
    requires AllSet(v & bits, m)
    ensures AllSet(v, m)
  {
  }

  lemma AndIsInSecond(v: bv64, bits: bv64, m: bv64)
    requires AllSet(v & bits, m)
    ensures AllSet(bits, m)
  {
  }

  lemma InBothIsInAnd(v: bv64, bits: bv64, m: bv64)
    requires AllSet(v, m) && AllSet(bits, m)
    ensures AllSet(v & bits, m)
  {
  }

  lemma OrBits(bits: bv64, v: bv64, m: bv64)
    ensures NoneSet(NewValue(BitOr(bits), v), m) <==> NoneSet(v, m) && NoneSet(bits, m)
  {
    hide NoneSet;
    if NoneSet(v | bits, m) {
      OrLacksFirst(v, bits, m);
      OrLacksSecond(v, bits, m);
    }
    if NoneSet(v, m) && NoneSet(bits, m) {
      BothLackInOr(v, bits, m);
    }
  }

  lemma OrLacksFirst(v: bv64, bits: bv64, m: bv64)
    requires NoneSet(v | bits, m)
    ensures NoneSet(v, m)
  {
  }

  lemma OrLacksSecond(v: bv64, bits: bv64, m: bv64)
    requires NoneSet(v | bits, m)
    ensures NoneSet(bits, m)
  {
  }

  lemma BothLackInOr(v: bv64, bits: bv64, m: bv64)
    requires NoneSet(v, m) && NoneSet(bits, m)
    ensures NoneSet(v | bits, m)
  {
  }

  /** A `set` that returned stored its value and returned the word it replaced; a single compare-and-swap that returned
      replaced the expected value or nothing, and returned the word it found, pre-read or not. */
  lemma SetAndExchange<T(!new)>(states: seq<State<T>>, steps: seq<Step<T>>, i: nat, j: nat, value: T)
    requires Run(states, steps) && Returned(steps, i, j)
    ensures steps[i].call == Set(value) ==> exists p: nat ::
      OnlyEffect(states, steps, steps[i].thread, i, j, p)
      && states[p + 1].word == value && steps[j].result == states[p].word
    ensures steps[i].call.CompareExchange? ==> exists p: nat ::
      && OnlyEffect(states, steps, steps[i].thread, i, j, p)
      && (states[p].word == steps[i].call.expected ==> states[p + 1].word == steps[i].call.desired)
      && (states[p].word != steps[i].call.expected ==> states[p + 1].word == states[p].word)
      && steps[j].result == states[p].word
  {
    hide Run, OnlyEffect, Inside;
    var p := EffectSeen(states, steps, i, j);
  }
}

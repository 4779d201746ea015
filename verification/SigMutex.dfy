/**
 The spin lock of the signal library as it is written: the swap expects the value just loaded rather than 0,
 and a thread leaves the loop whenever the swap reports that it found 0. N threads, every access a step.
 */
module SigMutex {
  datatype Place = Outside | Spinning | Loaded(oldLocked: nat) | Inside

  datatype State = State(locked: nat, threads: seq<Place>)

  datatype Step = Lock(thread: nat) | Load(thread: nat) | Swap(thread: nat) | Unlock(thread: nat)

  function Moved(s: State, t: nat, locked: nat, place: Place): State
    requires t < |s.threads|
  {
    State(locked, s.threads[t := place])
  }

  predicate Next(s: State, step: Step, s': State) {
    var t := step.thread;
    && t < |s.threads|
    && match step
       case Lock(_) => s.threads[t].Outside? && s' == Moved(s, t, s.locked, Spinning)
       case Load(_) => s.threads[t].Spinning? && s' == Moved(s, t, s.locked, Loaded(s.locked))
       case Swap(_) =>
         && s.threads[t].Loaded?
         && s' == Moved(s, t, if s.locked == s.threads[t].oldLocked then 1 else s.locked,
                        if s.locked == 0 then Inside else Spinning)
       case Unlock(_) => s.threads[t].Inside? && s' == Moved(s, t, 0, Outside)
  }

  ghost predicate Run(states: seq<State>, steps: seq<Step>) {
    && |states| == |steps| + 1
    && states[0].locked == 0 && (forall t :: 0 <= t < |states[0].threads| ==> states[0].threads[t].Outside?)
    && forall n :: 0 <= n < |steps| ==> Next(states[n], steps[n], states[n + 1])
  }

  // ---- agreement between the word and the threads ----

  ghost predicate IsInside(s: State, t: nat) {
    t < |s.threads| && s.threads[t].Inside?
  }

  ghost predicate MutualExclusion(s: State) {
    forall t, u :: IsInside(s, t) && IsInside(s, u) ==> t == u
  }

  /** At most one thread is inside, and the word is 1 exactly while one is. */
  ghost predicate Agreement(s: State) {
    && MutualExclusion(s)
    && s.locked <= 1
    && (s.locked == 1 <==> exists t :: IsInside(s, t))
  }

  /** The swap of a thread that loaded 1 finds 0: the thread leaves the loop without setting the word. */
  predicate StaleSwap(s: State, step: Step) {
    && step.Swap? && step.thread < |s.threads| && s.threads[step.thread].Loaded?
    && s.locked == 0 && s.threads[step.thread].oldLocked != 0
  }

  lemma InsideAfter(s: State, step: Step, s': State, t: nat)
    requires Next(s, step, s')
    ensures IsInside(s', t) <==> if step.thread != t then IsInside(s, t)
                                 else step.Swap? && s.locked == 0
  {
  }

  lemma WordAfter(s: State, step: Step, s': State)
    requires Next(s, step, s') && s.locked <= 1
    ensures s'.locked
            == if step.Unlock? then 0 else if step.Swap? && s.locked == 0 && !StaleSwap(s, step) then 1 else s.locked
    ensures IsInside(s, step.thread) <==> step.Unlock?
  {
  }

  /** A step keeps the agreement exactly when it is not a stale swap. */
  lemma AgreementStep(s: State, step: Step, s': State)
    requires Next(s, step, s') && Agreement(s)
    ensures Agreement(s') <==> !StaleSwap(s, step)
  {
    hide Next, IsInside;
    forall t: nat
      ensures IsInside(s', t) <==> if step.thread != t then IsInside(s, t) else step.Swap? && s.locked == 0
    {
      InsideAfter(s, step, s', t);
    }
    WordAfter(s, step, s');
    if step.Swap? && s.locked == 0 {
      assert IsInside(s', step.thread);
    } else if s.locked == 1 && !step.Unlock? {
      var t :| IsInside(s, t);
      assert IsInside(s', t);
    }
  }

  ghost predicate NoStaleSwap(states: seq<State>, steps: seq<Step>)
    requires |steps| < |states|
  {
    forall n :: 0 <= n < |steps| ==> !StaleSwap(states[n], steps[n])
  }

  lemma {:induction false} AgreesUpTo(states: seq<State>, steps: seq<Step>, n: nat)
    requires Run(states, steps) && n <= |steps| && forall k :: 0 <= k < n ==> !StaleSwap(states[k], steps[k])
    ensures Agreement(states[n])
  {
    hide StaleSwap, Next;
    if n > 0 {
      AgreesUpTo(states, steps, n - 1);
      AgreementStep(states[n - 1], steps[n - 1], states[n]);
    }
  }

  /** In every state of a run at most one thread is inside and the word is 1 exactly while one is, if and only
      if no swap that finds 0 had loaded 1. */
  lemma AgreementIff(states: seq<State>, steps: seq<Step>)
    requires Run(states, steps)
    ensures (forall n :: 0 <= n <= |steps| ==> Agreement(states[n])) <==> NoStaleSwap(states, steps)
  {
    hide StaleSwap, Next, Agreement;
    if NoStaleSwap(states, steps) {
      forall n | 0 <= n <= |steps|
        ensures Agreement(states[n])
      {
        AgreesUpTo(states, steps, n);
      }
    } else {
      var n :| 0 <= n < |steps| && StaleSwap(states[n], steps[n]);
      if Agreement(states[n]) {
        AgreementStep(states[n], steps[n], states[n + 1]);
      }
    }
  }

  // ---- where stale swaps come from ----

  lemma {:induction false} StaysLoaded(states: seq<State>, steps: seq<Step>, i: nat, n: nat)
    requires Run(states, steps) && i < n <= |steps| && steps[i].Load?
    requires forall k :: i < k < n ==> steps[k].thread != steps[i].thread && !steps[k].Unlock?
    ensures var t := steps[i].thread; t < |states[n].threads| && states[n].threads[t] == Loaded(states[i].locked)
    ensures states[n].locked >= states[i].locked
    ensures states[i].locked <= 1
    decreases n
  {
    assert Next(states[n - 1], steps[n - 1], states[n]);
    WordIsBit(states, steps, n - 1);
    WordIsBit(states, steps, i);
    if n > i + 1 {
      StaysLoaded(states, steps, i, n - 1);
    }
  }

  lemma {:induction false} WordIsBit(states: seq<State>, steps: seq<Step>, n: nat)
    requires Run(states, steps) && n <= |steps|
    ensures states[n].locked <= 1
  {
    if n > 0 {
      WordIsBit(states, steps, n - 1);
      assert Next(states[n - 1], steps[n - 1], states[n]);
    }
  }

  /** A swap is stale only when another thread unlocks between the load and the swap. */
  lemma StaleNeedsUnlock(states: seq<State>, steps: seq<Step>, i: nat, j: nat)
    requires Run(states, steps) && i < j < |steps| && steps[i].Load? && steps[j] == Swap(steps[i].thread)
    requires forall k :: i < k < j ==> steps[k].thread != steps[i].thread
    requires StaleSwap(states[j], steps[j])
    ensures exists k :: i < k < j && steps[k].Unlock? && steps[k].thread != steps[i].thread
  {
    if forall k :: i < k < j ==> !steps[k].Unlock? {
      StaysLoaded(states, steps, i, j);
    }
  }

  // ---- two threads inside ----

  function Witness(): seq<Step> {
    [Lock(0), Load(0), Swap(0), Lock(1), Load(1), Unlock(0), Swap(1), Lock(0), Load(0), Swap(0)]
  }

  /** Two threads suffice: the first holds the lock while the second loads, unlocks before the second swaps,
      and takes the lock again; then both are inside. */
  lemma TwoInside()
    ensures exists states ::
      && Run(states, Witness())
      && IsInside(states[10], 0) && IsInside(states[10], 1) && !MutualExclusion(states[10])
  {
    var states := [
      State(0, [Outside, Outside]),
      State(0, [Spinning, Outside]),
      State(0, [Loaded(0), Outside]),
      State(1, [Inside, Outside]),
      State(1, [Inside, Spinning]),
      State(1, [Inside, Loaded(1)]),
      State(0, [Outside, Loaded(1)]),
      State(0, [Outside, Inside]),
      State(0, [Spinning, Inside]),
      State(0, [Loaded(0), Inside]),
      State(1, [Inside, Inside])
    ];
    var steps := Witness();
    forall n | 0 <= n < |steps|
      ensures Next(states[n], steps[n], states[n + 1])
    {
    }
    assert Run(states, steps);
    assert IsInside(states[10], 0) && IsInside(states[10], 1);
  }
}

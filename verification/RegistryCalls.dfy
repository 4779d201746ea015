/** The thread registry in terms of the calls that were made: attach counts, thread-local slots, refusals, order. */
module RegistryCalls {
  import opened Rings
  import opened ThreadRegistry
  import opened RegistryRuns

  // ---- attach counts ----

  /** The attachments of `t` that a call takes: one for each that succeeds, and one for a refused attach as well. */
  ghost function TakenBy<T>(r: Registry<T>, max: nat, e: Event<T>, t: T): nat
    requires Legal(r, e)
  {
    match e
    case Attach(u, ok) => if u == t && AttachCode(r, max, u, ok) != FailedToAttachNativeThread then 1 else 0
    case FirstAttach(u, _) => if u == t then 1 else 0
    case Reattach(u) => if u == t then 1 else 0
    case _ => 0
  }

  /** The attachments that a call gives back: one for each detach that succeeds, and all that are left for a last
      detach, which is one unless re-attaches are unpaired. */
  ghost function GivenBy<T>(r: Registry<T>, e: Event<T>, t: T): int
    requires Legal(r, e)
  {
    match e
    case Detach(u, ok) => if u == t && DetachCode(r, u, ok) == ErrorNone then 1 else 0
    case LastDetach(u) => if u == t then CountOf(r, t) else 0
    case Redetach(u) => if u == t then 1 else 0
    case _ => 0
  }

  ghost function Taken<T>(states: seq<Registry<T>>, max: nat, events: seq<Event<T>>, t: T, i: nat, n: nat): nat
    requires Run(states, max, events) && i <= n <= |events|
    decreases n
  {
    if n == i then 0 else Taken(states, max, events, t, i, n - 1) + TakenBy(states[n - 1], max, events[n - 1], t)
  }

  ghost function Given<T>(states: seq<Registry<T>>, max: nat, events: seq<Event<T>>, t: T, i: nat, n: nat): int
    requires Run(states, max, events) && i <= n <= |events|
    decreases n
  {
    if n == i then 0 else Given(states, max, events, t, i, n - 1) + GivenBy(states[n - 1], events[n - 1], t)
  }

  lemma StepCounts<T>(r: Registry<T>, max: nat, e: Event<T>, t: T)
    requires Legal(r, e)
    ensures CountOf(Step(r, max, e), t) == CountOf(r, t) + TakenBy(r, max, e, t) - GivenBy(r, e, t)
  {
    hide Removed, IndexOf;
  }

  /** Between any two states of any run the attach count of every thread grows by the attachments taken less those
      given back. */
  lemma {:induction false} AttachCountIsCalls<T>(states: seq<Registry<T>>, max: nat, events: seq<Event<T>>, t: T,
                                                 i: nat, n: nat)
    requires Run(states, max, events) && i <= n <= |events|
    ensures CountOf(states[n], t) - CountOf(states[i], t)
         == Taken(states, max, events, t, i, n) - Given(states, max, events, t, i, n)
    decreases n
  {
    hide Legal, Step, TakenBy, GivenBy, CountOf;
    if i < n {
      AttachCountIsCalls(states, max, events, t, i, n - 1);
      StepCounts(states[n - 1], max, events[n - 1], t);
    }
  }

  /** Only threads that `omr_vmthread_firstAttach` made, which are internal, are given to the last detach. */
  ghost predicate FreesInternal<T>(states: seq<Registry<T>>, events: seq<Event<T>>, i: nat, n: nat)
    requires n <= |events| <= |states|
  {
    forall k :: i <= k < n && events[k].LastDetach? && events[k].t in states[k].info ==>
      states[k].info[events[k].t].internal
  }

  lemma StepKind<T>(r: Registry<T>, max: nat, e: Event<T>, t: T)
    requires Legal(r, e)
    ensures t in r.info && e != LastDetach(t) ==>
      && t in Step(r, max, e).info && Step(r, max, e).info[t].internal == r.info[t].internal
      && Step(r, max, e).info[t].osThread == r.info[t].osThread
    ensures e == LastDetach(t) ==> t !in Step(r, max, e).info
    ensures t !in r.info && t in Step(r, max, e).info ==>
      e.FirstAttach? && e.t == t && Step(r, max, e).info[t] == ThreadInfo(true, e.self, 1)
  {
    hide Removed, IndexOf;
  }

  /** A thread that exists in both states is of the same kind in both. */
  lemma {:induction false} KindStays<T>(states: seq<Registry<T>>, max: nat, events: seq<Event<T>>, t: T, i: nat, n: nat)
    requires Run(states, max, events) && i <= n <= |events| && FreesInternal(states, events, i, n)
    requires t in states[i].info
    ensures t in states[n].info ==> states[n].info[t].internal == states[i].info[t].internal
    ensures t !in states[n].info ==> states[i].info[t].internal
    decreases n
  {
    hide Legal, Step;
    if i < n {
      KindStays(states, max, events, t, i, n - 1);
      StepKind(states[n - 1], max, events[n - 1], t);
    }
  }

  /** Balanced calls restore the registry: when between two states every thread gave back as many attachments as it
      took, the same threads are listed and both counters are as they were. */
  lemma BalancedCallsRestore<T(!new)>(states: seq<Registry<T>>, max: nat, events: seq<Event<T>>, i: nat, j: nat)
    requires Run(states, max, events) && i <= j <= |events| && NobodyRefused(states, max, events, j)
    requires FreesInternal(states, events, i, j)
    requires forall t :: Taken(states, max, events, t, i, j) == Given(states, max, events, t, i, j)
    ensures forall t :: CountOf(states[i], t) == CountOf(states[j], t)
    ensures forall t :: t in states[i].ring <==> t in states[j].ring
    ensures states[i].internalCount == states[j].internalCount && states[i].languageCount == states[j].languageCount
  {
    hide Legal, Step, Refused, Taken, Given;
    forall t
      ensures CountOf(states[i], t) == CountOf(states[j], t)
    {
      AttachCountIsCalls(states, max, events, t, i, j);
    }
    forall t | t in states[i].info && t in states[j].info
      ensures states[i].info[t].internal == states[j].info[t].internal
    {
      KindStays(states, max, events, t, i, j);
    }
    SameCountsRestore(states, max, events, i, j);
  }

  /** When every thread has given back as many attachments as it took, nothing is left: no ring, no counts, no slots. */
  lemma AllDetached<T(!new)>(states: seq<Registry<T>>, max: nat, events: seq<Event<T>>, n: nat)
    requires Run(states, max, events) && n <= |events| && NobodyRefused(states, max, events, n)
    requires forall t :: Taken(states, max, events, t, 0, n) == Given(states, max, events, t, 0, n)
    ensures Unattached(states[n])
  {
    hide Legal, Step, Refused, Taken, Given, Unattached;
    var r := states[n];
    forall t | t in r.info
      ensures r.info[t].attachCount == 0
    {
      AttachCountIsCalls(states, max, events, t, 0, n);
      NoneAtFirst(states[0], t);
    }
    NoCountsNothingLeft(states, max, events, n);
  }

  lemma NoneAtFirst<T>(r: Registry<T>, t: T)
    requires Unattached(r)
    ensures CountOf(r, t) == 0
  {
  }

  // ---- what the codes mean ----

  /** An attach fails without effect exactly when an unattached thread cannot be attached to the thread library;
      it reports too many threads exactly when it counts an unattached thread without listing it; otherwise it
      succeeds, and then the count has risen by one and a first attach has listed the thread. */
  lemma AttachCodesTell<T>(states: seq<Registry<T>>, max: nat, events: seq<Event<T>>, n: nat, t: T, ok: bool)
    requires Run(states, max, events) && n <= |events| && Legal(states[n], Attach(t, ok))
    ensures var r, rc, now := states[n], AttachCode(states[n], max, t, ok), AttachResult(states[n], max, t, ok);
      && (rc == FailedToAttachNativeThread <==> CountOf(r, t) == 0 && !ok)
      && (rc == FailedToAttachNativeThread ==> now == r)
      && (rc != FailedToAttachNativeThread ==> CountOf(now, t) == CountOf(r, t) + 1)
      && (rc == MaximumThreadCountExceeded <==> CountOf(r, t) == 0 && CountOf(now, t) == 1 && t !in now.ring)
      && rc in {ErrorNone, FailedToAttachNativeThread, MaximumThreadCountExceeded}
  {
    hide Consistent;
    RunKeeps(states, max, events, n);
  }

  /** A detach is refused without effect exactly when the thread is not attached, or when its last attachment cannot be
      given back for want of the thread library; otherwise it succeeds, and then the count has fallen by one and the
      thread whose last attachment it was is not listed any more. */
  lemma DetachCodesTell<T>(states: seq<Registry<T>>, max: nat, events: seq<Event<T>>, n: nat, t: T, ok: bool)
    requires Run(states, max, events) && n <= |events| && Legal(states[n], Detach(t, ok))
    ensures var r, rc, now := states[n], DetachCode(states[n], t, ok), DetachResult(states[n], t, ok);
      && (rc == ThreadNotAttached <==> CountOf(r, t) == 0)
      && (rc == FailedToAttachNativeThread <==> CountOf(r, t) == 1 && !ok)
      && (rc != ErrorNone ==> now == r)
      && (rc == ErrorNone ==> CountOf(now, t) == CountOf(r, t) - 1 && (CountOf(now, t) == 0 ==> t !in now.ring))
      && rc in {ErrorNone, ThreadNotAttached, FailedToAttachNativeThread}
  {
    hide Consistent, Removed;
    RunKeeps(states, max, events, n);
    if t in states[n].ring {
      DetachedKeeps(states[n], max, t);
    }
  }

  /** The limit refuses a first attach exactly when the thread is not internal and as many language threads are listed
      as the limit allows. */
  lemma RefusedIffFull<T>(states: seq<Registry<T>>, max: nat, events: seq<Event<T>>, n: nat, t: T)
    requires Run(states, max, events) && n <= |events| && Legal(states[n], Attach(t, true))
    ensures var r := states[n];
      && (forall u :: u in r.ring ==> u in r.info)
      && (Refused(r, max, Attach(t, true))
          <==> CountOf(r, t) == 0 && !r.info[t].internal && max != 0 && |OfKind(r.ring, r.info, false)| == max)
  {
    hide Run, Step, Consistent;
    RunKeeps(states, max, events, n);
    CountersCountTheRing(states, max, events, n);
  }

  // ---- thread-local slots ----

  /** The call puts `t` into the slot of operating-system thread `os`: a first attach there, refused or not. */
  ghost predicate Fills<T>(r: Registry<T>, e: Event<T>, os: nat, t: T)
    requires Legal(r, e)
  {
    match e
    case Attach(u, ok) => u == t && ok && CountOf(r, t) <= 0 && r.info[t].osThread == os
    case FirstAttach(u, self) => u == t && self == os
    case _ => false
  }

  /** The call empties the slot: the last detach of a thread there, whichever thread the slot names. */
  ghost predicate Empties<T>(r: Registry<T>, e: Event<T>, os: nat)
    requires Legal(r, e)
  {
    match e
    case Detach(u, ok) => ok && CountOf(r, u) == 1 && r.info[u].osThread == os
    case LastDetach(u) => r.info[u].osThread == os
    case _ => false
  }

  ghost predicate FilledAt<T>(states: seq<Registry<T>>, max: nat, events: seq<Event<T>>, os: nat, t: T, n: nat, k: nat)
    requires Run(states, max, events) && n <= |events|
  {
    && k < n && Fills(states[k], events[k], os, t)
    && forall l :: k < l < n ==> !Fills(states[l], events[l], os, events[l].t) && !Empties(states[l], events[l], os)
  }

  ghost predicate Filled<T>(states: seq<Registry<T>>, max: nat, events: seq<Event<T>>, os: nat, t: T, n: nat)
    requires Run(states, max, events) && n <= |events|
  {
    exists k: nat :: FilledAt(states, max, events, os, t, n, k)
  }

  lemma StepSlots<T>(r: Registry<T>, max: nat, e: Event<T>, os: nat, t: T)
    requires Legal(r, e)
    ensures var s := Step(r, max, e);
            (os in s.tls && s.tls[os] == t)
            <==> (Fills(r, e, os, t) || (!Fills(r, e, os, e.t) && !Empties(r, e, os) && os in r.tls && r.tls[os] == t))
  {
    hide Removed, IndexOf;
  }

  /** In every state of every run, a thread is in the slot of an operating-system thread exactly when its attach is the
      last thing that filled or emptied that slot. */
  lemma {:induction false} SlotIsLastAttach<T>(states: seq<Registry<T>>, max: nat, events: seq<Event<T>>, os: nat, t: T,
                                               n: nat)
    requires Run(states, max, events) && n <= |events|
    ensures os in states[n].tls && states[n].tls[os] == t <==> Filled(states, max, events, os, t, n)
  {
    hide Step, Fills, Empties, Legal, FilledAt;
    if n > 0 {
      SlotIsLastAttach(states, max, events, os, t, n - 1);
      assert Legal(states[n - 1], events[n - 1]);
      StepSlots(states[n - 1], max, events[n - 1], os, t);
      SlotLater(states, max, events, os, t, n - 1);
    } else {
      NotFilledAtFirst(states, max, events, os, t);
    }
  }

  lemma NotFilledAtFirst<T>(states: seq<Registry<T>>, max: nat, events: seq<Event<T>>, os: nat, t: T)
    requires Run(states, max, events)
    ensures !Filled(states, max, events, os, t, 0) && os !in states[0].tls
  {
  }

  lemma SlotLater<T>(states: seq<Registry<T>>, max: nat, events: seq<Event<T>>, os: nat, t: T, n: nat)
    requires Run(states, max, events) && n < |events| < |states| && Legal(states[n], events[n])
    ensures Filled(states, max, events, os, t, n + 1)
       <==> (Fills(states[n], events[n], os, t)
             || (!Fills(states[n], events[n], os, events[n].t) && !Empties(states[n], events[n], os)
                 && Filled(states, max, events, os, t, n)))
  {
    hide Step, Fills, Empties, Legal, Run;
    if Filled(states, max, events, os, t, n + 1) {
      var k: nat :| FilledAt(states, max, events, os, t, n + 1, k);
      assert k < n ==> FilledAt(states, max, events, os, t, n, k);
    }
    if Fills(states[n], events[n], os, t) {
      assert FilledAt(states, max, events, os, t, n + 1, n);
    }
    if Filled(states, max, events, os, t, n) {
      var k: nat :| FilledAt(states, max, events, os, t, n, k);
      assert !Fills(states[n], events[n], os, events[n].t) && !Empties(states[n], events[n], os) ==>
          FilledAt(states, max, events, os, t, n + 1, k);
    }
  }

  // ---- order ----

  /** The state since which a thread has been listed. */
  ghost function ListedSince<T>(states: seq<Registry<T>>, t: T, n: nat): nat
    requires n < |states|
  {
    if n == 0 || t !in states[n - 1].ring then n else ListedSince(states, t, n - 1)
  }

  /** The ring lists the threads in the order in which they were attached. */
  ghost predicate InOrder<T>(states: seq<Registry<T>>, n: nat)
    requires n < |states|
  {
    forall i, j :: 0 <= i < j < |states[n].ring| ==>
      ListedSince(states, states[n].ring[i], n) < ListedSince(states, states[n].ring[j], n)
  }

  lemma {:induction false} RingIsInOrder<T>(states: seq<Registry<T>>, max: nat, events: seq<Event<T>>, n: nat)
    requires Run(states, max, events) && n <= |events|
    ensures InOrder(states, n)
  {
    hide Legal, Step, Consistent, Removed;
    if n > 0 {
      RingIsInOrder(states, max, events, n - 1);
      RunKeeps(states, max, events, n - 1);
      StepRing(states[n - 1], max, events[n - 1]);
      OrderStays(states, n - 1);
    }
  }

  /** The ring after a call: the old one, with a new thread at its end or without one thread. */
  ghost predicate Follows<T>(before: seq<T>, after: seq<T>) {
    || after == before
    || (|after| == |before| + 1 && after[..|before|] == before && after[|before|] !in before)
    || exists i :: 0 <= i < |before| && after == Removed(before, i)
  }

  lemma StepRing<T>(r: Registry<T>, max: nat, e: Event<T>)
    requires Consistent(r, max) && ListedAreAttached(r) && Legal(r, e)
    ensures Follows(r.ring, Step(r, max, e).ring)
  {
    hide Removed, Tally;
  }

  lemma {:induction false} SinceAtMost<T>(states: seq<Registry<T>>, t: T, n: nat)
    requires n < |states|
    ensures ListedSince(states, t, n) <= n
  {
    if n > 0 {
      SinceAtMost(states, t, n - 1);
    }
  }

  lemma OrderStays<T>(states: seq<Registry<T>>, n: nat)
    requires n + 1 < |states| && InOrder(states, n) && Follows(states[n].ring, states[n + 1].ring)
    ensures InOrder(states, n + 1)
  {
    var before, after := states[n].ring, states[n + 1].ring;
    forall i, j | 0 <= i < j < |after|
      ensures ListedSince(states, after[i], n + 1) < ListedSince(states, after[j], n + 1)
    {
      SinceAtMost(states, after[i], n);
      if |after| == |before| + 1 && after[..|before|] == before && after[|before|] !in before {
        assert after[i] == after[..|before|][i];
        assert j < |before| ==> after[j] == after[..|before|][j];
      } else if after != before {
        var g :| 0 <= g < |before| && after == Removed(before, g);
        assert after[i] == before[if i < g then i else i + 1] && after[j] == before[if j < g then j else j + 1];
      }
    }
  }
}

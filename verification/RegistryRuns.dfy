/** The thread registry over every run of attaches and detaches, refused ones included. */
module RegistryRuns {
  import opened Rings
  import opened ThreadRegistry

  datatype Event<T> =
    | Attach(t: T, nativeAttachSucceeds: bool)
    | Detach(t: T, nativeAttachSucceeds: bool)
    | FirstAttach(t: T, self: nat)
    | LastDetach(t: T)
    | Reattach(t: T)
    | Redetach(t: T)

  /** What callers owe: a first attach makes a new thread, a last detach frees a listed one, only re-attached
      threads are re-detached. Detaching a thread with count 1 that is not in the ring follows links that were
      never set, so no run contains it. */
  ghost predicate Legal<T>(r: Registry<T>, e: Event<T>) {
    match e
    case Attach(t, _) => t in r.info && (r.info[t].attachCount <= 0 ==> t !in r.ring)
    case Detach(t, _) => t in r.info && (r.info[t].attachCount == 1 ==> t in r.ring)
    case FirstAttach(t, _) => t !in r.info
    case LastDetach(t) => t in r.info && t in r.ring
    case Reattach(t) => t in r.info && r.info[t].attachCount > 0
    case Redetach(t) => t in r.info && r.info[t].attachCount > 1
  }

  ghost function Step<T>(r: Registry<T>, max: nat, e: Event<T>): Registry<T>
    requires Legal(r, e)
  {
    match e
    case Attach(t, ok) => AttachResult(r, max, t, ok)
    case Detach(t, ok) => DetachResult(r, t, ok)
    case FirstAttach(t, self) => FirstAttached(r, max, t, self)
    case LastDetach(t) => LastDetached(r, t)
    case Reattach(t) => Counted(r, t, 1)
    case Redetach(t) => Counted(r, t, -1)
  }

  ghost predicate Unattached<T>(r: Registry<T>) {
    && r.ring == [] && r.internalCount == 0 == r.languageCount && r.tls == map[]
    && forall t :: t in r.info ==> r.info[t].attachCount == 0
  }

  ghost predicate Run<T>(states: seq<Registry<T>>, max: nat, events: seq<Event<T>>) {
    && |states| == |events| + 1 && Unattached(states[0])
    && forall n :: 0 <= n < |events| ==> Legal(states[n], events[n]) && states[n + 1] == Step(states[n], max, events[n])
  }

  /** The thread limit refuses the thread. */
  predicate Refused<T>(r: Registry<T>, max: nat, e: Event<T>) {
    e.Attach? && e.t in r.info && AttachCode(r, max, e.t, e.nativeAttachSucceeds) == MaximumThreadCountExceeded
  }

  // ---- counting the ring ----

  lemma TallyAppend<T>(ring: seq<T>, info: map<T, ThreadInfo>, t: T, internal: bool)
    requires (forall u :: u in ring ==> u in info) && t in info
    ensures Tally(ring + [t], info, internal)
        == Tally(ring, info, internal) + if info[t].internal == internal then 1 else 0
  {
    assert (ring + [t])[..|ring|] == ring;
  }

  lemma {:induction false} TallyRemove<T>(ring: seq<T>, info: map<T, ThreadInfo>, i: nat, internal: bool)
    requires (forall u :: u in ring ==> u in info) && i < |ring|
    ensures Tally(ring, info, internal)
        == Tally(Removed(ring, i), info, internal) + if info[ring[i]].internal == internal then 1 else 0
    decreases |ring|
  {
    var n := |ring| - 1;
    if i == n {
      assert Removed(ring, i) == ring[..n];
    } else {
      TallyRemove(ring[..n], info, i, internal);
      assert Removed(ring, i) == Removed(ring[..n], i) + [ring[n]];
      TallyAppend(Removed(ring[..n], i), info, ring[n], internal);
    }
  }

  lemma {:induction false} TallyDependsOnKind<T>(ring: seq<T>, a: map<T, ThreadInfo>, b: map<T, ThreadInfo>,
                                                 internal: bool)
    requires forall u :: u in ring ==> u in a && u in b && a[u].internal == b[u].internal
    ensures Tally(ring, a, internal) == Tally(ring, b, internal)
  {
    if ring != [] {
      TallyDependsOnKind(ring[..|ring| - 1], a, b, internal);
    }
  }

  ghost function OfKind<T>(ring: seq<T>, info: map<T, ThreadInfo>, internal: bool): set<T>
    requires forall u :: u in ring ==> u in info
  {
    set u | u in ring && info[u].internal == internal
  }

  /** In a ring the tally is the number of threads of the kind. */
  lemma {:induction false} TallyIsSize<T>(ring: seq<T>, info: map<T, ThreadInfo>, internal: bool)
    requires (forall u :: u in ring ==> u in info) && forall i, j :: 0 <= i < j < |ring| ==> ring[i] != ring[j]
    ensures Tally(ring, info, internal) == |OfKind(ring, info, internal)|
  {
    if ring != [] {
      var n := |ring| - 1;
      TallyIsSize(ring[..n], info, internal);
      var front, last := OfKind(ring[..n], info, internal), ring[n];
      assert last !in front;
      if info[last].internal == internal {
        assert OfKind(ring, info, internal) == front + {last};
      } else {
        assert OfKind(ring, info, internal) == front;
      }
    }
  }

  // ---- what every step keeps ----

  /** Listed threads have been attached. */
  ghost predicate ListedAreAttached<T>(r: Registry<T>) {
    && (forall t :: t in r.ring ==> t in r.info && r.info[t].attachCount > 0)
    && forall t :: t in r.info ==> r.info[t].attachCount >= 0
  }

  ghost predicate AttachedAreListed<T>(r: Registry<T>) {
    forall t :: t in r.info && r.info[t].attachCount > 0 ==> t in r.ring
  }

  /** The thread-local slot of an operating-system thread names a listed thread of it, so nobody is handed a
      thread that was freed. */
  ghost predicate TlsNamesListed<T>(r: Registry<T>) {
    forall os :: os in r.tls ==> r.tls[os] in r.ring && r.tls[os] in r.info && r.info[r.tls[os]].osThread == os
  }

  lemma CountedKeeps<T>(r: Registry<T>, max: nat, t: T, delta: int)
    requires Consistent(r, max) && t in r.info
    ensures Consistent(Counted(r, t, delta), max)
  {
    TallyDependsOnKind(r.ring, r.info, Counted(r, t, delta).info, true);
    TallyDependsOnKind(r.ring, r.info, Counted(r, t, delta).info, false);
  }

  lemma AttachedKeeps<T>(r: Registry<T>, max: nat, t: T)
    requires Consistent(r, max) && t in r.info && t !in r.ring
    ensures Consistent(Attached(r, max, t), max)
  {
    TallyAppend(r.ring, r.info, t, true);
    TallyAppend(r.ring, r.info, t, false);
  }

  lemma DetachedKeeps<T>(r: Registry<T>, max: nat, t: T)
    requires Consistent(r, max) && t in r.info && t in r.ring
    ensures Consistent(Detached(r, t), max)
    ensures forall u :: u in Detached(r, t).ring ==> u in r.ring && u != t && u in r.info
    ensures forall u :: u in r.ring && u != t ==> u in Detached(r, t).ring
  {
    hide Removed, Tally, IndexOf;
    var d := Detached(r, t);
    RemovedIsGone(r.ring, t);
    TallyRemove(r.ring, r.info, IndexOf(r.ring, t), true);
    TallyRemove(r.ring, r.info, IndexOf(r.ring, t), false);
    assert forall u :: u in d.ring ==> u in r.ring;
    assert forall i, j :: 0 <= i < j < |d.ring| ==> d.ring[i] != d.ring[j];
    assert d.internalCount == Tally(d.ring, d.info, true);
    assert d.languageCount == Tally(d.ring, d.info, false);
  }

  lemma InfoKeeps<T>(r: Registry<T>, max: nat, info: map<T, ThreadInfo>)
    requires Consistent(r, max) && forall u :: u in r.ring ==> u in info && info[u].internal == r.info[u].internal
    ensures Consistent(r.(info := info), max)
  {
    TallyDependsOnKind(r.ring, r.info, info, true);
    TallyDependsOnKind(r.ring, r.info, info, false);
  }

  lemma StepConsistent<T>(r: Registry<T>, max: nat, e: Event<T>)
    requires Consistent(r, max) && ListedAreAttached(r) && Legal(r, e)
    ensures Consistent(Step(r, max, e), max)
  {
    hide Consistent, Attached, Detached, Tally;
    match e
    case Attach(t, ok) =>
      if r.info[t].attachCount > 0 {
        CountedKeeps(r, max, t, 1);
      } else if ok {
        AttachedKeeps(r, max, t);
        AttachedInfo(r, max, t);
        CountedKeeps(Attached(r, max, t), max, t, 1);
      }
    case Detach(t, ok) =>
      if r.info[t].attachCount > 1 {
        CountedKeeps(r, max, t, -1);
      } else if r.info[t].attachCount == 1 && ok {
        DetachedKeeps(r, max, t);
        DetachedInfo(r, t);
        CountedKeeps(Detached(r, t), max, t, -1);
      }
    case FirstAttach(t, self) =>
      InfoKeeps(r, max, r.info[t := ThreadInfo(true, self, 1)]);
      AttachedKeeps(r.(info := r.info[t := ThreadInfo(true, self, 1)]), max, t);
    case LastDetach(t) =>
      DetachedKeeps(r, max, t);
      DetachedInfo(r, t);
      InfoKeeps(Detached(r, t), max, r.info - {t});
    case Reattach(t) => CountedKeeps(r, max, t, 1);
    case Redetach(t) => CountedKeeps(r, max, t, -1);
  }

  lemma AttachedInfo<T>(r: Registry<T>, max: nat, t: T)
    requires t in r.info
    ensures Attached(r, max, t).info == r.info
    ensures Attached(r, max, t).ring == if Admits(r, max, r.info[t].internal) then r.ring + [t] else r.ring
    ensures Attached(r, max, t).tls == r.tls[r.info[t].osThread := t]
  {
  }

  lemma DetachedInfo<T>(r: Registry<T>, t: T)
    requires t in r.info && t in r.ring
    ensures Detached(r, t).info == r.info && Detached(r, t).tls == r.tls - {r.info[t].osThread}
  {
  }

  /** After a step: who is listed, who is attached, what the thread-local slots name. */
  lemma StepListed<T>(r: Registry<T>, max: nat, e: Event<T>)
    requires Consistent(r, max) && ListedAreAttached(r) && Legal(r, e)
    ensures ListedAreAttached(Step(r, max, e))
    ensures Refused(r, max, e) ==> !AttachedAreListed(Step(r, max, e))
    ensures !Refused(r, max, e) && AttachedAreListed(r) ==> AttachedAreListed(Step(r, max, e))
    ensures !Refused(r, max, e) && TlsNamesListed(r) ==> TlsNamesListed(Step(r, max, e))
  {
    hide Consistent, Attached, Detached, Tally, ListedAreAttached, AttachedAreListed, TlsNamesListed;
    match e
    case Attach(t, ok) => AttachListed(r, max, t, ok);
    case Detach(t, ok) => DetachListed(r, max, t, ok);
    case FirstAttach(t, self) => FirstAttachListed(r, max, t, self);
    case LastDetach(t) => LastDetachListed(r, max, t);
    case Reattach(t) => CountedListed(r, t, 1);
    case Redetach(t) => CountedListed(r, t, -1);
  }

  /** Counting alone changes nothing as long as the count stays positive. */
  lemma CountedListed<T>(r: Registry<T>, t: T, delta: int)
    requires ListedAreAttached(r) && t in r.info && r.info[t].attachCount > 0 && r.info[t].attachCount + delta > 0
    ensures ListedAreAttached(Counted(r, t, delta))
    ensures AttachedAreListed(r) ==> AttachedAreListed(Counted(r, t, delta))
    ensures TlsNamesListed(r) ==> TlsNamesListed(Counted(r, t, delta))
  {
  }

  lemma AttachListed<T>(r: Registry<T>, max: nat, t: T, ok: bool)
    requires Consistent(r, max) && ListedAreAttached(r) && Legal(r, Attach(t, ok))
    ensures var s := AttachResult(r, max, t, ok);
            var refused := Refused(r, max, Attach(t, ok));
            && ListedAreAttached(s)
            && (refused ==> !AttachedAreListed(s))
            && (!refused && AttachedAreListed(r) ==> AttachedAreListed(s))
            && (!refused && TlsNamesListed(r) ==> TlsNamesListed(s))
  {
    hide Consistent, Attached;
    if r.info[t].attachCount > 0 {
      CountedListed(r, t, 1);
    } else {
      AttachedInfo(r, max, t);
      var s := AttachResult(r, max, t, ok);
      if Refused(r, max, Attach(t, ok)) {
        assert t in s.info && s.info[t].attachCount > 0 && t !in s.ring;
      } else if ok {
        assert s.ring == r.ring + [t];
      }
    }
  }

  lemma DetachListed<T>(r: Registry<T>, max: nat, t: T, ok: bool)
    requires Consistent(r, max) && ListedAreAttached(r) && Legal(r, Detach(t, ok))
    ensures var s := DetachResult(r, t, ok);
            && ListedAreAttached(s)
            && (AttachedAreListed(r) ==> AttachedAreListed(s))
            && (TlsNamesListed(r) ==> TlsNamesListed(s))
  {
    hide Consistent, Detached;
    if r.info[t].attachCount > 1 {
      CountedListed(r, t, -1);
    } else if r.info[t].attachCount == 1 {
      DetachedKeeps(r, max, t);
      DetachedInfo(r, t);
      var s, d := DetachResult(r, t, ok), Detached(r, t);
      if ok {
        assert forall u :: u in s.ring ==> u in d.ring;
      }
    }
  }

  lemma FirstAttachListed<T>(r: Registry<T>, max: nat, t: T, self: nat)
    requires ListedAreAttached(r) && t !in r.info
    ensures var s := FirstAttached(r, max, t, self);
            && ListedAreAttached(s)
            && (AttachedAreListed(r) ==> AttachedAreListed(s))
            && (TlsNamesListed(r) ==> TlsNamesListed(s))
  {
    hide Attached;
    AttachedInfo(r.(info := r.info[t := ThreadInfo(true, self, 1)]), max, t);
  }

  lemma LastDetachListed<T>(r: Registry<T>, max: nat, t: T)
    requires Consistent(r, max) && ListedAreAttached(r) && Legal(r, LastDetach(t))
    ensures var s := LastDetached(r, t);
            && ListedAreAttached(s)
            && (AttachedAreListed(r) ==> AttachedAreListed(s))
            && (TlsNamesListed(r) ==> TlsNamesListed(s))
  {
    hide Consistent, Detached;
    DetachedKeeps(r, max, t);
    DetachedInfo(r, t);
    assert forall u :: u in LastDetached(r, t).ring ==> u in Detached(r, t).ring;
  }

  // ---- whole runs ----

  lemma {:induction false} RunKeeps<T>(states: seq<Registry<T>>, max: nat, events: seq<Event<T>>, n: nat)
    requires Run(states, max, events) && n <= |events|
    ensures Consistent(states[n], max) && ListedAreAttached(states[n])
  {
    if n > 0 {
      hide Legal, Step;
      RunKeeps(states, max, events, n - 1);
      assert Legal(states[n - 1], events[n - 1]);
      StepConsistent(states[n - 1], max, events[n - 1]);
      StepListed(states[n - 1], max, events[n - 1]);
    }
  }

  /** In every state of every run, refusals included, the counters are the numbers of internal and language
      threads in the ring, nobody is listed twice, and a maximum that is set is kept. */
  lemma CountersCountTheRing<T>(states: seq<Registry<T>>, max: nat, events: seq<Event<T>>, n: nat)
    requires Run(states, max, events) && n <= |events|
    ensures var r := states[n];
      && (forall i, j :: 0 <= i < j < |r.ring| ==> r.ring[i] != r.ring[j])
      && (forall t :: t in r.ring ==> t in r.info)
      && r.internalCount == |OfKind(r.ring, r.info, true)|
      && r.languageCount == |OfKind(r.ring, r.info, false)|
      && (max != 0 ==> r.languageCount <= max)
  {
    hide Legal, Step, Tally;
    RunKeeps(states, max, events, n);
    TallyIsSize(states[n].ring, states[n].info, true);
    TallyIsSize(states[n].ring, states[n].info, false);
  }

  ghost predicate NobodyRefused<T>(states: seq<Registry<T>>, max: nat, events: seq<Event<T>>, n: nat)
    requires n <= |events| <= |states|
  {
    forall k :: 0 <= k < n ==> !Refused(states[k], max, events[k])
  }

  lemma {:induction false} UnrefusedKeeps<T>(states: seq<Registry<T>>, max: nat, events: seq<Event<T>>, n: nat)
    requires Run(states, max, events) && n <= |events| && NobodyRefused(states, max, events, n)
    ensures AttachedAreListed(states[n]) && TlsNamesListed(states[n])
  {
    if n > 0 {
      hide Legal, Step, Refused;
      UnrefusedKeeps(states, max, events, n - 1);
      RunKeeps(states, max, events, n - 1);
      StepListed(states[n - 1], max, events[n - 1]);
    }
  }

  ghost predicate Listed<T>(r: Registry<T>) {
    forall t :: t in r.info ==> (t in r.ring <==> r.info[t].attachCount > 0)
  }

  /** A thread is in the ring exactly while its attach count is positive, in every state of a run, if and only if
      the run refuses nobody. */
  lemma ListedIffUnrefused<T>(states: seq<Registry<T>>, max: nat, events: seq<Event<T>>)
    requires Run(states, max, events)
    ensures (forall n :: 0 <= n <= |events| ==> Listed(states[n])) <==> NobodyRefused(states, max, events, |events|)
  {
    hide Legal, Step, Refused, Consistent;
    if NobodyRefused(states, max, events, |events|) {
      forall n | 0 <= n <= |events|
        ensures Listed(states[n])
      {
        RunKeeps(states, max, events, n);
        UnrefusedKeeps(states, max, events, n);
      }
    } else {
      var n :| 0 <= n < |events| && Refused(states[n], max, events[n]);
      RunKeeps(states, max, events, n);
      StepListed(states[n], max, events[n]);
      assert !Listed(states[n + 1]);
    }
  }

  /** A refused thread looks attached but is not listed, and its detach would take it out of a ring it is not in. */
  lemma RefusalMisleads<T>(states: seq<Registry<T>>, max: nat, events: seq<Event<T>>, n: nat)
    requires Run(states, max, events) && n < |events| && Refused(states[n], max, events[n])
    ensures var t, r := events[n].t, states[n + 1];
            && t in r.info && r.info[t].attachCount == 1 && t !in r.ring
            && r.tls == states[n].tls[r.info[t].osThread := t]
            && !Legal(r, Detach(t, true)) && DetachCode(r, t, true) == ErrorNone
  {
    RunKeeps(states, max, events, n);
    AttachedInfo(states[n], max, events[n].t);
  }

  /** In every state of a run the thread-local slots name listed threads only, if and only if the run refuses
      nobody. */
  lemma CurrentThreadIsListedIff<T>(states: seq<Registry<T>>, max: nat, events: seq<Event<T>>)
    requires Run(states, max, events)
    ensures (forall n :: 0 <= n <= |events| ==> TlsNamesListed(states[n]))
        <==> NobodyRefused(states, max, events, |events|)
  {
    hide Legal, Step, Refused, TlsNamesListed;
    if NobodyRefused(states, max, events, |events|) {
      forall n | 0 <= n <= |events|
        ensures TlsNamesListed(states[n])
      {
        UnrefusedKeeps(states, max, events, n);
      }
    } else {
      var n :| 0 <= n < |events| && Refused(states[n], max, events[n]);
      RefusalMisleads(states, max, events, n);
      SlotNamesUnlisted(states[n + 1], events[n].t);
    }
  }

  lemma SlotNamesUnlisted<T>(r: Registry<T>, t: T)
    requires t in r.info && t !in r.ring && r.info[t].osThread in r.tls && r.tls[r.info[t].osThread] == t
    ensures !TlsNamesListed(r)
  {
  }

  /** The attach count of a thread; one that does not exist has none. */
  function CountOf<T>(r: Registry<T>, t: T): int {
    if t in r.info then r.info[t].attachCount else 0
  }

  lemma ListedByCount<T(!new)>(states: seq<Registry<T>>, max: nat, events: seq<Event<T>>, n: nat)
    requires Run(states, max, events) && n <= |events| && NobodyRefused(states, max, events, n)
    ensures forall t :: t in states[n].ring <==> CountOf(states[n], t) > 0
    ensures forall t :: t in states[n].ring ==> t in states[n].info
  {
    hide Run, Refused, Consistent;
    UnrefusedKeeps(states, max, events, n);
    RunKeeps(states, max, events, n);
  }

  /** Whenever all attach counts are back, so are the set of listed threads and both counters. */
  lemma SameCountsRestore<T(!new)>(states: seq<Registry<T>>, max: nat, events: seq<Event<T>>, i: nat, j: nat)
    requires Run(states, max, events) && i <= j <= |events| && NobodyRefused(states, max, events, j)
    requires forall t :: CountOf(states[i], t) == CountOf(states[j], t)
    requires forall t :: t in states[i].info && t in states[j].info ==>
                           states[i].info[t].internal == states[j].info[t].internal
    ensures forall t :: t in states[i].ring <==> t in states[j].ring
    ensures states[i].internalCount == states[j].internalCount && states[i].languageCount == states[j].languageCount
  {
    hide Legal, Step, Refused;
    var r, s := states[i], states[j];
    ListedByCount(states, max, events, i);
    ListedByCount(states, max, events, j);
    CountersCountTheRing(states, max, events, i);
    CountersCountTheRing(states, max, events, j);
    assert OfKind(r.ring, r.info, true) == OfKind(s.ring, s.info, true);
    assert OfKind(r.ring, r.info, false) == OfKind(s.ring, s.info, false);
  }

  /** When no attach count is left, nothing is: no ring, no counters, no slots. */
  lemma NoCountsNothingLeft<T>(states: seq<Registry<T>>, max: nat, events: seq<Event<T>>, n: nat)
    requires Run(states, max, events) && n <= |events| && NobodyRefused(states, max, events, n)
    requires forall t :: t in states[n].info ==> states[n].info[t].attachCount == 0
    ensures Unattached(states[n])
  {
    var r := states[n];
    RunKeeps(states, max, events, n);
    UnrefusedKeeps(states, max, events, n);
    assert r.tls.Keys == {};
  }
}

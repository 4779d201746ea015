/** The registry in a forked child: every thread but the forking one is freed while the ring is walked. */
module ForkChild {
  import opened Options
  import opened Rings
  import opened RegistryRuns
  import opened ThreadRegistry

  /** The positions of the threads that do not run on `self`, and the last that does. */
  function Others<T>(ring: seq<T>, info: map<T, ThreadInfo>, self: nat): seq<T>
    requires forall t :: t in ring ==> t in info
  {
    if ring == [] then []
    else
      var n := |ring| - 1;
      Others(ring[..n], info, self) + if info[ring[n]].osThread == self then [] else [ring[n]]
  }

  function Current<T>(ring: seq<T>, info: map<T, ThreadInfo>, self: nat): Option<T>
    requires forall t :: t in ring ==> t in info
  {
    if ring == [] then None
    else
      var n := |ring| - 1;
      if info[ring[n]].osThread == self then Some(ring[n]) else Current(ring[..n], info, self)
  }

  /** The child's registry: only the current thread is listed. */
  function Forked<T>(r: Registry<T>, self: nat): Registry<T>
    requires (forall t :: t in r.ring ==> t in r.info) && Current(r.ring, r.info, self).Some?
  {
    var current := Current(r.ring, r.info, self).value;
    var gone := set t | t in Others(r.ring, r.info, self);
    var internal := current in r.info && r.info[current].internal;
    Registry([current], r.info - gone, if internal then 1 else 0, if internal then 0 else 1, r.tls)
  }

  lemma {:induction false} CurrentIsMember<T>(ring: seq<T>, info: map<T, ThreadInfo>, self: nat)
    requires forall t :: t in ring ==> t in info
    ensures var c := Current(ring, info, self); c.Some? ==> c.value in ring && info[c.value].osThread == self
    ensures Current(ring, info, self).None? <==> forall t :: t in ring ==> info[t].osThread != self
  {
    if ring != [] {
      var n := |ring| - 1;
      CurrentIsMember(ring[..n], info, self);
      assert forall t :: t in ring <==> t in ring[..n] || t == ring[n];
    }
  }

  lemma {:induction false} OthersAreOthers<T>(ring: seq<T>, info: map<T, ThreadInfo>, self: nat, t: T)
    requires forall u :: u in ring ==> u in info
    ensures t in Others(ring, info, self) <==> t in ring && info[t].osThread != self
  {
    if ring != [] {
      OthersAreOthers(ring[..|ring| - 1], info, self, t);
    }
  }

  lemma {:induction false} OthersAreDistinct<T>(ring: seq<T>, info: map<T, ThreadInfo>, self: nat)
    requires (forall u :: u in ring ==> u in info) && forall i, j :: 0 <= i < j < |ring| ==> ring[i] != ring[j]
    ensures var o := Others(ring, info, self); forall i, j :: 0 <= i < j < |o| ==> o[i] != o[j]
  {
    if ring != [] {
      var n := |ring| - 1;
      OthersAreDistinct(ring[..n], info, self);
      OthersAreOthers(ring[..n], info, self, ring[n]);
    }
  }

  /** Of several threads on the forking operating-system thread, the current one is the last in the ring. */
  lemma {:induction false} CurrentIsLast<T>(ring: seq<T>, info: map<T, ThreadInfo>, self: nat, i: nat)
    requires (forall t :: t in ring ==> t in info) && i < |ring| && info[ring[i]].osThread == self
    requires forall j :: i < j < |ring| ==> info[ring[j]].osThread != self
    ensures Current(ring, info, self) == Some(ring[i])
    decreases |ring|
  {
    var n := |ring| - 1;
    if i < n {
      assert forall j :: i < j < n ==> ring[..n][j] == ring[j];
      CurrentIsLast(ring[..n], info, self, i);
    }
  }

  /** The other threads keep the order of the ring. */
  lemma {:induction false} OthersKeepOrder<T>(ring: seq<T>, info: map<T, ThreadInfo>, self: nat, i: nat, j: nat)
    requires (forall t :: t in ring ==> t in info) && i < j < |ring|
    requires info[ring[i]].osThread != self && info[ring[j]].osThread != self
    ensures exists k, l :: 0 <= k < l < |Others(ring, info, self)|
              && Others(ring, info, self)[k] == ring[i] && Others(ring, info, self)[l] == ring[j]
    decreases |ring|
  {
    var n := |ring| - 1;
    var front, all := Others(ring[..n], info, self), Others(ring, info, self);
    assert all[..|front|] == front;
    if j < n {
      OthersKeepOrder(ring[..n], info, self, i, j);
      var k, l :| 0 <= k < l < |front| && front[k] == ring[i] && front[l] == ring[j];
      assert all[k] == front[k] && all[l] == front[l];
    } else {
      OthersAreOthers(ring[..n], info, self, ring[i]);
      assert ring[..n][i] == ring[i];
      var k :| 0 <= k < |front| && front[k] == ring[i];
      assert all[k] == front[k] && all[|front|] == ring[j];
    }
  }

  /** The child starts from a consistent registry, whatever the parent's other threads were. */
  lemma ForkedIsConsistent<T>(r: Registry<T>, max: nat, self: nat)
    requires Consistent(r, max) && Current(r.ring, r.info, self).Some?
    ensures Consistent(Forked(r, self), max)
    ensures forall t :: t in r.info && t !in Forked(r, self).info <==> t in r.ring && r.info[t].osThread != self
  {
    var s := Forked(r, self);
    CurrentIsMember(r.ring, r.info, self);
    var current := Current(r.ring, r.info, self).value;
    forall t
      ensures t in Others(r.ring, r.info, self) <==> t in r.ring && r.info[t].osThread != self
    {
      OthersAreOthers(r.ring, r.info, self, t);
    }
    assert s.ring[..0] == [];
    assert Tally(s.ring[..0], s.info, true) == 0 == Tally(s.ring[..0], s.info, false);
  }

  lemma WalkStart<T>(ring: seq<T>, info: map<T, ThreadInfo>, self: nat)
    requires forall t :: t in ring ==> t in info
    ensures Others(ring[..0], info, self) == [] && Current(ring[..0], info, self) == None && Behind([], ring, 0)
  {
  }

  /** One more thread of the walk. */
  lemma WalkStep<T>(ring: seq<T>, info: map<T, ThreadInfo>, self: nat, k: nat)
    requires (forall t :: t in ring ==> t in info) && k < |ring|
    ensures Others(ring[..k + 1], info, self)
        == Others(ring[..k], info, self) + (if info[ring[k]].osThread == self then [] else [ring[k]])
    ensures Current(ring[..k + 1], info, self)
        == if info[ring[k]].osThread == self then Some(ring[k]) else Current(ring[..k], info, self)
  {
    assert ring[..k + 1][..k] == ring[..k];
  }

  /** The threads freed so far are among those walked so far. */
  ghost predicate Behind<T>(freed: seq<T>, ring: seq<T>, k: nat)
    requires k <= |ring|
  {
    forall t :: t in freed ==> t in ring[..k]
  }

  lemma BehindStep<T>(freed: seq<T>, ring: seq<T>, k: nat)
    requires k < |ring| && Behind(freed, ring, k) && forall i, j :: 0 <= i < j < |ring| ==> ring[i] != ring[j]
    ensures Behind(freed, ring, k + 1) && Behind(freed + [ring[k]], ring, k + 1)
    ensures forall j :: k <= j < |ring| ==> ring[j] !in freed
  {
    forall t | t in ring[..k]
      ensures t in ring[..k + 1]
    {
    }
    assert ring[k] == ring[..k + 1][k];
  }

  /** An attached thread is lost to the child, neither freed nor listed, exactly when another thread is registered
      for the same operating-system thread after it. */
  lemma NobodyLostIff<T>(r: Registry<T>, max: nat, self: nat)
    requires Consistent(r, max) && AttachedAreListed(r) && ListedAreAttached(r) && Current(r.ring, r.info, self).Some?
    ensures AttachedAreListed(Forked(r, self))
       <==> forall t :: t in r.ring && r.info[t].osThread == self ==> t == Current(r.ring, r.info, self).value
  {
    var s := Forked(r, self);
    ForkedIsConsistent(r, max, self);
    CurrentIsMember(r.ring, r.info, self);
    assert forall t :: t in s.info ==> t in r.info && s.info[t] == r.info[t];
    forall t | t in r.ring && r.info[t].osThread == self
      ensures t in s.info
    {
    }
  }

  /** The thread-local slots are not cleaned: in the child they name listed threads only if every one of them named the
      current thread already. */
  lemma ChildSlotsIff<T>(r: Registry<T>, max: nat, self: nat)
    requires Consistent(r, max) && TlsNamesListed(r) && Current(r.ring, r.info, self).Some?
    ensures TlsNamesListed(Forked(r, self))
       <==> forall os :: os in r.tls ==> r.tls[os] == Current(r.ring, r.info, self).value
  {
    hide Current, Others;
    var s, current := Forked(r, self), Current(r.ring, r.info, self).value;
    ForkedIsConsistent(r, max, self);
    CurrentIsMember(r.ring, r.info, self);
    assert current in s.ring && current in s.info;
    assert forall t :: t in s.ring ==> t == current;
  }

  /** Freeing a thread leaves its memory in any state. */
  method Free(vmthread: VMThread)
    modifies vmthread
  {
    vmthread.linkNext, vmthread.linkPrevious := null, null;
  }

  /** The walk of `omr_vm_postForkChild`. Freed threads hold garbage, so what the walk yields cannot depend on
      reading them. */
  method FreeOthers(vm: Vm, self: nat) returns (currentVMThread: Option<VMThread>, ghost freed: seq<VMThread>)
    requires vm.Valid()
    modifies vm.threads
    ensures currentVMThread == Current(old(vm.State()).ring, old(vm.State()).info, self)
    ensures freed == Others(old(vm.State()).ring, old(vm.State()).info, self)
    ensures forall t :: t in vm.threads && t !in freed ==> t.data == old(t.data)
  {
    hide Others, Current, Behind;
    ghost var ring, info := vm.vmThreadList.nodes, vm.State().info;
    currentVMThread, freed := None, [];
    WalkStart(ring, info, self);
    var walkThread := vm.vmThreadList.StartDo();
    ghost var k := 0;
    while walkThread != null
      invariant k <= |ring|
      invariant walkThread == if k == |ring| then null else ring[k]
      invariant freed == Others(ring[..k], info, self) && currentVMThread == Current(ring[..k], info, self)
      invariant Behind(freed, ring, k)
      invariant forall j {:trigger ring[j].linkNext} :: k <= j < |ring| ==> ring[j].linkNext == old(ring[j].linkNext)
      invariant forall t :: t in vm.threads && t !in freed ==> t.data == old(t.data)
      decreases |ring| - k
    {
      WalkStep(ring, info, self, k);
      BehindStep(freed, ring, k);
      assert walkThread !in freed;
      var nextThread := vm.vmThreadList.NextDo(walkThread);
      if walkThread.data.osThread == self {
        currentVMThread := Some(walkThread);
      } else {
        Free(walkThread);
        freed := freed + [walkThread];
      }
      walkThread := nextThread;
      k := k + 1;
    }
    assert ring[..k] == ring;
  }

  /** `omr_vm_postForkChild`: every thread of another operating-system thread is freed once, in ring order; the
      current thread is the only one listed and counted. */
  method PostForkChild(vm: Vm, self: nat, parent: int) returns (ghost freed: seq<VMThread>)
    requires vm.Valid()
    requires Current(vm.State().ring, vm.State().info, self).Some?
    modifies vm, vm.vmThreadList, vm.threads
    ensures vm.Valid() && vm.State() == Forked(old(vm.State()), self)
    ensures freed == Others(old(vm.State()).ring, old(vm.State()).info, self)
    ensures vm.forkGeneration == old(vm.forkGeneration) + 1 && vm.parentPID == parent
  {
    hide Current, Others, IsRing;
    vm.parentPID := parent;
    vm.forkGeneration := vm.forkGeneration + 1;
    ghost var r := vm.State();
    assert r == old(vm.State());
    var currentVMThread;
    currentVMThread, freed := FreeOthers(vm, self);
    CurrentIsMember(r.ring, r.info, self);
    OthersAreOthers(r.ring, r.info, self, currentVMThread.value);
    ListOnly(vm, currentVMThread.value, freed);
    assert vm.State().info == r.info - (set t | t in freed);
  }

  /** Resets the list and the counters to the one thread that is left. */
  method ListOnly(vm: Vm, current: VMThread, ghost freed: seq<VMThread>)
    requires current in vm.threads && current !in freed
    modifies vm`internalThreadCount, vm`languageThreadCount, vm`threads, vm.vmThreadList, current`linkNext,
      current`linkPrevious
    ensures vm.Valid() && vm.threads == old(vm.threads) - (set t | t in freed)
    ensures vm.vmThreadList.nodes == [current]
    ensures vm.internalThreadCount == (if current.data.internal then 1 else 0)
    ensures vm.languageThreadCount == (if current.data.internal then 0 else 1)
  {
    vm.vmThreadList.root, vm.vmThreadList.nodes := null, [];
    if current.data.internal {
      vm.internalThreadCount := 1;
      vm.languageThreadCount := 0;
    } else {
      vm.internalThreadCount := 0;
      vm.languageThreadCount := 1;
    }
    vm.vmThreadList.AddLast(current);
    vm.threads := vm.threads - (set t | t in freed);
  }
}

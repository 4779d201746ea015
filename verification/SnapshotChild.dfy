/**
 The child of a fork, on the memory that it was given: the copy of whatever the parent's threads had made of the
 list at that moment. Freed threads hold garbage from then on.
 */
module SnapshotChild {
  import opened ForkChild
  import opened ForkSnapshot
  import opened Options
  import opened ThreadRegistry

  /** What is known of the listed threads: the kinds that the VM counts by. */
  ghost predicate Known(limits: Limits, ring: seq<Address>, info: map<Address, ThreadInfo>) {
    forall t :: t in ring ==> t in info && (info[t].internal <==> t in limits.internal)
  }

  /** The links of every thread that was not freed are still there. */
  ghost predicate Kept(before: Memory, after: Memory, freed: seq<Address>) {
    && after.root == before.root
    && forall a: Address :: a !in freed ==>
         Next(after, a) == Next(before, a) && Previous(after, a) == Previous(before, a)
  }

  /** Freeing a thread leaves its links in any state. */
  method FreeThread(m: Memory, t: Address) returns (after: Memory)
    ensures Kept(m, after, [t])
  {
    after := m.(next := m.next - {t}, previous := m.previous - {t});
  }

  lemma KeptMore(before: Memory, mid: Memory, after: Memory, freed: seq<Address>, t: Address)
    requires Kept(before, mid, freed) && Kept(mid, after, [t])
    ensures Kept(before, after, freed + [t])
  {
  }

  lemma KeptAll(m: Memory)
    ensures Kept(m, m, [])
  {
  }

  lemma RingShape(limits: Limits, m: Memory, ring: seq<Address>, info: map<Address, ThreadInfo>)
    requires RingIn(m, ring) && Known(limits, ring, info)
    ensures m.root == (if ring == [] then 0 else ring[0])
    ensures forall t :: t in ring ==> t in info
    ensures forall i :: 0 <= i < |ring| ==> ring[i] != 0
    ensures forall i, j :: 0 <= i < j < |ring| ==> ring[i] != ring[j]
  {
  }

  /** The next thread of the walk, read from a thread that was not freed. */
  lemma NextOnWalk(m: Memory, after: Memory, ring: seq<Address>, freed: seq<Address>, k: nat)
    requires RingIn(m, ring) && Kept(m, after, freed) && k < |ring| && ring[k] !in freed
    ensures (if after.root == Next(after, ring[k]) then 0 else Next(after, ring[k]))
        == if k + 1 == |ring| then 0 else ring[k + 1]
  {
    assert Next(m, ring[k]) == ring[if k + 1 == |ring| then 0 else k + 1];
  }

  /** The walk over the copied list: no freed thread is looked at, and every thread of another operating-system
      thread is freed once, in ring order. */
  method WalkAndFree(m: Memory, info: map<Address, ThreadInfo>, self: nat, ghost limits: Limits,
                     ghost ring: seq<Address>)
    returns (current: Option<Address>, after: Memory, ghost freed: seq<Address>)
    requires RingIn(m, ring) && Known(limits, ring, info)
    ensures current == Current(ring, info, self) && freed == Others(ring, info, self)
    ensures Kept(m, after, freed)
  {
    hide Others, Current, Behind, Kept, RingIn, Next, Known;
    RingShape(limits, m, ring, info);
    KeptAll(m);
    current, after, freed := None, m, [];
    WalkStart(ring, info, self);
    var walkThread := m.root;
    ghost var k := 0;
    while walkThread != 0
      invariant k <= |ring|
      invariant walkThread == if k == |ring| then 0 else ring[k]
      invariant freed == Others(ring[..k], info, self) && current == Current(ring[..k], info, self)
      invariant Behind(freed, ring, k)
      invariant Kept(m, after, freed)
      decreases |ring| - k
    {
      WalkStep(ring, info, self, k);
      BehindStep(freed, ring, k);
      assert walkThread !in freed;
      NextOnWalk(m, after, ring, freed, k);
      var nextThread := if after.root == Next(after, walkThread) then 0 else Next(after, walkThread);
      if info[walkThread].osThread == self {
        current := Some(walkThread);
      } else {
        var mid := after;
        after := FreeThread(mid, walkThread);
        KeptMore(m, mid, after, freed, walkThread);
        freed := freed + [walkThread];
      }
      walkThread := nextThread;
      k := k + 1;
    }
    assert ring[..k] == ring;
  }

  /** What the child makes of its copy: the ring of the current thread alone, with its counts. */
  method Child(limits: Limits, m: Memory, info: map<Address, ThreadInfo>, self: nat, ghost ring: seq<Address>)
    returns (child: Memory, ghost freed: seq<Address>)
    requires Holds(limits, m, ring) && Known(limits, ring, info) && Current(ring, info, self).Some?
    ensures Holds(limits, child, [Current(ring, info, self).value]) && freed == Others(ring, info, self)
  {
    hide RingIn, Current, Others, Kept, AddedLast, Count;
    var current, after;
    current, after, freed := WalkAndFree(m, info, self, limits, ring);
    CurrentIsMember(ring, info, self);
    var own := current.value;
    NotNull(m, ring, own);
    child := after.(root := 0);
    if info[own].internal {
      child := child.(internalCount := 1, languageCount := 0);
    } else {
      child := child.(internalCount := 0, languageCount := 1);
    }
    NothingListed(child);
    AddedToNothing(child, own);
    OneCounted(own, limits.internal);
    child := AddedLast(child, own);
  }

  lemma AddedToNothing(m: Memory, t: Address)
    requires RingIn(m, []) && t != 0
    ensures var a := AddedLast(m, t);
            RingIn(a, [t]) && a.internalCount == m.internalCount && a.languageCount == m.languageCount
  {
    AddedLastRing(m, t, []);
    assert [] + [t] == [t];
  }

  lemma NotNull(m: Memory, ring: seq<Address>, t: Address)
    requires RingIn(m, ring) && t in ring
    ensures t != 0
  {
  }

  lemma NothingListed(m: Memory)
    requires m.root == 0
    ensures RingIn(m, [])
  {
  }

  lemma OneCounted(t: Address, internal: set<Address>)
    ensures Count([t], internal, true) == (if t in internal then 1 else 0)
    ensures Count([t], internal, false) == (if t in internal then 0 else 1)
  {
    assert [t][..0] == [];
  }

  /** Whenever the parent forks, and whatever its other threads are in the middle of: the child frees exactly the
      threads of other operating-system threads that were attached by finished operations, each once, and is left
      with the ring and the counts of the forking thread alone. */
  method ChildOfRun(limits: Limits, ghost states: seq<State>, ghost steps: seq<Step>, ghost start: seq<Address>,
                    ghost n: nat, copy: Memory, info: map<Address, ThreadInfo>, self: nat)
    returns (child: Memory, ghost freed: seq<Address>)
    requires Run(limits, states, steps) && Holds(limits, states[0].memory, start)
    requires n < |steps| && steps[n].Fork? && copy == states[n].memory
    requires var ring := RingAfter(limits, states, steps, start, n);
             Known(limits, ring, info) && Current(ring, info, self).Some?
    ensures Holds(limits, child, [Current(RingAfter(limits, states, steps, start, n), info, self).value])
    ensures freed == Others(RingAfter(limits, states, steps, start, n), info, self)
  {
    SnapshotIsWellFormed(limits, states, steps, start, n);
    child, freed := Child(limits, copy, info, self, RingAfter(limits, states, steps, start, n));
  }
}

/**
 Forking while other threads attach and detach. Every pointer write, counter update and lock operation of every
 thread is a step of its own; the child gets a copy of the memory as it is when the forking thread forks.
 */
module ForkSnapshot {
  import opened Options
  import opened Rings
  import opened ThreadRegistry

  /** Addresses of threads; 0 is NULL. */
  type Address = nat

  datatype Memory = Memory(root: Address, next: map<Address, Address>, previous: map<Address, Address>,
                           internalCount: int, languageCount: int)

  function Next(m: Memory, a: Address): Address {
    if a in m.next then m.next[a] else 0
  }

  function Previous(m: Memory, a: Address): Address {
    if a in m.previous then m.previous[a] else 0
  }

  /** The VM's parameters: which threads are internal, and the limit of language threads. */
  datatype Limits = Limits(internal: set<Address>, maximum: nat)

  // ---- a memory that holds a ring ----

  ghost predicate RingIn(m: Memory, ring: seq<Address>) {
    && m.root == (if ring == [] then 0 else ring[0])
    && (forall i :: 0 <= i < |ring| ==> ring[i] != 0)
    && (forall i, j :: 0 <= i < j < |ring| ==> ring[i] != ring[j])
    && (forall k {:trigger Next(m, ring[k])} :: 0 <= k < |ring| ==> Next(m, ring[k]) == ring[Successor(k, |ring|)])
    && (forall k {:trigger Previous(m, ring[k])} :: 0 <= k < |ring| ==>
         Previous(m, ring[k]) == ring[Predecessor(k, |ring|)])
  }

  function Count(ring: seq<Address>, internal: set<Address>, kind: bool): nat {
    if ring == [] then 0
    else Count(ring[..|ring| - 1], internal, kind) + if (ring[|ring| - 1] in internal) == kind then 1 else 0
  }

  /** The memory holds this ring, its counters count it, and the limit is kept. */
  ghost predicate Holds(limits: Limits, m: Memory, ring: seq<Address>) {
    && RingIn(m, ring)
    && m.internalCount == Count(ring, limits.internal, true) && m.languageCount == Count(ring, limits.internal, false)
    && (limits.maximum != 0 ==> m.languageCount <= limits.maximum)
  }

  ghost predicate WellFormed(limits: Limits, m: Memory) {
    exists ring :: Holds(limits, m, ring)
  }

  // ---- attaching and detaching, one write at a time ----

  datatype Op = Attach(element: Address) | Detach(element: Address)

  /** What a thread does next inside `attachThread` or `detachThread`. */
  datatype Pc =
    | Admit | Test
    | OwnPrevious | OwnNext | OwnRoot
    | LinkNext | LinkPrevious | LinkLast | LinkFirst
    | CountUp
    | CountDown | MoveRoot | BypassNext | BypassPrevious
    | Finished

  function First(op: Op): Pc {
    if op.Attach? then Admit else CountDown
  }

  function Counting(limits: Limits, m: Memory, e: Address, delta: int): Memory {
    if e in limits.internal
    then m.(internalCount := m.internalCount + delta)
    else m.(languageCount := m.languageCount + delta)
  }

  function Write(limits: Limits, e: Address, pc: Pc, m: Memory): (Pc, Memory) {
    match pc
    case Admit =>
      (if e in limits.internal || limits.maximum == 0 || m.languageCount < limits.maximum then Test else Finished, m)
    case Test => (if m.root == 0 then OwnPrevious else LinkNext, m)
    case OwnPrevious => (OwnNext, m.(previous := m.previous[e := e]))
    case OwnNext => (OwnRoot, m.(next := m.next[e := e]))
    case OwnRoot => (CountUp, m.(root := e))
    case LinkNext => (LinkPrevious, m.(next := m.next[e := m.root]))
    case LinkPrevious => (LinkLast, m.(previous := m.previous[e := Previous(m, m.root)]))
    case LinkLast => (LinkFirst, m.(next := m.next[Previous(m, e) := e]))
    case LinkFirst => (CountUp, m.(previous := m.previous[m.root := e]))
    case CountUp => (Finished, Counting(limits, m, e, 1))
    case CountDown => (MoveRoot, Counting(limits, m, e, -1))
    case MoveRoot => (BypassNext, if e == m.root then m.(root := if Next(m, e) == e then 0 else Next(m, e)) else m)
    case BypassNext => (BypassPrevious, m.(next := m.next[Previous(m, e) := Next(m, e)]))
    case BypassPrevious => (Finished, m.(previous := m.previous[Next(m, e) := Previous(m, e)]))
    case Finished => (Finished, m)
  }

  /** What callers owe: a new thread is not listed, one that leaves is. */
  ghost predicate Allowed(limits: Limits, m: Memory, op: Op) {
    exists ring :: Holds(limits, m, ring) && op.element != 0 && (op.Attach? <==> op.element !in ring)
  }

  // ---- the threads ----

  /** `base` is the memory as it was when the thread took the list mutex. */
  datatype Local = Idle | Working(op: Op, pc: Pc, base: Memory) | Forking

  datatype State = State(memory: Memory, holder: Option<nat>, threads: seq<Local>)

  datatype Step =
    | Enter(thread: nat, op: Op)
    | Proceed(thread: nat)
    | Leave(thread: nat)
    | PreFork(thread: nat)
    | Fork(thread: nat)
    | PostForkParent(thread: nat)

  ghost predicate Moves(limits: Limits, s: State, step: Step, s': State) {
    var t := step.thread;
    && t < |s.threads|
    && match step
       case Enter(_, op) =>
         && s.threads[t].Idle? && s.holder.None? && Allowed(limits, s.memory, op)
         && s' == State(s.memory, Some(t), s.threads[t := Working(op, First(op), s.memory)])
       case Proceed(_) =>
         && s.threads[t].Working?
         && var l := s.threads[t];
            var (pc, memory) := Write(limits, l.op.element, l.pc, s.memory);
            s' == State(memory, s.holder, s.threads[t := Working(l.op, pc, l.base)])
       case Leave(_) =>
         && s.threads[t].Working? && s.threads[t].pc.Finished?
         && s' == State(s.memory, None, s.threads[t := Idle])
       case PreFork(_) =>
         s.threads[t].Idle? && s.holder.None? && s' == State(s.memory, Some(t), s.threads[t := Forking])
       case Fork(_) => s.threads[t].Forking? && s' == s
       case PostForkParent(_) =>
         s.threads[t].Forking? && s' == State(s.memory, None, s.threads[t := Idle])
  }

  ghost predicate Run(limits: Limits, states: seq<State>, steps: seq<Step>) {
    && |states| == |steps| + 1
    && WellFormed(limits, states[0].memory) && states[0].holder == None
    && (forall t :: 0 <= t < |states[0].threads| ==> states[0].threads[t].Idle?)
    && forall n :: 0 <= n < |steps| ==> Moves(limits, states[n], steps[n], states[n + 1])
  }

  // ---- how far an operation has got ----

  /** The memory of an attach that starts from `b`, when it is about to do `pc`. */
  ghost function MidAttach(limits: Limits, e: Address, b: Memory, pc: Pc): Memory {
    var last := Previous(b, b.root);
    match pc
    case OwnNext => b.(previous := b.previous[e := e])
    case OwnRoot => b.(previous := b.previous[e := e], next := b.next[e := e])
    case LinkPrevious => b.(next := b.next[e := b.root])
    case LinkLast => b.(next := b.next[e := b.root], previous := b.previous[e := last])
    case LinkFirst => b.(next := b.next[e := b.root][last := e], previous := b.previous[e := last])
    case CountUp => AddedLast(b, e)
    case Finished => if Admitted(limits, b, e) then Counting(limits, AddedLast(b, e), e, 1) else b
    case _ => b
  }

  predicate Admitted(limits: Limits, b: Memory, e: Address) {
    e in limits.internal || limits.maximum == 0 || b.languageCount < limits.maximum
  }

  /** The memory after all writes of adding `e` at the end. */
  function AddedLast(b: Memory, e: Address): Memory {
    if b.root == 0 then b.(root := e, next := b.next[e := e], previous := b.previous[e := e])
    else
      var last := Previous(b, b.root);
      b.(next := b.next[e := b.root][last := e], previous := b.previous[e := last][b.root := e])
  }

  function RootMoved(b: Memory, e: Address): Memory {
    if e == b.root then b.(root := if Next(b, e) == e then 0 else Next(b, e)) else b
  }

  ghost function MidDetach(limits: Limits, e: Address, b: Memory, pc: Pc): Memory {
    var c := Counting(limits, b, e, -1);
    match pc
    case MoveRoot => c
    case BypassNext => RootMoved(c, e)
    case BypassPrevious => RootMoved(c, e).(next := b.next[Previous(b, e) := Next(b, e)])
    case Finished => Unlinked(c, e)
    case _ => b
  }

  /** The memory after all writes of removing `e`; the second write reads what the first left. */
  function Unlinked(c: Memory, e: Address): Memory {
    var m := RootMoved(c, e).(next := c.next[Previous(c, e) := Next(c, e)]);
    m.(previous := c.previous[Next(m, e) := Previous(c, e)])
  }

  /** The steps that belong to an operation, on the path its first tests choose. */
  ghost predicate OnPath(limits: Limits, l: Local)
    requires l.Working?
  {
    var e, b := l.op.element, l.base;
    if l.op.Attach? then
      match l.pc
      case Admit => true
      case Test => Admitted(limits, b, e)
      case OwnPrevious => Admitted(limits, b, e) && b.root == 0
      case OwnNext => Admitted(limits, b, e) && b.root == 0
      case OwnRoot => Admitted(limits, b, e) && b.root == 0
      case LinkNext => Admitted(limits, b, e) && b.root != 0
      case LinkPrevious => Admitted(limits, b, e) && b.root != 0
      case LinkLast => Admitted(limits, b, e) && b.root != 0
      case LinkFirst => Admitted(limits, b, e) && b.root != 0
      case CountUp => Admitted(limits, b, e)
      case Finished => true
      case _ => false
    else l.pc in {CountDown, MoveRoot, BypassNext, BypassPrevious, Finished}
  }

  ghost function Mid(limits: Limits, l: Local): Memory
    requires l.Working?
  {
    if l.op.Attach?
    then MidAttach(limits, l.op.element, l.base, l.pc)
    else MidDetach(limits, l.op.element, l.base, l.pc)
  }

  /** The memory is what the working thread's writes so far made of its base. */
  ghost predicate Tracks(limits: Limits, l: Local, m: Memory)
    requires l.Working?
  {
    Allowed(limits, l.base, l.op) && OnPath(limits, l) && m == Mid(limits, l)
  }

  lemma WriteTracks(limits: Limits, l: Local, m: Memory)
    requires l.Working? && Tracks(limits, l, m)
    ensures var (pc, m') := Write(limits, l.op.element, l.pc, m); Tracks(limits, Working(l.op, pc, l.base), m')
  {
    hide Allowed;
    if l.op.Attach? {
      AttachTracks(limits, l, m);
    } else {
      DetachTracks(limits, l, m);
    }
  }

  lemma AttachTracks(limits: Limits, l: Local, m: Memory)
    requires l.Working? && l.op.Attach? && OnPath(limits, l) && m == MidAttach(limits, l.op.element, l.base, l.pc)
    ensures var (pc, m') := Write(limits, l.op.element, l.pc, m);
            OnPath(limits, Working(l.op, pc, l.base)) && m' == MidAttach(limits, l.op.element, l.base, pc)
  {
  }

  lemma DetachTracks(limits: Limits, l: Local, m: Memory)
    requires l.Working? && l.op.Detach? && OnPath(limits, l) && m == MidDetach(limits, l.op.element, l.base, l.pc)
    ensures var (pc, m') := Write(limits, l.op.element, l.pc, m);
            OnPath(limits, Working(l.op, pc, l.base)) && m' == MidDetach(limits, l.op.element, l.base, pc)
  {
  }

  // ---- a finished operation ----

  lemma {:induction false} CountAppend(ring: seq<Address>, internal: set<Address>, kind: bool, e: Address)
    ensures Count(ring + [e], internal, kind) == Count(ring, internal, kind) + if (e in internal) == kind then 1 else 0
  {
    assert (ring + [e])[..|ring|] == ring;
  }

  lemma {:induction false} CountRemove(ring: seq<Address>, internal: set<Address>, kind: bool, i: nat)
    requires i < |ring|
    ensures Count(ring, internal, kind)
        == Count(Removed(ring, i), internal, kind) + if (ring[i] in internal) == kind then 1 else 0
    decreases |ring|
  {
    var n := |ring| - 1;
    if i == n {
      assert Removed(ring, i) == ring[..n];
    } else {
      CountRemove(ring[..n], internal, kind, i);
      assert Removed(ring, i) == Removed(ring[..n], i) + [ring[n]];
      CountAppend(Removed(ring[..n], i), internal, kind, ring[n]);
    }
  }

  lemma AddedLastRing(b: Memory, e: Address, ring: seq<Address>)
    requires RingIn(b, ring) && e != 0 && e !in ring
    ensures RingIn(AddedLast(b, e), ring + [e])
  {
    var m, n := AddedLast(b, e), |ring|;
    var r := ring + [e];
    if n > 0 {
      assert Previous(b, ring[0]) == ring[n - 1];
      forall k | 0 <= k <= n
        ensures Next(m, r[k]) == r[Successor(k, n + 1)] && Previous(m, r[k]) == r[Predecessor(k, n + 1)]
      {
        if k < n {
          assert Next(b, ring[k]) == ring[Successor(k, n)] && Previous(b, ring[k]) == ring[Predecessor(k, n)];
        }
      }
    }
  }

  lemma UnlinkedRing(c: Memory, i: nat, ring: seq<Address>)
    requires RingIn(c, ring) && i < |ring|
    ensures RingIn(Unlinked(c, ring[i]), Removed(ring, i))
  {
    hide Unlinked, Next, Previous;
    var e, n := ring[i], |ring|;
    var m, r := Unlinked(c, e), Removed(ring, i);
    UnlinkedRoot(c, i, ring);
    if n > 1 {
      forall k | 0 <= k < n - 1
        ensures Next(m, r[k]) == r[Successor(k, n - 1)] && Previous(m, r[k]) == r[Predecessor(k, n - 1)]
      {
        UnlinkedLinks(c, i, ring, k);
      }
    }
  }

  lemma UnlinkedRoot(c: Memory, i: nat, ring: seq<Address>)
    requires RingIn(c, ring) && i < |ring|
    ensures var r := Removed(ring, i); Unlinked(c, ring[i]).root == if r == [] then 0 else r[0]
  {
    assert Next(c, ring[i]) == ring[Successor(i, |ring|)];
  }

  lemma UnlinkedLinks(c: Memory, i: nat, ring: seq<Address>, k: nat)
    requires RingIn(c, ring) && i < |ring| && k < |ring| - 1
    ensures var m, r := Unlinked(c, ring[i]), Removed(ring, i);
            Next(m, r[k]) == r[Successor(k, |ring| - 1)] && Previous(m, r[k]) == r[Predecessor(k, |ring| - 1)]
  {
    hide RingIn, Next, Previous, Unlinked;
    var j, n := if k < i then k else k + 1, |ring|;
    RingAt(c, ring, i);
    RingAt(c, ring, j);
    SameAddress(c, ring, i, Predecessor(i, n));
    UnlinkedAt(c, ring[i], ring[j]);
    SameAddress(c, ring, j, Predecessor(i, n));
    SameAddress(c, ring, j, Successor(i, n));
  }

  lemma RingAt(m: Memory, ring: seq<Address>, k: nat)
    requires RingIn(m, ring) && k < |ring|
    ensures Next(m, ring[k]) == ring[Successor(k, |ring|)] && Previous(m, ring[k]) == ring[Predecessor(k, |ring|)]
  {
  }

  lemma SameAddress(m: Memory, ring: seq<Address>, j: nat, k: nat)
    requires RingIn(m, ring) && j < |ring| && k < |ring|
    ensures ring[j] == ring[k] <==> j == k
  {
  }

  lemma UnlinkedAt(c: Memory, e: Address, a: Address)
    requires Previous(c, e) != e
    ensures var m := Unlinked(c, e);
            && Next(m, a) == (if a == Previous(c, e) then Next(c, e) else Next(c, a))
            && Previous(m, a) == (if a == Next(c, e) then Previous(c, e) else Previous(c, a))
  {
  }

  lemma CountingRing(limits: Limits, m: Memory, e: Address, delta: int, ring: seq<Address>)
    requires RingIn(m, ring)
    ensures RingIn(Counting(limits, m, e, delta), ring)
  {
    var c := Counting(limits, m, e, delta);
    assert forall a :: Next(c, a) == Next(m, a) && Previous(c, a) == Previous(m, a);
  }

  lemma AttachHolds(limits: Limits, b: Memory, e: Address, ring: seq<Address>)
    requires Holds(limits, b, ring) && e != 0 && e !in ring && Admitted(limits, b, e)
    ensures Holds(limits, Counting(limits, AddedLast(b, e), e, 1), ring + [e])
  {
    hide RingIn, Count;
    AddedLastRing(b, e, ring);
    CountingRing(limits, AddedLast(b, e), e, 1, ring + [e]);
    CountAppend(ring, limits.internal, true, e);
    CountAppend(ring, limits.internal, false, e);
  }

  lemma DetachHolds(limits: Limits, b: Memory, i: nat, ring: seq<Address>)
    requires Holds(limits, b, ring) && i < |ring|
    ensures Holds(limits, Unlinked(Counting(limits, b, ring[i], -1), ring[i]), Removed(ring, i))
  {
    hide RingIn, Count, Removed;
    CountingRing(limits, b, ring[i], -1, ring);
    UnlinkedRing(Counting(limits, b, ring[i], -1), i, ring);
    CountRemove(ring, limits.internal, true, i);
    CountRemove(ring, limits.internal, false, i);
  }

  /** A memory holds one ring only. */
  lemma {:induction false} RingIsUnique(m: Memory, a: seq<Address>, b: seq<Address>)
    requires RingIn(m, a) && RingIn(m, b)
    ensures a == b
  {
    if a != [] && b != [] {
      if |a| <= |b| {
        SamePrefix(m, a, b, |a| - 1);
        SameLength(m, a, b);
      } else {
        SamePrefix(m, b, a, |b| - 1);
        SameLength(m, b, a);
      }
    }
  }

  lemma {:induction false} SamePrefix(m: Memory, a: seq<Address>, b: seq<Address>, k: nat)
    requires RingIn(m, a) && RingIn(m, b) && k < |a| <= |b|
    ensures a[..k + 1] == b[..k + 1]
  {
    if k > 0 {
      SamePrefix(m, a, b, k - 1);
      assert a[k - 1] == a[..k][k - 1] == b[..k][k - 1] == b[k - 1];
      assert Next(m, a[k - 1]) == a[k] && Next(m, b[k - 1]) == b[k];
      assert a[..k + 1] == a[..k] + [a[k]] && b[..k + 1] == b[..k] + [b[k]];
    }
  }

  lemma SameLength(m: Memory, a: seq<Address>, b: seq<Address>)
    requires RingIn(m, a) && RingIn(m, b) && 0 < |a| <= |b| && a[..|a|] == b[..|a|]
    ensures a == b
  {
    var n := |a|;
    assert a[n - 1] == a[..n][n - 1] == b[..n][n - 1] == b[n - 1];
    assert a[0] == a[..n][0] == b[..n][0] == b[0];
    assert Next(m, a[n - 1]) == a[0] && Next(m, b[n - 1]) == b[Successor(n - 1, |b|)];
  }

  // ---- the run ----

  /** The ring after an operation that ran alone. */
  ghost function Applied(limits: Limits, ring: seq<Address>, op: Op): seq<Address> {
    var e := op.element;
    if op.Attach? then
      if e in limits.internal || limits.maximum == 0 || Count(ring, limits.internal, false) < limits.maximum
      then ring + [e]
      else ring
    else if e in ring then Removed(ring, IndexOf(ring, e))
    else ring
  }

  /** The registry lists this ring and counts it. */
  ghost predicate Describes(r: Registry<Address>, limits: Limits, ring: seq<Address>) {
    && r.ring == ring
    && (forall t :: t in r.info ==> (r.info[t].internal <==> t in limits.internal))
    && r.internalCount == Count(ring, limits.internal, true) && r.languageCount == Count(ring, limits.internal, false)
  }

  /** What an operation does to the ring is what `attachThread` and `detachThread` do to the registry. */
  lemma AppliedIsRegistry(limits: Limits, ring: seq<Address>, op: Op, r: Registry<Address>)
    requires Describes(r, limits, ring) && op.element in r.info && (op.Attach? <==> op.element !in ring)
    ensures op.Attach? ==> Describes(Attached(r, limits.maximum, op.element), limits, Applied(limits, ring, op))
    ensures op.Detach? ==> Describes(Detached(r, op.element), limits, Applied(limits, ring, op))
  {
    hide Removed, Count;
    if op.Attach? {
      CountAppend(ring, limits.internal, true, op.element);
      CountAppend(ring, limits.internal, false, op.element);
    } else {
      CountRemove(ring, limits.internal, true, IndexOf(ring, op.element));
      CountRemove(ring, limits.internal, false, IndexOf(ring, op.element));
    }
  }

  /** The operations that have left the mutex, applied in that order. */
  ghost function RingAfter(limits: Limits, states: seq<State>, steps: seq<Step>, start: seq<Address>,
                           n: nat): seq<Address>
    requires n <= |steps| <= |states|
  {
    if n == 0 then start
    else
      var ring := RingAfter(limits, states, steps, start, n - 1);
      var s, step := states[n - 1], steps[n - 1];
      if step.Leave? && step.thread < |s.threads| && s.threads[step.thread].Working?
      then Applied(limits, ring, s.threads[step.thread].op) else ring
  }

  /** Nobody is inside, or exactly the holder of the mutex is; the memory holds the ring of all finished
      operations, or what the working thread has made of it so far. */
  ghost predicate Invariant(limits: Limits, s: State, ring: seq<Address>) {
    && (forall t :: 0 <= t < |s.threads| && s.holder != Some(t) ==> s.threads[t].Idle?)
    && match s.holder
       case None => Holds(limits, s.memory, ring)
       case Some(h) =>
         && h < |s.threads|
         && (s.threads[h].Forking? ==> Holds(limits, s.memory, ring))
         && (s.threads[h].Working? ==> Holds(limits, s.threads[h].base, ring) && Tracks(limits, s.threads[h], s.memory))
         && !s.threads[h].Idle?
  }

  /** A finished operation has turned the ring of its base into the ring of the sequential operation. */
  lemma FinishedHolds(limits: Limits, l: Local, m: Memory, ring: seq<Address>)
    requires l.Working? && l.pc.Finished? && Tracks(limits, l, m) && Holds(limits, l.base, ring)
    ensures Holds(limits, m, Applied(limits, ring, l.op))
  {
    hide RingIn, Count, Removed, AddedLast, Unlinked;
    var own :| Holds(limits, l.base, own) && l.op.element != 0 && (l.op.Attach? <==> l.op.element !in own);
    RingIsUnique(l.base, own, ring);
    if l.op.Attach? {
      if Admitted(limits, l.base, l.op.element) {
        AttachHolds(limits, l.base, l.op.element, ring);
      }
    } else {
      DetachHolds(limits, l.base, IndexOf(ring, l.op.element), ring);
    }
  }

  lemma StartsTracking(limits: Limits, op: Op, m: Memory)
    requires Allowed(limits, m, op)
    ensures Tracks(limits, Working(op, First(op), m), m)
  {
  }

  lemma InvariantStep(limits: Limits, s: State, step: Step, s': State, ring: seq<Address>)
    requires Moves(limits, s, step, s') && Invariant(limits, s, ring)
    ensures Invariant(limits, s', if step.Leave? then Applied(limits, ring, s.threads[step.thread].op) else ring)
  {
    hide Holds, Tracks, Allowed, Write, Applied, First;
    match step
    case Enter(t, op) => StartsTracking(limits, op, s.memory);
    case Proceed(t) => WriteTracks(limits, s.threads[t], s.memory);
    case Leave(t) => FinishedHolds(limits, s.threads[t], s.memory, ring);
    case _ =>
  }

  lemma {:induction false} RunInvariant(limits: Limits, states: seq<State>, steps: seq<Step>, start: seq<Address>,
                                        n: nat)
    requires Run(limits, states, steps) && Holds(limits, states[0].memory, start) && n <= |steps|
    ensures Invariant(limits, states[n], RingAfter(limits, states, steps, start, n))
  {
    hide Holds, Tracks, Moves, Applied;
    if n > 0 {
      RunInvariant(limits, states, steps, start, n - 1);
      StepShape(limits, states[n - 1], steps[n - 1], states[n]);
      InvariantStep(limits, states[n - 1], steps[n - 1], states[n], RingAfter(limits, states, steps, start, n - 1));
    }
  }

  lemma StepShape(limits: Limits, s: State, step: Step, s': State)
    requires Moves(limits, s, step, s')
    ensures step.thread < |s.threads| && (step.Leave? ==> s.threads[step.thread].Working?)
  {
  }

  /** Fork safety: whenever the forking thread forks, the memory it copies holds a ring in both directions whose
      counters count it, and it is the ring of exactly the operations that had finished. */
  lemma SnapshotIsWellFormed(limits: Limits, states: seq<State>, steps: seq<Step>, start: seq<Address>, n: nat)
    requires Run(limits, states, steps) && Holds(limits, states[0].memory, start)
    requires n < |steps| && steps[n].Fork?
    ensures Holds(limits, states[n].memory, RingAfter(limits, states, steps, start, n))
  {
    RunInvariant(limits, states, steps, start, n);
    assert Moves(limits, states[n], steps[n], states[n + 1]);
  }

  /** Without the mutex this fails: a copy taken between the writes of an attach holds no ring at all. */
  lemma TornSnapshot()
    ensures var limits := Limits({1, 2}, 0);
            var b := Memory(1, map[1 := 1], map[1 := 1], 1, 0);
            Holds(limits, b, [1]) && !WellFormed(limits, MidAttach(limits, 2, b, LinkFirst))
  {
    var limits := Limits({1, 2}, 0);
    var b := Memory(1, map[1 := 1], map[1 := 1], 1, 0);
    assert Count([], limits.internal, true) == 0 == Count([], limits.internal, false);
    assert [1][..0] == [];
    assert Count([1], limits.internal, true) == 1 && Count([1], limits.internal, false) == 0;
    assert Holds(limits, b, [1]);
    var m := MidAttach(limits, 2, b, LinkFirst);
    assert Next(m, 1) == 2 && Next(m, 2) == 1 && Previous(m, 1) == 1;
    if ring :| Holds(limits, m, ring) {
      assert false;
    }
  }
}

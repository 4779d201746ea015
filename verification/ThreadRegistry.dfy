/** The registry of attached threads of a VM: a ring, two counters, the thread-local slots, all kept in step. */
module ThreadRegistry {
  import opened Options
  import opened Rings

  datatype ThreadInfo = ThreadInfo(internal: bool, osThread: nat, attachCount: int)

  type VMThread = Node<ThreadInfo>

  datatype ErrorCode = ErrorNone | MaximumThreadCountExceeded | FailedToAttachNativeThread | ThreadNotAttached
                     | OutOfNativeMemory | FailedToAllocateMonitor

  // ---- the registry as a value ----

  datatype Registry<T> =
    Registry(ring: seq<T>, info: map<T, ThreadInfo>, internalCount: int, languageCount: int, tls: map<nat, T>)

  predicate Admits<T>(r: Registry<T>, max: nat, internal: bool) {
    internal || max == 0 || r.languageCount < max
  }

  /** `attachThread`: the thread-local slot is set even when the thread is refused. */
  function Attached<T>(r: Registry<T>, max: nat, t: T): Registry<T>
    requires t in r.info
  {
    var s := r.(tls := r.tls[r.info[t].osThread := t]);
    if !Admits(r, max, r.info[t].internal) then s
    else if r.info[t].internal then s.(ring := s.ring + [t], internalCount := s.internalCount + 1)
    else s.(ring := s.ring + [t], languageCount := s.languageCount + 1)
  }

  ghost function IndexOf<T>(s: seq<T>, x: T): (i: nat)
    requires x in s
    ensures i < |s| && s[i] == x
  {
    var i :| 0 <= i < |s| && s[i] == x;
    i
  }

  /** `detachThread`. */
  ghost function Detached<T>(r: Registry<T>, t: T): Registry<T>
    requires t in r.info && t in r.ring
  {
    var s := r.(ring := Removed(r.ring, IndexOf(r.ring, t)), tls := r.tls - {r.info[t].osThread});
    if r.info[t].internal then s.(internalCount := s.internalCount - 1) else s.(languageCount := s.languageCount - 1)
  }

  function Counted<T>(r: Registry<T>, t: T, delta: int): Registry<T>
    requires t in r.info
  {
    r.(info := r.info[t := r.info[t].(attachCount := r.info[t].attachCount + delta)])
  }

  /** How many listed threads are internal, or are not. */
  function Tally<T>(ring: seq<T>, info: map<T, ThreadInfo>, internal: bool): nat
    requires forall t :: t in ring ==> t in info
  {
    if ring == [] then 0
    else Tally(ring[..|ring| - 1], info, internal) + if info[ring[|ring| - 1]].internal == internal then 1 else 0
  }

  /** The counters count the ring, and the language threads stay within a maximum that is set. */
  ghost predicate Consistent<T>(r: Registry<T>, max: nat) {
    && (forall i, j :: 0 <= i < j < |r.ring| ==> r.ring[i] != r.ring[j])
    && (forall t :: t in r.ring ==> t in r.info)
    && r.internalCount == Tally(r.ring, r.info, true)
    && r.languageCount == Tally(r.ring, r.info, false)
    && (max != 0 ==> r.languageCount <= max)
  }

  // ---- the registry in memory ----

  class Vm {
    const vmThreadList: Ring<ThreadInfo>
    const maximumThreadCount: nat
    var internalThreadCount: int
    var languageThreadCount: int
    var tls: map<nat, VMThread>
    var forkGeneration: nat
    var parentPID: int
    ghost var threads: set<VMThread>

    ghost predicate Valid()
      reads this, vmThreadList, vmThreadList.nodes`linkNext, vmThreadList.nodes`linkPrevious
    {
      vmThreadList.Valid() && forall t :: t in vmThreadList.nodes ==> t in threads
    }

    ghost function State(): Registry<VMThread>
      reads this, vmThreadList, threads`data
    {
      Registry(vmThreadList.nodes, map t | t in threads :: t.data, internalThreadCount, languageThreadCount, tls)
    }

    constructor (maximumThreadCount: nat)
      ensures Valid() && State() == Registry([], map[], 0, 0, map[])
      ensures fresh(vmThreadList) && this.maximumThreadCount == maximumThreadCount
    {
      this.maximumThreadCount := maximumThreadCount;
      var list := new Ring<ThreadInfo>();
      vmThreadList := list;
      internalThreadCount, languageThreadCount, tls, threads := 0, 0, map[], {};
      forkGeneration, parentPID := 0, 0;
    }

    method AttachThread(vmthread: VMThread) returns (rc: ErrorCode)
      requires Valid() && vmthread in threads && vmthread !in vmThreadList.nodes
      modifies this`internalThreadCount, this`languageThreadCount, this`tls, vmThreadList, threads`linkNext,
        threads`linkPrevious
      ensures Valid() && threads == old(threads)
      ensures State() == Attached(old(State()), maximumThreadCount, vmthread)
      ensures rc == if Admits(old(State()), maximumThreadCount, vmthread.data.internal)
                    then ErrorNone
                    else MaximumThreadCountExceeded
    {
      hide IsRing, Removed, Tally;
      rc := ErrorNone;
      if vmthread.data.internal || maximumThreadCount == 0 || languageThreadCount < maximumThreadCount {
        vmThreadList.AddLast(vmthread);
        if vmthread.data.internal {
          internalThreadCount := internalThreadCount + 1;
        } else {
          languageThreadCount := languageThreadCount + 1;
        }
      } else {
        rc := MaximumThreadCountExceeded;
      }
      tls := tls[vmthread.data.osThread := vmthread];
    }

    method DetachThread(vmthread: VMThread) returns (rc: ErrorCode)
      requires Valid() && vmthread in vmThreadList.nodes
      modifies this`internalThreadCount, this`languageThreadCount, this`tls, vmThreadList, threads`linkNext,
        threads`linkPrevious
      ensures Valid() && threads == old(threads)
      ensures State() == Detached(old(State()), vmthread)
      ensures rc == ErrorNone
    {
      hide IsRing, Removed, Tally;
      if vmthread.data.internal {
        internalThreadCount := internalThreadCount - 1;
      } else {
        languageThreadCount := languageThreadCount - 1;
      }
      RemovedSubset(vmThreadList.nodes, IndexOf(vmThreadList.nodes, vmthread));
      vmThreadList.Remove(vmthread, IndexOf(vmThreadList.nodes, vmthread));
      tls := tls - {vmthread.data.osThread};
      rc := ErrorNone;
    }

    /** `omr_attach_vmthread_to_vm`: the attach count goes up even when the thread is refused. */
    method AttachVMThread(vmthread: VMThread, nativeAttachSucceeds: bool) returns (rc: ErrorCode)
      requires Valid() && vmthread in threads && (vmthread.data.attachCount <= 0 ==> vmthread !in vmThreadList.nodes)
      modifies this`internalThreadCount, this`languageThreadCount, this`tls, vmThreadList, threads
      ensures Valid() && threads == old(threads)
      ensures rc == AttachCode(old(State()), maximumThreadCount, vmthread, nativeAttachSucceeds)
      ensures State() == AttachResult(old(State()), maximumThreadCount, vmthread, nativeAttachSucceeds)
    {
      rc := ErrorNone;
      if vmthread.data.attachCount > 0 {
        vmthread.data := vmthread.data.(attachCount := vmthread.data.attachCount + 1);
      } else if nativeAttachSucceeds {
        rc := AttachThread(vmthread);
        vmthread.data := vmthread.data.(attachCount := vmthread.data.attachCount + 1);
      } else {
        rc := FailedToAttachNativeThread;
      }
    }

    /** `omr_detach_vmthread_from_vm`. */
    method DetachVMThread(vmthread: VMThread, nativeAttachSucceeds: bool) returns (rc: ErrorCode)
      requires Valid() && vmthread in threads && (vmthread.data.attachCount == 1 ==> vmthread in vmThreadList.nodes)
      modifies this`internalThreadCount, this`languageThreadCount, this`tls, vmThreadList, threads
      ensures Valid() && threads == old(threads)
      ensures rc == DetachCode(old(State()), vmthread, nativeAttachSucceeds)
      ensures State() == DetachResult(old(State()), vmthread, nativeAttachSucceeds)
    {
      rc := ErrorNone;
      if vmthread.data.attachCount > 1 {
        vmthread.data := vmthread.data.(attachCount := vmthread.data.attachCount - 1);
      } else if vmthread.data.attachCount == 1 {
        if nativeAttachSucceeds {
          rc := DetachThread(vmthread);
          vmthread.data := vmthread.data.(attachCount := vmthread.data.attachCount - 1);
        } else {
          rc := FailedToAttachNativeThread;
        }
      } else {
        rc := ThreadNotAttached;
      }
    }

    /** `omr_vmthread_firstAttach` on the given operating-system thread. */
    method FirstAttach(self: nat, allocSucceeds: bool, initSucceeds: bool)
      returns (rc: ErrorCode, vmThread: Option<VMThread>)
      requires Valid()
      modifies this, vmThreadList, threads`linkNext, threads`linkPrevious
      ensures Valid()
      ensures rc == if !allocSucceeds then OutOfNativeMemory
                    else if !initSucceeds then FailedToAllocateMonitor
                    else ErrorNone
      ensures rc != ErrorNone ==> vmThread == None && threads == old(threads) && State() == old(State())
      ensures rc == ErrorNone ==>
        && vmThread.Some? && fresh(vmThread.value) && threads == old(threads) + {vmThread.value}
        && State() == FirstAttached(old(State()), maximumThreadCount, vmThread.value, self)
    {
      hide Attached, FirstAttached, IsRing;
      rc, vmThread := ErrorNone, None;
      if !allocSucceeds {
        return OutOfNativeMemory, None;
      }
      var tempThread := new Node(ThreadInfo(true, self, 0));
      if !initSucceeds {
        return FailedToAllocateMonitor, None;
      }
      ghost var before := State();
      threads := threads + {tempThread};
      assert State() == before.(info := before.info[tempThread := ThreadInfo(true, self, 0)]);
      rc := AttachThread(tempThread);
      AttachedThenCounted(before, maximumThreadCount, tempThread, self);
      if rc == ErrorNone {
        tempThread.data := tempThread.data.(attachCount := 1);
        vmThread := Some(tempThread);
      }
    }

    /** `omr_vmthread_lastDetach`: the thread is freed. */
    method LastDetach(vmThread: VMThread) returns (rc: ErrorCode)
      requires Valid() && vmThread in vmThreadList.nodes
      modifies this, vmThreadList, threads`linkNext, threads`linkPrevious
      ensures Valid() && rc == ErrorNone && threads == old(threads) - {vmThread}
      ensures State() == LastDetached(old(State()), vmThread)
    {
      rc := DetachThread(vmThread);
      RemovedIsGone(old(vmThreadList.nodes), vmThread);
      threads := threads - {vmThread};
    }

    /** `omr_vmthread_reattach` and `omr_vmthread_redetach` only count. */
    method Reattach(currentThread: VMThread)
      requires Valid() && currentThread in threads && 0 < currentThread.data.attachCount
      modifies currentThread`data
      ensures Valid() && State() == Counted(old(State()), currentThread, 1)
    {
      currentThread.data := currentThread.data.(attachCount := currentThread.data.attachCount + 1);
    }

    method Redetach(currentThread: VMThread)
      requires Valid() && currentThread in threads && 0 < currentThread.data.attachCount
      modifies currentThread`data
      ensures Valid() && State() == Counted(old(State()), currentThread, -1)
    {
      currentThread.data := currentThread.data.(attachCount := currentThread.data.attachCount - 1);
    }
  }

  function AttachCode<T>(r: Registry<T>, max: nat, t: T, nativeAttachSucceeds: bool): ErrorCode
    requires t in r.info
  {
    if r.info[t].attachCount > 0 then ErrorNone
    else if !nativeAttachSucceeds then FailedToAttachNativeThread
    else if Admits(r, max, r.info[t].internal) then ErrorNone
    else MaximumThreadCountExceeded
  }

  function AttachResult<T>(r: Registry<T>, max: nat, t: T, nativeAttachSucceeds: bool): Registry<T>
    requires t in r.info
  {
    if r.info[t].attachCount > 0 then Counted(r, t, 1)
    else if nativeAttachSucceeds then Counted(Attached(r, max, t), t, 1)
    else r
  }

  function DetachCode<T>(r: Registry<T>, t: T, nativeAttachSucceeds: bool): ErrorCode
    requires t in r.info
  {
    if r.info[t].attachCount < 1 then ThreadNotAttached
    else if r.info[t].attachCount == 1 && !nativeAttachSucceeds then FailedToAttachNativeThread
    else ErrorNone
  }

  ghost function DetachResult<T>(r: Registry<T>, t: T, nativeAttachSucceeds: bool): Registry<T>
    requires t in r.info && (r.info[t].attachCount == 1 ==> t in r.ring)
  {
    if r.info[t].attachCount > 1 then Counted(r, t, -1)
    else if r.info[t].attachCount == 1 && nativeAttachSucceeds then Counted(Detached(r, t), t, -1)
    else r
  }

  function FirstAttached<T>(r: Registry<T>, max: nat, t: T, self: nat): Registry<T> {
    Attached(r.(info := r.info[t := ThreadInfo(true, self, 1)]), max, t)
  }

  lemma AttachedThenCounted<T>(r: Registry<T>, max: nat, t: T, self: nat)
    ensures var s := Attached(r.(info := r.info[t := ThreadInfo(true, self, 0)]), max, t);
            t in s.info && s.info[t] == ThreadInfo(true, self, 0)
            && s.(info := s.info[t := ThreadInfo(true, self, 1)]) == FirstAttached(r, max, t, self)
  {
    var info := r.info[t := ThreadInfo(true, self, 0)];
    assert info[t := ThreadInfo(true, self, 1)] == r.info[t := ThreadInfo(true, self, 1)];
  }

  ghost function LastDetached<T>(r: Registry<T>, t: T): Registry<T>
    requires t in r.info && t in r.ring
  {
    var s := Detached(r, t);
    s.(info := s.info - {t})
  }

  lemma RemovedSubset<T>(s: seq<T>, i: nat)
    requires i < |s|
    ensures forall y :: y in Removed(s, i) ==> y in s
  {
  }

  lemma RemovedIsGone<T>(s: seq<T>, x: T)
    requires x in s && forall i, j :: 0 <= i < j < |s| ==> s[i] != s[j]
    ensures forall y :: y in Removed(s, IndexOf(s, x)) ==> y in s && y != x
    ensures forall y :: y in s && y != x ==> y in Removed(s, IndexOf(s, x))
    ensures var r := Removed(s, IndexOf(s, x)); forall i, j :: 0 <= i < j < |r| ==> r[i] != r[j]
  {
    var i := IndexOf(s, x);
    var r := Removed(s, i);
    forall y | y in s && y != x
      ensures y in r
    {
      var j :| 0 <= j < |s| && s[j] == y;
      assert r[if j < i then j else j - 1] == y;
    }
  }
}

/** The VMs attached to a runtime: a ring and its counter. */
module RuntimeVms {
  import opened Rings

  datatype ErrorCode =
    | ErrorNone
    | MaximumVmCountExceeded
    | FailedToAttachNativeThread
    | VmStillAttached
    | OutOfNativeMemory

  class Runtime<D> {
    const vmList: Ring<D>
    const maximumVmCount: nat
    var vmCount: int
    var initialized: bool

    /** The counter counts the ring, and stays within a maximum that is set. */
    ghost predicate Valid()
      reads this, vmList, vmList.nodes`linkNext, vmList.nodes`linkPrevious
    {
      vmList.Valid() && vmCount == |vmList.nodes| && (maximumVmCount != 0 ==> vmCount <= maximumVmCount)
    }

    /** `omr_initialize_runtime` on a zeroed runtime. */
    constructor (maximumVmCount: nat, nativeAttachSucceeds: bool, monitorSucceeds: bool)
      ensures Valid() && fresh(vmList) && vmList.nodes == [] && this.maximumVmCount == maximumVmCount
      ensures initialized == (nativeAttachSucceeds && monitorSucceeds)
    {
      this.maximumVmCount := maximumVmCount;
      var list := new Ring<D>();
      vmList, vmCount := list, 0;
      initialized := nativeAttachSucceeds && monitorSucceeds;
    }

    method AttachVM(vm: Node<D>) returns (rc: ErrorCode)
      requires Valid() && vm !in vmList.nodes
      modifies this`vmCount, vmList, vmList.nodes`linkNext, vmList.nodes`linkPrevious, vm`linkNext, vm`linkPrevious
      ensures Valid()
      ensures rc == if maximumVmCount == 0 || |old(vmList.nodes)| < maximumVmCount
                    then ErrorNone
                    else MaximumVmCountExceeded
      ensures vmList.nodes == old(vmList.nodes) + (if rc == ErrorNone then [vm] else [])
    {
      rc := ErrorNone;
      if maximumVmCount == 0 || vmCount < maximumVmCount {
        vmList.AddLast(vm);
        vmCount := vmCount + 1;
      } else {
        rc := MaximumVmCountExceeded;
      }
    }

    method DetachVM(vm: Node<D>, ghost i: nat) returns (rc: ErrorCode)
      requires Valid() && i < |vmList.nodes| && vmList.nodes[i] == vm
      modifies this`vmCount, vmList, vmList.nodes`linkNext, vmList.nodes`linkPrevious
      ensures Valid() && rc == ErrorNone && vmList.nodes == Removed(old(vmList.nodes), i)
    {
      vmList.Remove(vm, i);
      vmCount := vmCount - 1;
      rc := ErrorNone;
    }

    /** A VM that attaches, and detaches again if it was admitted, leaves ring and counter as they were. */
    method AttachThenDetach(vm: Node<D>) returns (rc: ErrorCode)
      requires Valid() && vm !in vmList.nodes
      modifies this`vmCount, vmList, vmList.nodes`linkNext, vmList.nodes`linkPrevious, vm`linkNext, vm`linkPrevious
      ensures Valid() && vmList.nodes == old(vmList.nodes) && vmCount == old(vmCount)
    {
      rc := AttachVM(vm);
      if rc == ErrorNone {
        rc := DetachVM(vm, |vmList.nodes| - 1);
      }
    }

    /** `omr_destroy_runtime`: refused exactly while a VM is attached to an initialized runtime. */
    method Destroy(nativeAttachSucceeds: bool) returns (rc: ErrorCode)
      requires Valid()
      modifies this`initialized
      ensures Valid()
      ensures rc == VmStillAttached <==> nativeAttachSucceeds && old(initialized) && vmList.nodes != []
      ensures rc == FailedToAttachNativeThread <==> !nativeAttachSucceeds
      ensures rc in {ErrorNone, VmStillAttached, FailedToAttachNativeThread}
      ensures initialized == (if rc == ErrorNone then false else old(initialized))
    {
      rc := ErrorNone;
      if nativeAttachSucceeds {
        if initialized {
          if vmCount == 0 {
            initialized := false;
          } else {
            rc := VmStillAttached;
          }
        }
      } else {
        rc := FailedToAttachNativeThread;
      }
    }
  }
}

/**
 Signal slots: a primary and a secondary action per signal share one disposition of the operating system.
 Handlers are identified by their address; `sa_handler` and `sa_sigaction` are the same word.
 */
module SignalSlots {
  import opened Options

  const NSIG: nat := 65
  const SIGKILL: nat := 9
  const SIGSTOP: nat := 19

  datatype Handler = Default | Ignore | Function(address: nat)

  datatype Flag = SigInfo | ResetHand | NoDefer | Restart | OnStack | NoCldStop | NoCldWait

  datatype Action = Action(handler: Handler, flags: set<Flag>, mask: set<nat>)

  datatype SigData = SigData(primary: Action, secondary: Action)

  const ZEROED: Action := Action(Default, {}, {})

  /** The secondary's flags that are registered together with a primary function. */
  const WHITELIST: set<Flag> := {OnStack, NoCldStop, NoCldWait}

  predicate HandlerIsFunction(a: Action) {
    (a.handler != Default && a.handler != Ignore && SigInfo in a.flags) || (a.handler != Ignore && a.handler != Default)
  }

  predicate ValidSignalNum(signum: int, nullAction: bool) {
    0 <= signum < NSIG && ((signum != SIGKILL && signum != SIGSTOP) || nullAction)
  }

  // ---- one signal, as a value ----

  /** The slot of a signal and the disposition the operating system holds for it. */
  datatype Slot = Slot(data: SigData, os: Action)

  function Saved(d: SigData, primary: bool): Action {
    if primary then d.primary else d.secondary
  }

  function WithSaved(d: SigData, act: Action, primary: bool): SigData {
    if primary then d.(primary := act.(flags := act.flags - {ResetHand})) else d.(secondary := act)
  }

  /** What an installation registers with the operating system. */
  function Registered(d: SigData): Action {
    if HandlerIsFunction(d.primary) then d.primary.(flags := d.primary.flags + d.secondary.flags * WHITELIST)
    else d.secondary
  }

  function Installed(s: Slot, act: Action, primary: bool): Slot {
    var d := WithSaved(s.data, act, primary);
    Slot(d, Registered(d))
  }

  /** The old action reported to a caller. */
  function View(s: Slot, primary: bool): Action {
    if SigInfo !in s.os.flags && (s.os.handler == Default || s.os.handler == Ignore)
    then s.os
    else Saved(s.data, primary)
  }

  /** An action after its handler was entered once: a one-shot handler is gone. */
  function Reset(a: Action): Action {
    a.(handler := Default, flags := a.flags - {SigInfo})
  }

  /** `omrsig_handler` entered the secondary handler. */
  function Delivered(s: Slot): Slot {
    var a := s.data.secondary;
    if HandlerIsFunction(a) && ResetHand in a.flags then Installed(s, Reset(a), false) else s
  }

  datatype ReturnCode = Error | Handled | DefaultActionRequired

  function ReturnCodeOf(a: Action): ReturnCode {
    if HandlerIsFunction(a) then Handled else if a.handler == Default then DefaultActionRequired else Error
  }

  /** A handler is entered with its address, whether it takes the signal information, and the thread's mask. */
  datatype Call = Call(address: nat, takesInfo: bool, mask: set<nat>)

  /** The handler runs with its own signal unblocked. */
  predicate Defers(a: Action, resetDefers: bool) {
    NoDefer in a.flags || (resetDefers && ResetHand in a.flags)
  }

  /** The mask `omrsig_handler` runs a handler with; `resetDefers` on platforms where one-shot handlers do not
      block their own signal. */
  function MaskDuring(a: Action, sig: nat, blocked: set<nat>, resetDefers: bool): set<nat> {
    if Defers(a, resetDefers) then blocked + a.mask + {sig} - {sig} else blocked + a.mask + {sig}
  }

  function CallOf(a: Action, sig: nat, blocked: set<nat>, resetDefers: bool): Option<Call> {
    if HandlerIsFunction(a)
    then Some(Call(a.handler.address, SigInfo in a.flags, MaskDuring(a, sig, blocked, resetDefers)))
    else None
  }

  /** `signal` and its System V names, `bsd_signal`, and `omrsig_primary_signal`. */
  datatype SignalEntry = SysvSignal | BsdSignal | PrimarySignal

  function SignalAction(handler: Handler, entry: SignalEntry): Action {
    var flags := match entry
      case SysvSignal => {NoDefer, ResetHand}
      case BsdSignal => {Restart}
      case PrimarySignal => {NoDefer, Restart};
    Action(handler, flags, {})
  }

  // ---- all signals, updated in place ----

  class SignalTable {
    const sigData: array<SigData>
    const os: array<Action>
    const resetDefers: bool

    ghost predicate Valid()
      reads this
    {
      sigData.Length == os.Length == NSIG
    }

    ghost function SlotOf(signum: nat): Slot
      requires Valid() && signum < NSIG
      reads this, sigData, os
    {
      Slot(sigData[signum], os[signum])
    }

    constructor (resetDefers: bool)
      ensures Valid() && fresh(sigData) && fresh(os) && this.resetDefers == resetDefers
      ensures forall i :: 0 <= i < NSIG ==> SlotOf(i) == Slot(SigData(ZEROED, ZEROED), ZEROED)
    {
      this.resetDefers := resetDefers;
      sigData := new SigData[NSIG](_ => SigData(ZEROED, ZEROED));
      os := new Action[NSIG](_ => ZEROED);
    }

    /** The common entry point. The flags say whether the operating system answers the query and accepts the
        action; the slot is written before it is asked. */
    method SigactionInternal(signum: int, act: Option<Action>, wantOld: bool, primary: bool, queryOk: bool, setOk: bool)
      returns (rc: int, oldact: Option<Action>)
      requires Valid()
      modifies sigData, os
      ensures var valid := ValidSignalNum(signum, act.None? || !HandlerIsFunction(act.value));
        && (!valid ==> rc == -1 && oldact == None && sigData[..] == old(sigData[..]) && os[..] == old(os[..]))
        && (valid ==>
             && rc == (if act.Some? then (if setOk then 0 else -1) else if wantOld && !queryOk then -1 else 0)
             && oldact == (if !wantOld then None
                           else Some(if queryOk then View(old(SlotOf(signum)), primary)
                             else Saved(old(sigData[signum]), primary)))
             && sigData[..] == (if act.None? then old(sigData[..])
                                else old(sigData[..])[signum := WithSaved(old(sigData[signum]), act.value, primary)])
             && os[..] == (if act.None? || !setOk then old(os[..])
                  else old(os[..])[signum := Registered(sigData[signum])]))
    {
      rc, oldact := 0, None;
      if !ValidSignalNum(signum, act.None? || !HandlerIsFunction(act.value)) {
        return -1, None;
      }
      if wantOld {
        var returnOldAction := false;
        rc := if queryOk then 0 else -1;
        var oact := if queryOk then os[signum] else ZEROED;
        if rc != -1 {
          if SigInfo !in oact.flags {
            if oact.handler == Default || oact.handler == Ignore {
              returnOldAction := true;
            }
          }
        }
        oldact := Some(if returnOldAction then oact else Saved(sigData[signum], primary));
      }
      if act.Some? {
        sigData[signum] := WithSaved(sigData[signum], act.value, primary);
        var newRegisteringHandler;
        if HandlerIsFunction(sigData[signum].primary) {
          newRegisteringHandler := sigData[signum].primary;
          newRegisteringHandler :=
            newRegisteringHandler.(flags := newRegisteringHandler.flags + sigData[signum].secondary.flags * WHITELIST);
        } else {
          newRegisteringHandler := sigData[signum].secondary;
        }
        if setOk {
          os[signum] := newRegisteringHandler;
          rc := 0;
        } else {
          rc := -1;
        }
      }
    }

    /** `sigaction` and `omrsig_primary_sigaction`, when the operating system goes along: one signal's slot
        steps as `Installed`, nothing else changes. */
    method Sigaction(signum: int, act: Option<Action>, wantOld: bool, primary: bool)
      returns (rc: int, oldact: Option<Action>)
      requires Valid()
      modifies sigData, os
      ensures rc == 0 <==>
              0 <= signum < 65 && (act.None? || !act.value.handler.Function? || (signum != 9 && signum != 19))
      ensures rc == 0 || rc == -1
      ensures rc == 0 ==> oldact == (if wantOld then Some(View(old(SlotOf(signum)), primary)) else None)
      ensures rc == 0 && act.Some? ==> SlotOf(signum) == Installed(old(SlotOf(signum)), act.value, primary)
      ensures forall i :: 0 <= i < NSIG && (i != signum || rc != 0 || act.None?) ==> SlotOf(i) == old(SlotOf(i))
    {
      rc, oldact := SigactionInternal(signum, act, wantOld, primary, true, true);
      assert forall i :: 0 <= i < NSIG ==> old(sigData[i]) == old(sigData[..])[i] && sigData[i] == sigData[..][i];
      assert forall i :: 0 <= i < NSIG ==> old(os[i]) == old(os[..])[i] && os[i] == os[..][i];
    }

    /** The entry points that take only a handler; None is SIG_ERR. */
    method Signal(signum: int, handler: Handler, entry: SignalEntry) returns (was: Option<Handler>)
      requires Valid()
      modifies sigData, os
      ensures was.Some? <==> 0 <= signum < 65 && (!handler.Function? || (signum != 9 && signum != 19))
      ensures was.Some? ==> was.value == View(old(SlotOf(signum)), entry.PrimarySignal?).handler
      ensures was.Some? ==>
                SlotOf(signum) == Installed(old(SlotOf(signum)), SignalAction(handler, entry), entry.PrimarySignal?)
      ensures forall i :: 0 <= i < NSIG && (i != signum || was.None?) ==> SlotOf(i) == old(SlotOf(i))
    {
      var rc, oldact := Sigaction(signum, Some(SignalAction(handler, entry)), true, entry.PrimarySignal?);
      was := if rc == 0 then Some(oldact.value.handler) else None;
    }

    /** `omrsig_handler`, with the calling thread's mask and whether each change of the mask succeeds: enters the
        secondary handler as the operating system would, and restores the mask. When the signal cannot be unblocked
        for a deferring handler, nothing is called and the mask stays widened. */
    method OmrsigHandler(sig: int, blocked: set<nat>, blockOk: bool, unblockOk: bool, restoreOk: bool)
      returns (rc: ReturnCode, call: Option<Call>, after: set<nat>)
      requires Valid()
      modifies sigData, os
      ensures !ValidSignalNum(sig, false) ==> rc == Error && call == None && after == blocked
      ensures ValidSignalNum(sig, false) ==>
        var a := old(sigData[sig]).secondary;
        var called := HandlerIsFunction(a) && blockOk && (!Defers(a, resetDefers) || unblockOk);
        && rc == (if HandlerIsFunction(a) && !(called && restoreOk) then Error else ReturnCodeOf(a))
        && call == (if called then CallOf(a, sig, blocked, resetDefers) else None)
        && SlotOf(sig) == (if called then Delivered(old(SlotOf(sig))) else old(SlotOf(sig)))
        && after == (if called then (if restoreOk then blocked else MaskDuring(a, sig, blocked, resetDefers))
                     else if HandlerIsFunction(a) && blockOk then blocked + a.mask + {sig}
                     else blocked)
      ensures forall i :: 0 <= i < NSIG && (i != sig || !ValidSignalNum(sig, false)) ==> SlotOf(i) == old(SlotOf(i))
    {
      rc, call, after := Error, None, blocked;
      if ValidSignalNum(sig, false) {
        var action := sigData[sig].secondary;
        if HandlerIsFunction(action) {
          var ok := blockOk;
          if ok {
            after := blocked + action.mask + {sig};
          }
          if ok && Defers(action, resetDefers) {
            ok := unblockOk;
            after := if ok then after - {sig} else after;
          }
          if ok {
            if ResetHand in action.flags {
              var reset := action.(flags := action.flags - {SigInfo}, handler := Default);
              var _, _ := Sigaction(sig, Some(reset), false, false);
            }
            call := Some(Call(action.handler.address, SigInfo in action.flags, after));
            ok := restoreOk;
            after := if ok then blocked else after;
          }
          if ok {
            rc := Handled;
          }
        } else if action.handler == Default {
          rc := DefaultActionRequired;
        }
      }
    }
  }

  // ---- the mask of a handler ----

  /** What POSIX prescribes: the handler's mask, and the signal itself unless SA_NODEFER is set, or SA_RESETHAND on
      platforms where that implies it. */
  function PosixMask(a: Action, sig: nat, blocked: set<nat>, resetDefers: bool): set<nat> {
    if NoDefer in a.flags then blocked + a.mask
    else if resetDefers && ResetHand in a.flags then blocked + a.mask
    else blocked + a.mask + {sig}
  }

  /** The two masks agree except for deferring handlers whose own mask, or whose thread, blocks the signal:
      the source unblocks it even then. */
  lemma MaskIsPosixIff(a: Action, sig: nat, blocked: set<nat>, resetDefers: bool)
    ensures MaskDuring(a, sig, blocked, resetDefers) == PosixMask(a, sig, blocked, resetDefers)
       <==> (NoDefer !in a.flags && !(resetDefers && ResetHand in a.flags)) || (sig !in a.mask && sig !in blocked)
  {
    var during, posix := MaskDuring(a, sig, blocked, resetDefers), PosixMask(a, sig, blocked, resetDefers);
    if Defers(a, resetDefers) {
      assert sig !in during;
      assert sig in posix <==> sig in a.mask || sig in blocked;
      if sig !in posix {
        assert during == posix;
      }
    } else {
      assert during == posix;
    }
  }

  // ---- the entry points that take only a handler ----

  /** What each of them installs: nothing is blocked beside the signal itself, no signal information is taken; only the
      System V form is one-shot, only the BSD form keeps its own signal blocked, and the others restart calls. */
  lemma SignalInstalls(s: Slot, handler: Handler, entry: SignalEntry)
    ensures var a := Saved(Installed(s, SignalAction(handler, entry), entry.PrimarySignal?).data, entry.PrimarySignal?);
      && a.handler == handler && a.mask == {} && SigInfo !in a.flags && a.flags * WHITELIST == {}
      && (ResetHand in a.flags <==> entry.SysvSignal?)
      && (NoDefer !in a.flags <==> entry.BsdSignal?)
      && (Restart !in a.flags <==> entry.SysvSignal?)
  {
  }

  /** Given to `omrsig_handler`, a handler installed with `signal` runs once with its signal unblocked and then is the
      default again; one installed with `bsd_signal` runs with its signal blocked and stays; a primary is not run. */
  lemma SignalDelivers(s: Slot, handler: Handler, entry: SignalEntry, sig: nat, resetDefers: bool)
    requires handler.Function?
    ensures var now := Installed(s, SignalAction(handler, entry), entry.PrimarySignal?);
            var call := CallOf(now.data.secondary, sig, {}, resetDefers);
      && (entry.SysvSignal? ==>
            call == Some(Call(handler.address, false, {})) && Delivered(now).data.secondary.handler == Default)
      && (entry.BsdSignal? ==> call == Some(Call(handler.address, false, {sig})) && Delivered(now) == now)
      && (entry.PrimarySignal? ==> now.data.secondary == s.data.secondary && now.os.handler == handler)
  {
    var a := SignalAction(handler, entry);
    assert MaskDuring(a, sig, {}, resetDefers) == if entry.BsdSignal? then {sig} else {};
  }
}

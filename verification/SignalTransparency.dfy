/**
 What callers see of the signal slots over whole runs: installations and queries of both sides, deliveries
 through `omrsig_handler`, and deliveries by the operating system, in any order.
 */
module SignalTransparency {
  import opened Options
  import opened SignalSlots

  /** An event at one signal; the operating system accepts every action. */
  datatype Event =
    | Install(sig: nat, act: Action, primary: bool)
    | Query(sig: nat, primary: bool)
    | Handle(sig: nat)
    | OsDeliver(sig: nat)

  /** A signal's slot beside what an ordinary table would hold that only the secondary uses. */
  datatype Cell = Cell(slot: Slot, plain: Action)

  /** An ordinary table delivers a signal: one-shot handlers are reset, except of `exempt` signals, which
      POSIX allows never to be reset (SIGILL and SIGTRAP). */
  function PlainDelivered(a: Action, sig: nat, exempt: set<nat>): Action {
    if HandlerIsFunction(a) && ResetHand in a.flags && sig !in exempt then Reset(a) else a
  }

  function CellStep(c: Cell, e: Event, exempt: set<nat>): Cell {
    match e
    case Install(_, act, primary) => Cell(Installed(c.slot, act, primary), if primary then c.plain else act)
    case Query(_, _) => c
    case Handle(sig) => Cell(Delivered(c.slot), PlainDelivered(c.plain, sig, exempt))
    case OsDeliver(sig) =>
      Cell(c.slot.(os := PlainDelivered(c.slot.os, sig, exempt)),
           if HandlerIsFunction(c.slot.data.primary) then c.plain else PlainDelivered(c.plain, sig, exempt))
  }

  ghost predicate Run(states: seq<seq<Cell>>, events: seq<Event>, exempt: set<nat>) {
    && |states| == |events| + 1
    && states[0] == seq(NSIG, _ => Cell(Slot(SigData(ZEROED, ZEROED), ZEROED), ZEROED))
    && forall n :: 0 <= n < |events| ==>
         && events[n].sig < |states[n]|
         && states[n + 1] == states[n][events[n].sig := CellStep(states[n][events[n].sig], events[n], exempt)]
  }

  /** The operating system has reset a one-shot secondary handler; the slot still holds it. */
  predicate Spent(s: Slot) {
    !HandlerIsFunction(s.data.primary) && HandlerIsFunction(s.data.secondary) && s.os.handler == Default
  }

  /** The secondary sees the action of the ordinary table. */
  predicate Transparent(c: Cell) {
    View(c.slot, false) == c.plain
  }

  /** The two events that the slots do not follow: the primary installs over a spent secondary, or
      `omrsig_handler` resets a handler of an exempt signal. */
  predicate Breaks(c: Cell, e: Event, exempt: set<nat>) {
    match e
    case Install(_, _, primary) => primary && Spent(c.slot)
    case Handle(sig) => sig in exempt && HandlerIsFunction(c.slot.data.secondary)
      && ResetHand in c.slot.data.secondary.flags
    case _ => false
  }

  /** The slot and the operating system both hold what the ordinary table implies. */
  predicate InStep(c: Cell) {
    c.slot.os == Registered(c.slot.data) && c.plain == c.slot.data.secondary
  }

  predicate SpentInStep(c: Cell) {
    var a := c.slot.data.secondary;
    Spent(c.slot) && ResetHand in a.flags && c.slot.os == c.plain == Reset(a)
  }

  predicate Tracks(c: Cell) {
    ResetHand !in c.slot.data.primary.flags && (InStep(c) || SpentInStep(c))
  }

  lemma TracksIsTransparent(c: Cell)
    requires Tracks(c)
    ensures Transparent(c)
    ensures c.slot.os == Registered(c.slot.data) <==> !Spent(c.slot)
  {
  }

  lemma CellStepTracks(c: Cell, e: Event, exempt: set<nat>)
    requires Tracks(c)
    requires Spent(c.slot) ==> e.sig !in exempt
    ensures Breaks(c, e, exempt) ==> !Transparent(CellStep(c, e, exempt))
    ensures !Breaks(c, e, exempt) ==> Tracks(CellStep(c, e, exempt))
    ensures !Breaks(c, e, exempt) && Spent(CellStep(c, e, exempt).slot) ==> e.sig !in exempt
  {
  }

  ghost predicate AllTrack(s: seq<Cell>, exempt: set<nat>) {
    forall sig :: 0 <= sig < |s| ==> Tracks(s[sig]) && (Spent(s[sig].slot) ==> sig !in exempt)
  }

  ghost predicate Unbroken(states: seq<seq<Cell>>, events: seq<Event>, exempt: set<nat>, n: nat)
    requires Run(states, events, exempt) && n <= |events|
  {
    forall k :: 0 <= k < n ==> !Breaks(states[k][events[k].sig], events[k], exempt)
  }

  lemma {:induction false} UnbrokenTracks(states: seq<seq<Cell>>, events: seq<Event>, exempt: set<nat>, n: nat)
    requires Run(states, events, exempt) && n <= |events| && Unbroken(states, events, exempt, n)
    ensures |states[n]| == NSIG && AllTrack(states[n], exempt)
  {
    if n > 0 {
      UnbrokenTracks(states, events, exempt, n - 1);
      hide Breaks, Tracks, CellStep, Spent;
      CellStepTracks(states[n - 1][events[n - 1].sig], events[n - 1], exempt);
    }
  }

  ghost predicate AlwaysTransparent(states: seq<seq<Cell>>) {
    forall n, sig :: 0 <= n < |states| && 0 <= sig < |states[n]| ==> Transparent(states[n][sig])
  }

  /** Transparency: the old action reported to a secondary caller is that of an ordinary table which never saw
      the primary, in every state of a run, if and only if no event of the run breaks it. */
  lemma TransparentIff(states: seq<seq<Cell>>, events: seq<Event>, exempt: set<nat>)
    requires Run(states, events, exempt)
    ensures AlwaysTransparent(states) <==> Unbroken(states, events, exempt, |events|)
  {
    hide Breaks, Tracks, CellStep, Transparent, Spent;
    if Unbroken(states, events, exempt, |events|) {
      forall n, sig | 0 <= n < |states| && 0 <= sig < |states[n]|
        ensures Transparent(states[n][sig])
      {
        UnbrokenTracks(states, events, exempt, n);
        TracksIsTransparent(states[n][sig]);
      }
    } else {
      var n := FirstBreak(states, events, exempt, |events|);
      UnbrokenTracks(states, events, exempt, n);
      CellStepTracks(states[n][events[n].sig], events[n], exempt);
      assert !Transparent(states[n + 1][events[n].sig]);
    }
  }

  lemma {:induction false} FirstBreak(states: seq<seq<Cell>>, events: seq<Event>, exempt: set<nat>, m: nat)
    returns (n: nat)
    requires Run(states, events, exempt) && m <= |events| && !Unbroken(states, events, exempt, m)
    ensures n < m && Unbroken(states, events, exempt, n) && Breaks(states[n][events[n].sig], events[n], exempt)
  {
    hide Breaks, CellStep;
    if Unbroken(states, events, exempt, m - 1) {
      n := m - 1;
    } else {
      n := FirstBreak(states, events, exempt, m - 1);
    }
  }

  // ---- what the operating system holds ----

  /** The disposition is what the slot implies, or the spent secondary handler. */
  predicate Settled(s: Slot) {
    && ResetHand !in s.data.primary.flags
    && (if Spent(s)
        then ResetHand in s.data.secondary.flags && s.os == Reset(s.data.secondary)
        else s.os == Registered(s.data))
  }

  lemma CellStepSettled(c: Cell, e: Event, exempt: set<nat>)
    requires Settled(c.slot)
    ensures Settled(CellStep(c, e, exempt).slot)
  {
  }

  lemma {:induction false} AlwaysSettled(states: seq<seq<Cell>>, events: seq<Event>, exempt: set<nat>, n: nat)
    requires Run(states, events, exempt) && n <= |events|
    ensures |states[n]| == NSIG && forall sig :: 0 <= sig < NSIG ==> Settled(states[n][sig].slot)
  {
    if n > 0 {
      AlwaysSettled(states, events, exempt, n - 1);
      hide CellStep, Settled;
      CellStepSettled(states[n - 1][events[n - 1].sig], events[n - 1], exempt);
    }
  }

  /** What a slot implies: the primary with the secondary's stack and child flags added when the primary is a
      function, and the secondary otherwise. */
  predicate Implied(d: SigData, os: Action) {
    if d.primary.handler.Function? then
      && os.handler == d.primary.handler && os.mask == d.primary.mask
      && forall f :: f in os.flags
                     <==> f in d.primary.flags || (f in d.secondary.flags && f in {OnStack, NoCldStop, NoCldWait})
    else os == d.secondary
  }

  lemma ImpliedIsRegistered(d: SigData, os: Action)
    ensures Implied(d, os) <==> os == Registered(d)
  {
    if Implied(d, os) && d.primary.handler.Function? {
      assert os.flags == Registered(d).flags;
    }
  }

  /** The secondary is a one-shot handler and the disposition is its own. */
  predicate OneShot(s: Slot) {
    !HandlerIsFunction(s.data.primary) && HandlerIsFunction(s.data.secondary) && ResetHand in s.data.secondary.flags
  }

  /** The operating system delivered the signal to a one-shot secondary of a signal that is not exempt, and since then
      nobody installed anything at that signal or gave it to `omrsig_handler`. */
  ghost predicate WasReset(states: seq<seq<Cell>>, events: seq<Event>, exempt: set<nat>, n: nat, sig: nat)
    requires n <= |events| <= |states|
  {
    exists k :: 0 <= k < n && ResetAt(states, events, exempt, k, n, sig)
  }

  ghost predicate ResetAt(states: seq<seq<Cell>>, events: seq<Event>, exempt: set<nat>, k: nat, n: nat, sig: nat)
    requires k < n <= |events| <= |states|
  {
    && events[k] == OsDeliver(sig) && sig !in exempt && sig < |states[k]| && OneShot(states[k][sig].slot)
    && forall m :: k < m < n && events[m].sig == sig ==> !events[m].Install? && !events[m].Handle?
  }

  /** How a handler becomes spent, and how it stops being so. */
  lemma SpentStep(c: Cell, e: Event, exempt: set<nat>)
    requires Settled(c.slot)
    ensures Spent(CellStep(c, e, exempt).slot)
       <==> (e.OsDeliver? && e.sig !in exempt && OneShot(c.slot))
            || (!e.Install? && !e.Handle? && Spent(c.slot))
  {
  }

  /** A handler is spent exactly while such a delivery is the last word. */
  lemma {:induction false} SpentIff(states: seq<seq<Cell>>, events: seq<Event>, exempt: set<nat>, n: nat, sig: nat)
    requires Run(states, events, exempt) && n <= |events| && sig < NSIG
    ensures |states[n]| == NSIG
    ensures Spent(states[n][sig].slot) <==> WasReset(states, events, exempt, n, sig)
  {
    AlwaysSettled(states, events, exempt, n);
    if n > 0 {
      hide CellStep, Settled, Spent, OneShot;
      AlwaysSettled(states, events, exempt, n - 1);
      SpentIff(states, events, exempt, n - 1, sig);
      SpentStep(states[n - 1][sig], events[n - 1], exempt);
      ResetLater(states, events, exempt, n - 1, sig);
    }
  }

  lemma ResetLater(states: seq<seq<Cell>>, events: seq<Event>, exempt: set<nat>, n: nat, sig: nat)
    requires n < |events| < |states| && sig < |states[n]|
    ensures WasReset(states, events, exempt, n + 1, sig)
       <==> (events[n] == OsDeliver(sig) && sig !in exempt && OneShot(states[n][sig].slot))
            || ((events[n].sig == sig ==> !events[n].Install? && !events[n].Handle?)
                && WasReset(states, events, exempt, n, sig))
  {
    hide OneShot;
    if WasReset(states, events, exempt, n + 1, sig) {
      var k :| 0 <= k < n + 1 && ResetAt(states, events, exempt, k, n + 1, sig);
      assert k < n ==> ResetAt(states, events, exempt, k, n, sig);
    }
    if events[n] == OsDeliver(sig) && sig !in exempt && OneShot(states[n][sig].slot) {
      assert ResetAt(states, events, exempt, n, n + 1, sig);
    }
    var kept := events[n].sig == sig ==> !events[n].Install? && !events[n].Handle?;
    if WasReset(states, events, exempt, n, sig) && kept {
      var k :| 0 <= k < n && ResetAt(states, events, exempt, k, n, sig);
      assert ResetAt(states, events, exempt, k, n + 1, sig);
    }
  }

  /** In every state of every run the disposition is what the slot implies, if and only if the last word at the signal
      is not such a delivery; after one it is the default action with the handler's mask and its other flags. */
  lemma DispositionIff(states: seq<seq<Cell>>, events: seq<Event>, exempt: set<nat>, n: nat, sig: nat)
    requires Run(states, events, exempt) && n <= |events| && sig < NSIG
    ensures |states[n]| == NSIG
    ensures var s := states[n][sig].slot;
      && (Implied(s.data, s.os) <==> !WasReset(states, events, exempt, n, sig))
      && (WasReset(states, events, exempt, n, sig) ==>
            && ResetHand in s.data.secondary.flags
            && s.os == Action(Default, s.data.secondary.flags - {SigInfo}, s.data.secondary.mask))
  {
    hide Implied, CellStep, WasReset;
    AlwaysSettled(states, events, exempt, n);
    assert Settled(states[n][sig].slot);
    ImpliedIsRegistered(states[n][sig].slot.data, states[n][sig].slot.os);
    SpentIff(states, events, exempt, n, sig);
  }

  /** A signal given to `omrsig_handler` is answered as the ordinary table would, unless the handler is spent. */
  predicate AnswersPlainly(c: Cell) {
    ReturnCodeOf(c.slot.data.secondary) == ReturnCodeOf(c.plain) <==> !Spent(c.slot)
  }

  ghost predicate AlwaysAnswersPlainly(states: seq<seq<Cell>>) {
    forall n, sig :: 0 <= n < |states| && 0 <= sig < |states[n]| ==> AnswersPlainly(states[n][sig])
  }

  lemma TracksAnswers(c: Cell)
    requires Tracks(c)
    ensures AnswersPlainly(c) && (!Spent(c.slot) ==> c.slot.data.secondary == c.plain)
  {
  }

  lemma BreakMisanswers(c: Cell, e: Event, exempt: set<nat>)
    requires Tracks(c) && Breaks(c, e, exempt) && (Spent(c.slot) ==> e.sig !in exempt)
    ensures !AnswersPlainly(CellStep(c, e, exempt))
  {
  }

  /** Delivery through `omrsig_handler` answers as an ordinary table would exactly where no handler is spent, in every
      state of a run, if and only if no event of the run breaks it; until then it runs the handler of that table too. */
  lemma DeliveryIff(states: seq<seq<Cell>>, events: seq<Event>, exempt: set<nat>)
    requires Run(states, events, exempt)
    ensures AlwaysAnswersPlainly(states) <==> Unbroken(states, events, exempt, |events|)
    ensures forall n, sig :: 0 <= n < |states| && Unbroken(states, events, exempt, n) && 0 <= sig < |states[n]| ==>
              !Spent(states[n][sig].slot) ==> states[n][sig].slot.data.secondary == states[n][sig].plain
  {
    hide Breaks, Tracks, CellStep, AnswersPlainly, Spent;
    forall n, sig | 0 <= n < |states| && Unbroken(states, events, exempt, n) && 0 <= sig < |states[n]|
      ensures AnswersPlainly(states[n][sig])
      ensures !Spent(states[n][sig].slot) ==> states[n][sig].slot.data.secondary == states[n][sig].plain
    {
      UnbrokenTracks(states, events, exempt, n);
      TracksAnswers(states[n][sig]);
    }
    if !Unbroken(states, events, exempt, |events|) {
      var n := FirstBreak(states, events, exempt, |events|);
      UnbrokenTracks(states, events, exempt, n);
      BreakMisanswers(states[n][events[n].sig], events[n], exempt);
      assert !AnswersPlainly(states[n + 1][events[n].sig]);
    }
  }

  /** What a delivery is, said by the ordinary table alone: in every unbroken state in which no handler is spent, a
      function is called at its address, with the signal information exactly when the action asks for it and with its
      mask, and the signal is handled; the default action is left to the caller; an ignored signal is an error. */
  lemma DeliveryMeans(states: seq<seq<Cell>>, events: seq<Event>, exempt: set<nat>, n: nat, sig: nat, blocked: set<nat>,
                      resetDefers: bool)
    requires Run(states, events, exempt) && n <= |events| && Unbroken(states, events, exempt, n) && sig < NSIG
    requires |states[n]| == NSIG && !Spent(states[n][sig].slot)
    ensures var a, plain := states[n][sig].slot.data.secondary, states[n][sig].plain;
            var rc, call := ReturnCodeOf(a), CallOf(a, sig, blocked, resetDefers);
      match plain.handler
      case Default => rc == DefaultActionRequired && call == None
      case Ignore => rc == Error && call == None
      case Function(address) =>
        && rc == Handled && call.Some? && call.value.address == address
        && (call.value.takesInfo <==> SigInfo in plain.flags)
        && (forall i: nat :: i != sig ==> (i in call.value.mask <==> i in blocked || i in plain.mask))
        && (sig in call.value.mask <==> NoDefer !in plain.flags && !(resetDefers && ResetHand in plain.flags))
  {
    hide Breaks, CellStep;
    UnbrokenTracks(states, events, exempt, n);
    assert Tracks(states[n][sig]);
  }

  /** The last event before event `n` in which the primary installed an action at the signal. */
  ghost function LastPrimary(events: seq<Event>, n: nat, sig: nat): (k: Option<nat>)
    requires n <= |events|
    ensures k.Some? ==> k.value < n && events[k.value].Install?
  {
    if n == 0 then None
    else if events[n - 1].Install? && events[n - 1].sig == sig && events[n - 1].primary then Some(n - 1)
    else LastPrimary(events, n - 1, sig)
  }

  /** In every run the primary slot holds the last action that the primary installed there, one-shot flag aside,
      whatever the secondary and the operating system do. */
  lemma {:induction false} PrimaryIsLastInstalled(states: seq<seq<Cell>>, events: seq<Event>, exempt: set<nat>, n: nat,
                                                  sig: nat)
    requires Run(states, events, exempt) && n <= |events| && sig < NSIG
    ensures |states[n]| == NSIG
    ensures var a := states[n][sig].slot.data.primary;
      match LastPrimary(events, n, sig)
      case None => a == Action(Default, {}, {})
      case Some(k) =>
        && a.handler == events[k].act.handler && a.mask == events[k].act.mask
        && forall f :: f in a.flags <==> f in events[k].act.flags && f != ResetHand
  {
    if n > 0 {
      PrimaryIsLastInstalled(states, events, exempt, n - 1, sig);
    }
  }

  /** No primary slot ever holds a one-shot handler, whatever happens. */
  lemma {:induction false} PrimaryIsNeverOneShot(states: seq<seq<Cell>>, events: seq<Event>, exempt: set<nat>, n: nat,
                                                 sig: nat)
    requires Run(states, events, exempt) && n <= |events| && sig < |states[n]|
    ensures ResetHand !in states[n][sig].slot.data.primary.flags
  {
    if n > 0 {
      PrimaryIsNeverOneShot(states, events, exempt, n - 1, sig);
    }
  }

  /** Hence in every run a delivery by the operating system to a primary function leaves its disposition alone. */
  lemma PrimaryStaysRegistered(states: seq<seq<Cell>>, events: seq<Event>, exempt: set<nat>, n: nat, sig: nat)
    requires Run(states, events, exempt) && n <= |events| && sig < NSIG
    requires |states[n]| == NSIG && HandlerIsFunction(states[n][sig].slot.data.primary)
    ensures CellStep(states[n][sig], OsDeliver(sig), exempt) == states[n][sig]
  {
    AlwaysSettled(states, events, exempt, n);
    assert Settled(states[n][sig].slot);
  }

  /** The primary sees its own slot only when one side has a function: otherwise the operating system's default
      or ignore action, which is the secondary's, is reported to it. A spent handler of the secondary counts as the
      default action it was reset to. */
  lemma PrimaryViewIff(states: seq<seq<Cell>>, events: seq<Event>, exempt: set<nat>, n: nat, sig: nat)
    requires Run(states, events, exempt) && n <= |events| && sig < NSIG
    ensures |states[n]| == NSIG
    ensures var s := states[n][sig].slot;
      View(s, true) == s.data.primary
      <==> if WasReset(states, events, exempt, n, sig) then s.data.primary == Reset(s.data.secondary)
           else || HandlerIsFunction(s.data.primary) || HandlerIsFunction(s.data.secondary)
                || SigInfo in s.data.secondary.flags || s.data.primary == s.data.secondary
  {
    hide CellStep, WasReset;
    AlwaysSettled(states, events, exempt, n);
    assert Settled(states[n][sig].slot);
    SpentIff(states, events, exempt, n, sig);
  }

  /** The slot is written before the operating system is asked. A refused installation of the primary never shows
      to the secondary at once; one of the secondary goes unnoticed only where the operating system's own answer,
      or the same action, hides it. */
  lemma RefusedInstallIff(c: Cell, act: Action, primary: bool)
    requires Tracks(c)
    ensures Transparent(Cell(Slot(WithSaved(c.slot.data, act, primary), c.slot.os), c.plain))
       <==> primary || act == c.plain || (!HandlerIsFunction(c.slot.os) && SigInfo !in c.slot.os.flags)
  {
  }

  /** To the primary itself, its refused installation shows unless the operating system's answer hides it, or the
      action is the one it had, one-shot flag aside. */
  lemma RefusedPrimaryShowsIff(s: Slot, act: Action)
    ensures View(Slot(WithSaved(s.data, act, true), s.os), true) == View(s, true)
       <==> (act.(flags := act.flags - {ResetHand}) == s.data.primary
             || (!HandlerIsFunction(s.os) && SigInfo !in s.os.flags))
  {
  }

  /** The first break happens: a one-shot secondary handler that the operating system has reset comes back as soon
      as the primary installs anything. */
  lemma SpentHandlerReturns(act: Action, primary: Action, exempt: set<nat>)
    requires HandlerIsFunction(act) && ResetHand in act.flags && 10 !in exempt
    ensures exists states: seq<seq<Cell>> ::
      var events := [Install(10, act, false), OsDeliver(10), Install(10, primary, true)];
      && Run(states, events, exempt)
      && View(states[2][10].slot, false).handler == Default
      && View(states[3][10].slot, false) == act
  {
    var events := [Install(10, act, false), OsDeliver(10), Install(10, primary, true)];
    var s0 := seq(NSIG, _ => Cell(Slot(SigData(ZEROED, ZEROED), ZEROED), ZEROED));
    var s1 := s0[10 := CellStep(s0[10], events[0], exempt)];
    var s2 := s1[10 := CellStep(s1[10], events[1], exempt)];
    var s3 := s2[10 := CellStep(s2[10], events[2], exempt)];
    var states := [s0, s1, s2, s3];
    assert Run(states, events, exempt);
  }
}

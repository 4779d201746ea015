/**
 The byte counters of the method dictionary against the memory its entries really hold, over every run of
 insertions and retrievals, including insertions that run out of memory half way.
 */
module MethodAccounting {
  import opened Options
  import opened Words
  import opened MethodDictionary

  /** A locked operation; the flags say whether adding to the hash table, each string copy and each removal succeed. */
  datatype Op =
    | Insert(key: Key, given: Entry, addSucceeds: bool, copySucceeds: seq<bool>)
    | Fetch(keys: seq<Key>, nameBytes: nat, removeSucceeds: seq<bool>)

  /** The dictionary's fixed parameters: properties of an entry, bytes of an entry without its strings. */
  datatype Shape = Shape(numProperties: nat, size: nat)

  /** A caller passes one value per property and only strings of its own. */
  predicate Legal(s: Shape, op: Op) {
    match op
    case Insert(_, given, _, copySucceeds) =>
      |given| == |copySucceeds| == s.numProperties && forall i :: 0 <= i < |given| ==> !given[i].Owned?
    case Fetch(keys, _, removeSucceeds) => |keys| == |removeSucceeds|
  }

  ghost predicate Run(s: Shape, ops: seq<Op>) {
    forall i :: 0 <= i < |ops| ==> Legal(s, ops[i])
  }

  ghost predicate Uniform(s: Shape, t: Table) {
    forall k :: k in t ==> |t[k]| == s.numProperties
  }

  function Applied(s: Shape, d: Dictionary, op: Op): Dictionary
    requires Uniform(s, d.table) && Legal(s, op)
  {
    match op
    case Insert(key, given, addSucceeds, copySucceeds) =>
      Inserted(d, s.size, key, given, addSucceeds, copySucceeds)
    case Fetch(keys, nameBytes, removeSucceeds) =>
      var y := Yielded(d.table, keys, nameBytes, s.size, removeSucceeds);
      d.(table := y.table, currentBytes := UInt64(d.currentBytes - y.released))
  }

  /** The dictionary after a run from the empty one. */
  ghost function After(s: Shape, ops: seq<Op>): (d: Dictionary)
    requires Run(s, ops)
    ensures Uniform(s, d.table) && 0 <= d.currentBytes < TWO_64
  {
    if ops == [] then Dictionary(map[], 0, 0, 0)
    else
      var before := After(s, ops[..|ops| - 1]);
      AppliedUniform(s, before, ops[|ops| - 1]);
      Applied(s, before, ops[|ops| - 1])
  }

  lemma AppliedUniform(s: Shape, d: Dictionary, op: Op)
    requires Uniform(s, d.table) && Legal(s, op) && 0 <= d.currentBytes < TWO_64
    ensures Uniform(s, Applied(s, d, op).table) && 0 <= Applied(s, d, op).currentBytes < TWO_64
  {
    hide NameBytes, Duplicated, Reused, Yielded;
    if op.Fetch? {
      YieldUniform(s, d.table, op);
    }
  }

  lemma YieldUniform(s: Shape, t: Table, op: Op)
    requires Uniform(s, t) && Legal(s, op) && op.Fetch?
    ensures Uniform(s, Yielded(t, op.keys, op.nameBytes, s.size, op.removeSucceeds).table)
  {
    hide Collect, Released, FirstStuck, NameBytes;
    var b := FirstStuck(Collect(t, op.keys, op.nameBytes, false).outcomes, op.removeSucceeds);
    TableShrinks(t, op.keys, op.nameBytes, false);
    TableShrinks(t, op.keys[..b], op.nameBytes, false);
    if b < |op.keys| {
      RetrievedInTable(t, op.keys, op.nameBytes, false, b);
      var key := op.keys[b];
      assert key in t && |t[key]| == s.numProperties;
      var front := Collect(t, op.keys[..b], op.nameBytes, false);
      assert Uniform(s, front.table);
      StillUniform(s, front.table, key, Cleaned(t[key]));
      assert Yielded(t, op.keys, op.nameBytes, s.size, op.removeSucceeds).table == front.table[key := Cleaned(t[key])];
    } else {
      assert Uniform(s, Collect(t, op.keys, op.nameBytes, false).table);
    }
  }

  lemma StillUniform(s: Shape, t: Table, key: Key, e: Entry)
    requires Uniform(s, t) && |e| == s.numProperties
    ensures Uniform(s, t[key := e])
  {
  }

  // ---- the memory that is really held ----

  /** The bytes of all entries and of the strings they point at. */
  ghost function Held(t: Table, size: nat): nat
    decreases |t|
  {
    if t.Items == {} then 0
    else
      var item :| item in t.Items;
      size + NameBytes(item.1) + Held(t - {item.0}, size)
  }

  lemma HeldUnfold(t: Table, size: nat) returns (j: Key)
    requires t.Items != {}
    ensures j in t && Held(t, size) == size + NameBytes(t[j]) + Held(t - {j}, size)
  {
    hide NameBytes;
    var item :| item in t.Items && Held(t, size) == size + NameBytes(item.1) + Held(t - {item.0}, size);
    j := item.0;
  }

  lemma {:induction false} HeldRemove(t: Table, size: nat, k: Key)
    requires k in t
    ensures Held(t, size) == size + NameBytes(t[k]) + Held(t - {k}, size)
    decreases |t|
  {
    hide NameBytes, Held;
    assert (k, t[k]) in t.Items;
    var j := HeldUnfold(t, size);
    if j != k {
      HeldRemove(t - {j}, size, k);
      HeldRemove(t - {k}, size, j);
      assert (t - {j}) - {k} == (t - {k}) - {j};
    }
  }

  lemma HeldUpdate(t: Table, size: nat, k: Key, e: Entry)
    ensures Held(t[k := e], size) - size - NameBytes(e)
        == if k in t then Held(t, size) - size - NameBytes(t[k]) else Held(t, size)
  {
    hide Held, NameBytes;
    var u := t[k := e];
    HeldRemove(u, size, k);
    if k in t {
      HeldRemove(t, size, k);
      assert u - {k} == t - {k};
    } else {
      assert u - {k} == t;
    }
  }

  lemma {:induction false} ReleasedCons(o: Outcome, rest: seq<Outcome>, size: nat, n: nat)
    requires n <= |rest|
    ensures Released([o] + rest, size, n + 1) == Size(o) + (if o.Retrieved? then size else 0) + Released(rest, size, n)
  {
    hide Size;
    if n > 0 {
      ReleasedCons(o, rest, size, n - 1);
    } else {
      assert Released([o] + rest, size, 0) == 0;
    }
  }

  /** A retrieval gives back exactly what the entries it deletes held. */
  lemma {:induction false} RetrievalReleases(t: Table, keys: seq<Key>, available: nat, retrying: bool, size: nat)
    ensures var c := Collect(t, keys, available, retrying);
            Held(c.table, size) + Released(c.outcomes, size, |c.outcomes|) == Held(t, size)
  {
    hide Held, NameBytes, Collect, NextOutcome, Size, Released;
    if keys == [] {
      NothingReleased(t, available, retrying, size);
    } else {
      var o := NextOutcome(t, keys[0], available, retrying);
      NextFits(t, keys[0], available, retrying);
      Unfolded(t, keys, available, retrying);
      var now, left := NextTable(t, keys[0], o), available - Size(o);
      var rest := Collect(now, keys[1..], left, retrying || o.Deferred?);
      RetrievalReleases(now, keys[1..], left, retrying || o.Deferred?, size);
      ReleasedCons(o, rest.outcomes, size, |rest.outcomes|);
      if o.Retrieved? {
        HeldRemove(t, size, keys[0]);
      }
    }
  }

  lemma NothingReleased(t: Table, available: nat, retrying: bool, size: nat)
    ensures var c := Collect(t, [], available, retrying); c.table == t && Released(c.outcomes, size, |c.outcomes|) == 0
  {
  }

  /** So does one that stops at an entry it cannot remove. */
  lemma YieldReleases(t: Table, keys: seq<Key>, nameBytes: nat, size: nat, removeSucceeds: seq<bool>)
    requires |removeSucceeds| == |keys|
    ensures var y := Yielded(t, keys, nameBytes, size, removeSucceeds);
            Held(y.table, size) + y.released == Held(t, size)
  {
    hide Held, Collect, Released, FirstStuck, NameBytes, Cleaned;
    var c := Collect(t, keys, nameBytes, false);
    var b := FirstStuck(c.outcomes, removeSucceeds);
    if b == |keys| {
      RetrievalReleases(t, keys, nameBytes, false, size);
    } else {
      var front := Collect(t, keys[..b], nameBytes, false);
      RetrievalReleases(t, keys[..b], nameBytes, false, size);
      RetrievedInTable(t, keys, nameBytes, false, b);
      RetrievedStillThere(t, keys, nameBytes, b);
      HeldUpdate(front.table, size, keys[b], Cleaned(t[keys[b]]));
      CleanedHoldsNothing(t[keys[b]]);
    }
  }

  lemma RetrievedStillThere(t: Table, keys: seq<Key>, nameBytes: nat, b: nat)
    requires b < |keys| && Collect(t, keys, nameBytes, false).outcomes[b].Retrieved?
    ensures var front := Collect(t, keys[..b], nameBytes, false);
            keys[b] in front.table && keys[b] in t && front.table[keys[b]] == t[keys[b]]
  {
    hide Collect, Used, FirstDeferred, NameBytes, Strings;
    CollectPrefix(t, keys, nameBytes, b + 1);
    CollectSnoc(t, keys[..b], keys[b], nameBytes, false);
    assert keys[..b + 1] == keys[..b] + [keys[b]];
    TableShrinks(t, keys[..b], nameBytes, false);
  }

  lemma {:induction false} CleanedHoldsNothing(e: Entry)
    ensures NameBytes(Cleaned(e)) == 0
  {
    if e != [] {
      var n := |e| - 1;
      CleanedHoldsNothing(e[..n]);
      StringsOfPrefix(Cleaned(e), n);
      assert Cleaned(e)[..n] == Cleaned(e[..n]);
    }
  }

  // ---- drift ----

  /** How far one operation moves the counter away from the memory held. Replacing an entry never subtracts
      its old strings; an entry that looks unchanged is counted as new again; a copy that fails leaves an
      uncounted entry behind. */
  function Drift(s: Shape, t: Table, op: Op): int
    requires Uniform(s, t) && Legal(s, op)
  {
    if op.Fetch? || !op.addSucceeds then 0
    else
      var copied := FirstFailure(op.given, op.copySucceeds) == |op.given|;
      var stored := Stored(t, op.key, op.given, op.copySucceeds);
      if op.key !in t then (if copied then 0 else 0 - (s.size + NameBytes(stored)))
      else if copied then NameBytes(t[op.key]) + (if Reused(t, op.key, op.given) then 0 else s.size)
      else NameBytes(t[op.key]) - NameBytes(stored)
  }

  ghost function TotalDrift(s: Shape, ops: seq<Op>): int
    requires Run(s, ops)
  {
    if ops == [] then 0
    else TotalDrift(s, ops[..|ops| - 1]) + Drift(s, After(s, ops[..|ops| - 1]).table, ops[|ops| - 1])
  }

  lemma NewKeyIsNotReused(t: Table, key: Key, given: Entry)
    requires key !in t && forall i :: 0 <= i < |given| ==> !given[i].Owned?
    ensures !Reused(t, key, given)
  {
  }

  /** One operation moves the counter by what the memory held changes, plus its drift. */
  lemma OperationDrift(s: Shape, d: Dictionary, op: Op, balance: int)
    requires Uniform(s, d.table) && Legal(s, op)
    requires d.currentBytes == UInt64(Held(d.table, s.size) + balance)
    ensures Applied(s, d, op).currentBytes
         == UInt64(Held(Applied(s, d, op).table, s.size) + balance + Drift(s, d.table, op))
  {
    match op
    case Insert(key, given, addSucceeds, copySucceeds) =>
      if addSucceeds {
        InsertionDrift(s, d, op, balance);
      }
    case Fetch(_, _, _) =>
      RetrievalDrift(s, d, op, balance);
  }

  lemma InsertionDrift(s: Shape, d: Dictionary, op: Op, balance: int)
    requires Uniform(s, d.table) && Legal(s, op) && op.Insert? && op.addSucceeds
    requires d.currentBytes == UInt64(Held(d.table, s.size) + balance)
    ensures Applied(s, d, op).currentBytes
         == UInt64(Held(Applied(s, d, op).table, s.size) + balance + Drift(s, d.table, op))
  {
    hide Held, NameBytes, Duplicated, Stored, Reused, UInt64;
    var stored := Stored(d.table, op.key, op.given, op.copySucceeds);
    HeldUpdate(d.table, s.size, op.key, stored);
    if op.key !in d.table {
      NewKeyIsNotReused(d.table, op.key, op.given);
    }
    var more := (if Reused(d.table, op.key, op.given) then 0 else s.size) + NameBytes(stored);
    UInt64Absorbs(Held(d.table, s.size) + balance, more);
  }

  lemma RetrievalDrift(s: Shape, d: Dictionary, op: Op, balance: int)
    requires Uniform(s, d.table) && Legal(s, op) && op.Fetch?
    requires d.currentBytes == UInt64(Held(d.table, s.size) + balance)
    ensures var now := Applied(s, d, op); now.currentBytes == UInt64(Held(now.table, s.size) + balance)
  {
    hide Held, Yielded, UInt64;
    YieldReleases(d.table, op.keys, op.nameBytes, s.size, op.removeSucceeds);
    UInt64Absorbs(Held(d.table, s.size) + balance,
      0 - Yielded(d.table, op.keys, op.nameBytes, s.size, op.removeSucceeds).released);
  }

  /** In every run the counter is the memory held plus the drift of the run, modulo the word. */
  lemma {:induction false} CounterTracksHeld(s: Shape, ops: seq<Op>)
    requires Run(s, ops)
    ensures After(s, ops).currentBytes == UInt64(Held(After(s, ops).table, s.size) + TotalDrift(s, ops))
  {
    hide Held, Applied, Drift;
    if ops == [] {
      NothingHeld(s);
    } else {
      var n := |ops| - 1;
      CounterTracksHeld(s, ops[..n]);
      OperationDrift(s, After(s, ops[..n]), ops[n], TotalDrift(s, ops[..n]));
    }
  }

  lemma NothingHeld(s: Shape)
    ensures After(s, []) == Dictionary(map[], 0, 0, 0)
    ensures Held(map[], s.size) == 0
  {
  }

  // ---- when the counter is a bound ----

  /** The insertion of a new key whose strings could not all be copied. */
  predicate LeavesUncounted(t: Table, op: Op)
    requires op.Insert? ==> |op.given| == |op.copySucceeds|
  {
    op.Insert? && op.addSucceeds && op.key !in t && FirstFailure(op.given, op.copySucceeds) < |op.given|
  }

  predicate Reinserts(t: Table, op: Op) {
    op.Insert? && op.addSucceeds && op.key in t
  }

  lemma {:induction false} PackedShrinks(e: Entry, f: Entry)
    requires |e| == |f| && forall i :: 0 <= i < |e| ==> e[i] == f[i] || e[i] == Null
    ensures NameBytes(e) <= NameBytes(f)
  {
    if e != [] {
      var n := |e| - 1;
      PackedShrinks(e[..n], f[..n]);
      StringsOfPrefix(e, n);
      StringsOfPrefix(f, n);
    }
  }

  /** Only the insertion of a new key that runs out of memory makes the counter fall behind; only inserting a
      key that is present makes it run ahead. */
  lemma DriftSign(s: Shape, t: Table, op: Op)
    requires Uniform(s, t) && Legal(s, op)
    ensures !LeavesUncounted(t, op) ==> Drift(s, t, op) >= 0
    ensures !LeavesUncounted(t, op) && !Reinserts(t, op) ==> Drift(s, t, op) == 0
    ensures LeavesUncounted(t, op) ==> Drift(s, t, op) <= 0 - s.size
  {
    hide NameBytes;
    if Reinserts(t, op) && FirstFailure(op.given, op.copySucceeds) < |op.given| {
      var stored := Stored(t, op.key, op.given, op.copySucceeds);
      assert forall i :: 0 <= i < |stored| ==> stored[i] == t[op.key][i] || stored[i] == Null;
      PackedShrinks(stored, t[op.key]);
    }
  }

  /** No insertion of a new key in the run fails in a copy. */
  ghost predicate AllCounted(s: Shape, ops: seq<Op>)
    requires Run(s, ops)
  {
    forall n :: 0 <= n < |ops| ==> !LeavesUncounted(After(s, ops[..n]).table, ops[n])
  }

  ghost predicate NeverReinserts(s: Shape, ops: seq<Op>)
    requires Run(s, ops)
  {
    forall n :: 0 <= n < |ops| ==> !Reinserts(After(s, ops[..n]).table, ops[n])
  }

  lemma {:induction false} DriftOfRun(s: Shape, ops: seq<Op>)
    requires Run(s, ops) && AllCounted(s, ops)
    ensures TotalDrift(s, ops) >= 0
    ensures NeverReinserts(s, ops) ==> TotalDrift(s, ops) == 0
  {
    hide Drift, Applied, After, LeavesUncounted;
    if ops != [] {
      var n := |ops| - 1;
      var front := ops[..n];
      assert forall m :: 0 <= m < n ==> front[..m] == ops[..m] && front[m] == ops[m];
      assert !LeavesUncounted(After(s, front).table, ops[n]);
      assert AllCounted(s, front);
      DriftOfRun(s, front);
      DriftSign(s, After(s, front).table, ops[n]);
      if NeverReinserts(s, ops) {
        assert NeverReinserts(s, front);
      }
    }
  }

  /** Nothing in the run so far grows past what a word counts. */
  ghost predicate Fits(s: Shape, ops: seq<Op>)
    requires Run(s, ops)
  {
    forall n :: 0 <= n <= |ops| ==> Held(After(s, ops[..n]).table, s.size) + TotalDrift(s, ops[..n]) < TWO_64
  }

  ghost predicate Covers(s: Shape, ops: seq<Op>)
    requires Run(s, ops)
  {
    forall n :: 0 <= n <= |ops| ==> Held(After(s, ops[..n]).table, s.size) <= After(s, ops[..n]).currentBytes
  }

  ghost predicate NeverBehind(s: Shape, ops: seq<Op>)
    requires Run(s, ops)
  {
    forall n :: 0 <= n <= |ops| ==> TotalDrift(s, ops[..n]) >= 0
  }

  /** While the counter has not fallen behind, it is exactly the memory held plus the drift. */
  lemma ExactWhileAhead(s: Shape, ops: seq<Op>)
    requires Run(s, ops) && TotalDrift(s, ops) >= 0
    requires Held(After(s, ops).table, s.size) + TotalDrift(s, ops) < TWO_64
    ensures After(s, ops).currentBytes == Held(After(s, ops).table, s.size) + TotalDrift(s, ops)
  {
    hide Held, After, TotalDrift;
    CounterTracksHeld(s, ops);
  }

  /** The counter bounds the memory held in every state of a run exactly when the drift never goes negative. */
  lemma CounterCovers(s: Shape, ops: seq<Op>)
    requires Run(s, ops) && Fits(s, ops)
    ensures Covers(s, ops) <==> NeverBehind(s, ops)
  {
    hide Held, After, TotalDrift;
    if NeverBehind(s, ops) {
      forall n | 0 <= n <= |ops|
        ensures Held(After(s, ops[..n]).table, s.size) <= After(s, ops[..n]).currentBytes
      {
        ExactWhileAhead(s, ops[..n]);
      }
    } else {
      var n :| 0 <= n <= |ops| && TotalDrift(s, ops[..n]) < 0;
      FallsBehind(s, ops, n);
    }
  }

  /** The first operation that makes the counter fall behind leaves it below the memory held. */
  lemma {:induction false} FallsBehind(s: Shape, ops: seq<Op>, n: nat)
    requires Run(s, ops) && Fits(s, ops)
    requires n <= |ops| && TotalDrift(s, ops[..n]) < 0
    ensures !Covers(s, ops)
  {
    hide Held, After, Drift, Applied, LeavesUncounted;
    if n > 0 && TotalDrift(s, ops[..n - 1]) < 0 {
      FallsBehind(s, ops, n - 1);
    } else if n > 0 {
      BehindAtOnce(s, ops, n);
      assert Held(After(s, ops[..n]).table, s.size) > After(s, ops[..n]).currentBytes;
    }
  }

  lemma BehindAtOnce(s: Shape, ops: seq<Op>, n: nat)
    requires Run(s, ops) && Fits(s, ops)
    requires 0 < n <= |ops| && TotalDrift(s, ops[..n - 1]) >= 0 > TotalDrift(s, ops[..n])
    ensures Held(After(s, ops[..n]).table, s.size) > After(s, ops[..n]).currentBytes
  {
    hide Held, Drift, Applied;
    var front, op := ops[..n - 1], ops[n - 1];
    assert ops[..n][..n - 1] == front && ops[..n][n - 1] == op;
    var d := After(s, front);
    ExactWhileAhead(s, front);
    DriftSign(s, d.table, op);
    assert LeavesUncounted(d.table, op);
    UncountedStep(s, d, op);
  }

  lemma UncountedStep(s: Shape, d: Dictionary, op: Op)
    requires Uniform(s, d.table) && Legal(s, op) && LeavesUncounted(d.table, op)
    ensures Applied(s, d, op).currentBytes == d.currentBytes
    ensures Held(Applied(s, d, op).table, s.size) == Held(d.table, s.size) - Drift(s, d.table, op)
  {
    hide Held, NameBytes, Stored;
    HeldUpdate(d.table, s.size, op.key, Stored(d.table, op.key, op.given, op.copySucceeds));
  }

  // ---- when a retrieval wraps ----

  /** The retrieval gives back more bytes than the counter holds, so that one of its subtractions wraps. */
  ghost predicate Overdraws(s: Shape, d: Dictionary, op: Op) {
    op.Fetch? && |op.keys| == |op.removeSucceeds| && d.currentBytes < ReleasedBy(s, d, op)
  }

  ghost function ReleasedBy(s: Shape, d: Dictionary, op: Op): nat
    requires op.Fetch? && |op.keys| == |op.removeSucceeds|
  {
    Yielded(d.table, op.keys, op.nameBytes, s.size, op.removeSucceeds).released
  }

  ghost predicate NeverOverdraws(s: Shape, ops: seq<Op>, n: nat)
    requires Run(s, ops) && n <= |ops|
  {
    forall k :: 0 <= k < n ==> !Overdraws(s, After(s, ops[..k]), ops[k])
  }

  /** What a retrieval does to the counter and to the mark. */
  lemma RetrievalStep(s: Shape, d: Dictionary, op: Op)
    requires Uniform(s, d.table) && Legal(s, op) && op.Fetch? && 0 <= d.currentBytes < TWO_64
    ensures var now := Applied(s, d, op);
      && now.maxBytes == d.maxBytes && now.maxEntries == d.maxEntries
      && ReleasedBy(s, d, op) <= Held(d.table, s.size)
      && (!Overdraws(s, d, op) ==> now.currentBytes == d.currentBytes - ReleasedBy(s, d, op))
      && (Overdraws(s, d, op) && Held(d.table, s.size) < TWO_64 ==>
            now.currentBytes == d.currentBytes - ReleasedBy(s, d, op) + TWO_64)
  {
    hide Held, Yielded, UInt64;
    YieldReleases(d.table, op.keys, op.nameBytes, s.size, op.removeSucceeds);
    WrapOnce(d.currentBytes - ReleasedBy(s, d, op));
  }

  lemma WrapOnce(x: int)
    requires x < TWO_64
    ensures 0 <= x ==> UInt64(x) == x
    ensures -TWO_64 < x < 0 ==> UInt64(x) == x + TWO_64
  {
  }

  /** While the counter covers the memory held, no retrieval overdraws it. */
  lemma CoveredNeverOverdraws(s: Shape, ops: seq<Op>)
    requires Run(s, ops) && Covers(s, ops)
    ensures NeverOverdraws(s, ops, |ops|)
  {
    hide Held, After, Applied, Overdraws;
    forall k | 0 <= k < |ops|
      ensures !Overdraws(s, After(s, ops[..k]), ops[k])
    {
      var d := After(s, ops[..k]);
      assert Held(d.table, s.size) <= d.currentBytes;
      assert Legal(s, ops[k]);
      NoOverdraft(s, d, ops[k]);
    }
  }

  lemma NoOverdraft(s: Shape, d: Dictionary, op: Op)
    requires Uniform(s, d.table) && Legal(s, op) && 0 <= d.currentBytes < TWO_64
        && Held(d.table, s.size) <= d.currentBytes
    ensures !Overdraws(s, d, op)
  {
    hide Held, Applied;
    if op.Fetch? {
      RetrievalStep(s, d, op);
    }
  }

  /** In runs without an uncounted entry the counter covers the memory held and no subtraction wraps; the counter
      is exact when moreover no present key is inserted again. */
  lemma CountedRuns(s: Shape, ops: seq<Op>)
    requires Run(s, ops) && Fits(s, ops) && AllCounted(s, ops)
    ensures Covers(s, ops) && NeverBehind(s, ops)
    ensures NeverOverdraws(s, ops, |ops|)
    ensures NeverReinserts(s, ops) ==> After(s, ops).currentBytes == Held(After(s, ops).table, s.size)
  {
    hide Held, After, TotalDrift, LeavesUncounted, Reinserts, Overdraws;
    forall n | 0 <= n <= |ops|
      ensures TotalDrift(s, ops[..n]) >= 0
    {
      var front := ops[..n];
      assert forall m :: 0 <= m < n ==> front[..m] == ops[..m] && front[m] == ops[m];
      DriftOfRun(s, front);
    }
    CounterCovers(s, ops);
    CoveredNeverOverdraws(s, ops);
    assert ops[..|ops|] == ops;
    DriftOfRun(s, ops);
    ExactWhileAhead(s, ops);
  }

  // ---- the high-water mark ----

  /** The high-water mark is the largest value the counter had, with the number of entries at that point. */
  ghost predicate HighWater(s: Shape, ops: seq<Op>)
    requires Run(s, ops)
  {
    && (forall n :: 0 <= n <= |ops| ==> After(s, ops[..n]).currentBytes <= After(s, ops).maxBytes)
    && exists n :: 0 <= n <= |ops| && Peak(s, ops, n)
  }

  ghost predicate Peak(s: Shape, ops: seq<Op>, n: nat)
    requires Run(s, ops) && n <= |ops|
  {
    var d, peak := After(s, ops), After(s, ops[..n]);
    peak.currentBytes == d.maxBytes && |peak.table| == d.maxEntries
  }

  /** An operation that does not overdraw leaves the mark above the counter, or raises it to the counter. */
  lemma MarkStep(s: Shape, d: Dictionary, op: Op)
    requires Uniform(s, d.table) && Legal(s, op) && 0 <= d.currentBytes < TWO_64
    requires d.currentBytes <= d.maxBytes && !Overdraws(s, d, op)
    ensures var now := Applied(s, d, op);
            || (now.maxBytes == d.maxBytes && now.maxEntries == d.maxEntries && now.currentBytes <= d.maxBytes)
            || (d.maxBytes < now.maxBytes == now.currentBytes && now.maxEntries == |now.table|)
  {
    hide Held, NameBytes, Stored, Reused, Yielded, Overdraws;
    if op.Fetch? {
      RetrievalStep(s, d, op);
    }
  }

  /** While no retrieval overdraws, the mark is the largest value the counter had. */
  lemma {:induction false} HighWaterMark(s: Shape, ops: seq<Op>)
    requires Run(s, ops) && NeverOverdraws(s, ops, |ops|)
    ensures HighWater(s, ops)
  {
    hide After, Applied, Overdraws, Legal;
    if ops == [] {
      NothingHeld(s);
      assert ops[..0] == [];
      assert Peak(s, ops, 0);
    } else {
      var n := |ops| - 1;
      var front := ops[..n];
      assert forall m :: 0 <= m <= n ==> front[..m] == ops[..m];
      assert forall m :: 0 <= m < n ==> front[m] == ops[m];
      HighWaterMark(s, front);
      assert front[..n] == front && ops[..n + 1] == ops;
      LastOperation(s, ops);
      MarkStep(s, After(s, front), ops[n]);
      HighWaterStep(s, ops);
    }
  }

  lemma LastOperation(s: Shape, ops: seq<Op>)
    requires Run(s, ops) && ops != []
    ensures var d := After(s, ops[..|ops| - 1]);
            Uniform(s, d.table) && Legal(s, ops[|ops| - 1]) && After(s, ops) == Applied(s, d, ops[|ops| - 1])
  {
    hide Applied;
  }

  lemma HighWaterStep(s: Shape, ops: seq<Op>)
    requires Run(s, ops) && ops != [] && HighWater(s, ops[..|ops| - 1])
    requires var was, now := After(s, ops[..|ops| - 1]), After(s, ops);
             || (now.maxBytes == was.maxBytes && now.maxEntries == was.maxEntries && now.currentBytes <= was.maxBytes)
             || (was.maxBytes < now.maxBytes == now.currentBytes && now.maxEntries == |now.table|)
    ensures HighWater(s, ops)
  {
    hide After, Peak, Run;
    BelowMark(s, ops);
    SomePeak(s, ops);
  }

  lemma BelowMark(s: Shape, ops: seq<Op>)
    requires Run(s, ops) && ops != [] && HighWater(s, ops[..|ops| - 1])
    requires After(s, ops[..|ops| - 1]).maxBytes <= After(s, ops).maxBytes
        && After(s, ops).currentBytes <= After(s, ops).maxBytes
    ensures forall n :: 0 <= n <= |ops| ==> After(s, ops[..n]).currentBytes <= After(s, ops).maxBytes
  {
    hide After, Peak, Legal;
    forall n | 0 <= n <= |ops|
      ensures After(s, ops[..n]).currentBytes <= After(s, ops).maxBytes
    {
      if n < |ops| {
        assert ops[..|ops| - 1][..n] == ops[..n];
      } else {
        assert ops[..n] == ops;
      }
    }
  }

  lemma SomePeak(s: Shape, ops: seq<Op>)
    requires Run(s, ops) && ops != [] && HighWater(s, ops[..|ops| - 1])
    requires var was, now := After(s, ops[..|ops| - 1]), After(s, ops);
             (now.maxBytes == was.maxBytes && now.maxEntries == was.maxEntries)
             || (now.maxBytes == now.currentBytes && now.maxEntries == |now.table|)
    ensures exists n :: 0 <= n <= |ops| && Peak(s, ops, n)
  {
    hide After, Peak, Legal;
    var front := ops[..|ops| - 1];
    if After(s, ops).maxBytes == After(s, front).maxBytes && After(s, ops).maxEntries == After(s, front).maxEntries {
      var m :| 0 <= m <= |front| && Peak(s, front, m);
      PeakStays(s, ops, m);
    } else {
      LastIsPeak(s, ops);
    }
  }

  lemma PeakStays(s: Shape, ops: seq<Op>, m: nat)
    requires Run(s, ops) && m < |ops| && Peak(s, ops[..|ops| - 1], m)
    requires After(s, ops).maxBytes == After(s, ops[..|ops| - 1]).maxBytes
    requires After(s, ops).maxEntries == After(s, ops[..|ops| - 1]).maxEntries
    ensures Peak(s, ops, m)
  {
    hide After;
    assert ops[..|ops| - 1][..m] == ops[..m];
  }

  lemma LastIsPeak(s: Shape, ops: seq<Op>)
    requires Run(s, ops) && After(s, ops).maxBytes == After(s, ops).currentBytes
        && After(s, ops).maxEntries == |After(s, ops).table|
    ensures Peak(s, ops, |ops|)
  {
    hide After;
    assert ops[..|ops|] == ops;
  }

  ghost predicate MarkCovers(s: Shape, ops: seq<Op>)
    requires Run(s, ops)
  {
    forall n :: 0 <= n <= |ops| ==> After(s, ops[..n]).currentBytes <= After(s, ops[..n]).maxBytes
  }

  /** In every state the memory held and the mark together are less than what a word counts. */
  ghost predicate Room(s: Shape, ops: seq<Op>)
    requires Run(s, ops)
  {
    forall n :: 0 <= n <= |ops| ==> Held(After(s, ops[..n]).table, s.size) + After(s, ops[..n]).maxBytes < TWO_64
  }

  /** The mark is at least the counter in every state of a run if and only if no retrieval of the run gives back
      more than the counter holds. */
  lemma MarkCoversIff(s: Shape, ops: seq<Op>)
    requires Run(s, ops) && Room(s, ops)
    ensures MarkCovers(s, ops) <==> NeverOverdraws(s, ops, |ops|)
  {
    hide Held, After, Applied, Overdraws, Legal;
    if NeverOverdraws(s, ops, |ops|) {
      forall n | 0 <= n <= |ops|
        ensures After(s, ops[..n]).currentBytes <= After(s, ops[..n]).maxBytes
      {
        var front := ops[..n];
        assert front[..n] == front && forall m :: 0 <= m < n ==> front[..m] == ops[..m] && front[m] == ops[m];
        HighWaterMark(s, front);
      }
    } else {
      var k :| 0 <= k < |ops| && Overdraws(s, After(s, ops[..k]), ops[k]);
      OverdraftShows(s, ops, k);
    }
  }

  lemma OverdraftShows(s: Shape, ops: seq<Op>, k: nat)
    requires Run(s, ops) && Room(s, ops) && k < |ops| && Overdraws(s, After(s, ops[..k]), ops[k])
    ensures !MarkCovers(s, ops)
  {
    hide Held, After, Applied, Legal;
    var front := ops[..k + 1];
    assert front[..k] == ops[..k] && front[k] == ops[k];
    LastOperation(s, front);
    var d := After(s, ops[..k]);
    assert Held(d.table, s.size) + d.maxBytes < TWO_64;
    RetrievalStep(s, d, ops[k]);
    assert After(s, front).currentBytes > After(s, front).maxBytes;
  }

  /** The bound fails once a new key could not be copied: its uncounted entry is later subtracted all the same,
      and the counter wraps past every high-water mark. */
  lemma UncountedEntryWraps(s: Shape, key: Key)
    requires s.numProperties == 1 && 0 < s.size < TWO_64
    ensures var ops := [Insert(key, [Callers(1, "m")], true, [false]), Fetch([key], 0, [true])];
            && Run(s, ops)
            && After(s, ops) == Dictionary(map[], TWO_64 - s.size, 0, 0)
            && Held(After(s, ops[..1]).table, s.size) == s.size > After(s, ops[..1]).currentBytes
  {
    hide After, Applied, Held, Legal, Stored, Uniform;
    var given: Entry := [Callers(1, "m")];
    var ops := [Insert(key, given, true, [false]), Fetch([key], 0, [true])];
    WitnessLegal(s, key);
    var first := ops[..1];
    assert first == [ops[0]] && first[..0] == [] && ops[..1] == first;
    NothingHeld(s);
    LastOperation(s, first);
    LastOperation(s, ops);
    FailedInsertion(s, key, After(s, []));
    LonelyRetrieval(s, key, After(s, first));
  }

  lemma WitnessLegal(s: Shape, key: Key)
    requires s.numProperties == 1
    ensures Run(s, [Insert(key, [Callers(1, "m")], true, [false]), Fetch([key], 0, [true])])
    ensures Run(s, [Insert(key, [Callers(1, "m")], true, [false])]) && Run(s, [])
  {
  }

  lemma FailedInsertion(s: Shape, key: Key, d: Dictionary)
    requires s.numProperties == 1 && d == Dictionary(map[], 0, 0, 0)
    ensures var op := Insert(key, [Callers(1, "m")], true, [false]);
            Uniform(s, d.table) && Legal(s, op) && Applied(s, d, op) == Dictionary(map[key := [Null]], 0, 0, 0)
  {
    hide Stored;
    FailedFirst([Callers(1, "m")], key);
  }

  lemma LonelyRetrieval(s: Shape, key: Key, d: Dictionary)
    requires s.numProperties == 1 && 0 < s.size < TWO_64 && d == Dictionary(map[key := [Null]], 0, 0, 0)
    ensures var op := Fetch([key], 0, [true]);
            Uniform(s, d.table) && Legal(s, op) && Applied(s, d, op) == Dictionary(map[], TWO_64 - s.size, 0, 0)
    ensures Held(d.table, s.size) == s.size
  {
    hide Held, Yielded;
    NullBytes([Null]);
    HeldRemove(d.table, s.size, key);
    assert d.table - {key} == map[];
    NothingHeld(s);
    OneRetrieval(d.table, key, s.size);
    WrapOnce(0 - s.size);
  }

  lemma FailedFirst(given: Entry, key: Key)
    requires |given| == 1 && !given[0].Null? && !given[0].Owned?
    ensures FirstFailure(given, [false]) == 0
    ensures Stored(map[], key, given, [false]) == [Null]
  {
    assert given[..0] == [] && [false][..0] == [];
    NewKeyIsNotReused(map[], key, given);
  }

  lemma NullBytes(e: Entry)
    requires e == [Null]
    ensures NameBytes(e) == 0 && Strings(e) == [None]
  {
    var s: seq<Option<CString>> := [None];
    assert Strings(e) == s;
    assert s[..|s| - 1] == [];
  }

  lemma OneRetrieval(t: Table, key: Key, size: nat)
    requires t.Keys == {key} && NameBytes(t[key]) == 0
    ensures Yielded(t, [key], 0, size, [true]) == Yield(map[], size)
  {
    hide NameBytes, Packed, Strings;
    var keys: seq<Key> := [key];
    assert keys[1..] == [];
    assert t - {key} == map[];
    var c, o := Collect(t, keys, 0, false), NextOutcome(t, key, 0, false);
    NextFits(t, key, 0, false);
    assert o == Retrieved(Strings(t[key])) && Size(o) == 0;
    var rest := Collect(NextTable(t, key, o), keys[1..], 0, false);
    assert rest == Collection([], map[], 0);
    assert c.outcomes == [o] + rest.outcomes && c.table == rest.table;
    assert Released(c.outcomes, size, 0) == 0;
    assert Released(c.outcomes, size, 1) == size;
    assert FirstStuck(c.outcomes, [true]) == 1;
    assert c.table == map[];
    assert Yielded(t, keys, 0, size, [true]) == Yield(c.table, Released(c.outcomes, size, 1));
  }
}

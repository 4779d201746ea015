/**
 Whose strings the method dictionary frees. Retrieval frees the strings of the entries it yields, which is right only
 while no entry holds a pointer of a caller.
 */
module MethodOwnership {
  import opened MethodDictionary
  import opened MethodRetrieval
  import opened MethodAccounting

  /** Every string of the entry is the dictionary's own copy. */
  ghost predicate OwnsStrings(e: Entry) {
    forall i :: 0 <= i < |e| ==> !e[i].Callers?
  }

  ghost predicate OwnsAll(t: Table) {
    forall k :: k in t ==> OwnsStrings(t[k])
  }

  /** The insertion of a new key in which a string cannot be copied and there is another string behind it. */
  ghost predicate LeavesForeign(t: Table, op: Op)
    requires op.Insert? ==> |op.given| == |op.copySucceeds|
  {
    && op.Insert? && op.addSucceeds && op.key !in t
    && exists i :: FirstFailure(op.given, op.copySucceeds) < i < |op.given| && op.given[i] != Null
  }

  lemma SameAsItself(given: Entry)
    requires forall i :: 0 <= i < |given| ==> !given[i].Owned?
    ensures SamePointers(given, given)
  {
  }

  lemma StoredOwnsIff(s: Shape, t: Table, op: Op)
    requires Uniform(s, t) && Legal(s, op) && op.Insert? && op.addSucceeds
    requires op.key in t ==> OwnsStrings(t[op.key])
    ensures OwnsStrings(Stored(t, op.key, op.given, op.copySucceeds)) <==> !LeavesForeign(t, op)
  {
    hide SamePointers, FirstFailure;
    if op.key !in t {
      SameAsItself(op.given);
      var stored := Stored(t, op.key, op.given, op.copySucceeds);
      forall i | 0 <= i < |op.given|
        ensures stored[i].Callers? <==> FirstFailure(op.given, op.copySucceeds) < i && op.given[i] != Null
      {
        assert !op.given[i].Owned?;
      }
    }
  }

  lemma OwnsWithIff(t: Table, key: Key, e: Entry)
    requires OwnsAll(t)
    ensures OwnsAll(t[key := e]) <==> OwnsStrings(e)
  {
    hide OwnsStrings;
    assert t[key := e][key] == e;
  }

  lemma OwnsEach(t: Table)
    requires OwnsAll(t)
    ensures forall k :: k in t ==> OwnsStrings(t[k])
  {
  }

  lemma CleanedOwns(e: Entry)
    ensures OwnsStrings(Cleaned(e))
  {
  }

  lemma OnlyAdditions(t: Table, op: Op)
    requires op.Fetch? || (!op.addSucceeds && |op.given| == |op.copySucceeds|)
    ensures !LeavesForeign(t, op)
  {
  }

  lemma CollectOwns(t: Table, keys: seq<Key>, nameBytes: nat)
    requires OwnsAll(t)
    ensures OwnsAll(Collect(t, keys, nameBytes, false).table)
  {
    hide Collect, NameBytes;
    TableShrinks(t, keys, nameBytes, false);
  }

  lemma YieldOwns(t: Table, op: Op, size: nat)
    requires op.Fetch? && |op.keys| == |op.removeSucceeds| && OwnsAll(t)
    ensures OwnsAll(Yielded(t, op.keys, op.nameBytes, size, op.removeSucceeds).table)
  {
    hide Collect, Released, FirstStuck, NameBytes, OwnsStrings, OwnsAll, Cleaned;
    var b := FirstStuck(Collect(t, op.keys, op.nameBytes, false).outcomes, op.removeSucceeds);
    CollectOwns(t, op.keys, op.nameBytes);
    CollectOwns(t, op.keys[..b], op.nameBytes);
    if b < |op.keys| {
      RetrievedInTable(t, op.keys, op.nameBytes, false, b);
      var front := Collect(t, op.keys[..b], op.nameBytes, false);
      CleanedOwns(t[op.keys[b]]);
      OwnsWithIff(front.table, op.keys[b], Cleaned(t[op.keys[b]]));
      assert Yielded(t, op.keys, op.nameBytes, size, op.removeSucceeds).table
          == front.table[op.keys[b] := Cleaned(t[op.keys[b]])];
    }
  }

  /** One operation keeps every string the dictionary's own exactly when it is not such an insertion. */
  lemma StepOwnsIff(s: Shape, d: Dictionary, op: Op)
    requires Uniform(s, d.table) && Legal(s, op) && OwnsAll(d.table)
    ensures OwnsAll(Applied(s, d, op).table) <==> !LeavesForeign(d.table, op)
  {
    hide Stored, Yielded, LeavesForeign, OwnsStrings, OwnsAll, NameBytes, Reused, FirstFailure;
    assert op.Insert? && op.key in d.table ==> OwnsStrings(d.table[op.key]) by {
      OwnsEach(d.table);
    }
    match op
    case Insert(key, given, addSucceeds, copySucceeds) =>
      if addSucceeds {
        StoredOwnsIff(s, d.table, op);
        OwnsWithIff(d.table, key, Stored(d.table, key, given, copySucceeds));
      } else {
        OnlyAdditions(d.table, op);
      }
    case Fetch(keys, nameBytes, removeSucceeds) =>
      OnlyAdditions(d.table, op);
      YieldOwns(d.table, op, s.size);
  }

  // ---- over runs ----

  ghost predicate AlwaysOwns(s: Shape, ops: seq<Op>, n: nat)
    requires Run(s, ops) && n <= |ops|
  {
    forall m :: 0 <= m <= n ==> OwnsAll(After(s, ops[..m]).table)
  }

  ghost predicate NeverLeaves(s: Shape, ops: seq<Op>, n: nat)
    requires Run(s, ops) && n <= |ops|
  {
    forall m :: 0 <= m < n ==> !LeavesForeign(After(s, ops[..m]).table, ops[m])
  }

  lemma AfterNext(s: Shape, ops: seq<Op>, n: nat)
    requires Run(s, ops) && n < |ops|
    ensures Uniform(s, After(s, ops[..n]).table) && Legal(s, ops[n])
    ensures After(s, ops[..n + 1]) == Applied(s, After(s, ops[..n]), ops[n])
  {
    hide Applied, Legal;
    var front := ops[..n + 1];
    assert front[..n] == ops[..n] && front[n] == ops[n];
  }

  /** The dictionary holds its own copies only, in every state of a run, if and only if no operation of the run is the
      insertion of a new key in which a string behind one that could not be copied is left as it was given. */
  lemma {:induction false} OwnsItsStringsIff(s: Shape, ops: seq<Op>, n: nat)
    requires Run(s, ops) && n <= |ops|
    ensures AlwaysOwns(s, ops, n) <==> NeverLeaves(s, ops, n)
  {
    hide After, Applied, Legal, OwnsAll, LeavesForeign;
    if n == 0 {
      EmptyOwns(s, ops);
    } else {
      OwnsItsStringsIff(s, ops, n - 1);
      AfterNext(s, ops, n - 1);
      if AlwaysOwns(s, ops, n - 1) {
        StepOwnsIff(s, After(s, ops[..n - 1]), ops[n - 1]);
      }
    }
  }

  lemma EmptyOwns(s: Shape, ops: seq<Op>)
    requires Run(s, ops)
    ensures OwnsAll(After(s, ops[..0]).table)
  {
    assert ops[..0] == [];
  }

  // ---- what a retrieval frees ----

  /** A retrieval yields an entry, and so frees the strings of one, that holds a pointer of a caller. */
  ghost predicate FreesForeign(t: Table, keys: seq<Key>, nameBytes: nat) {
    exists k :: k in t && Fetched(keys, Collect(t, keys, nameBytes, false).outcomes, k) && !OwnsStrings(t[k])
  }

  ghost predicate FreesOwnOnly(t: Table) {
    forall keys, nameBytes :: !FreesForeign(t, keys, nameBytes)
  }

  lemma FreesOwnOnlyIff(t: Table)
    ensures FreesOwnOnly(t) <==> OwnsAll(t)
  {
    hide OwnsStrings, NameBytes, Collect;
    if !OwnsAll(t) {
      var k :| k in t && !OwnsStrings(t[k]);
      OneRequest(t, k, NameBytes(t[k]));
      var outcomes := Collect(t, [k], NameBytes(t[k]), false).outcomes;
      assert [k][0] == k && outcomes[0].Retrieved?;
      assert Fetched([k], outcomes, k);
      assert FreesForeign(t, [k], NameBytes(t[k]));
    }
  }

  /** No state of a run is one in which some retrieval would free a string of a caller, if and only if the run contains
      no such insertion. */
  lemma RetrievalFreesOwnIff(s: Shape, ops: seq<Op>)
    requires Run(s, ops)
    ensures (forall n :: 0 <= n <= |ops| ==> FreesOwnOnly(After(s, ops[..n]).table)) <==> NeverLeaves(s, ops, |ops|)
  {
    hide After, FreesOwnOnly, OwnsAll, LeavesForeign, Legal;
    OwnsItsStringsIff(s, ops, |ops|);
    forall n | 0 <= n <= |ops|
      ensures FreesOwnOnly(After(s, ops[..n]).table) <==> OwnsAll(After(s, ops[..n]).table)
    {
      FreesOwnOnlyIff(After(s, ops[..n]).table);
    }
  }

  /** With two properties: the second string of a new key is left in the dictionary when the first cannot be copied,
      and retrieving the key frees it. */
  lemma CallersStringIsFreed(s: Shape, key: Key, address: int)
    requires s.numProperties == 2
    ensures var given: Entry := [Callers(1, "m"), Callers(address, "n")];
            var ops := [Insert(key, given, true, [false, true])];
            && Run(s, ops)
            && After(s, ops).table == map[key := [Null, Callers(address, "n")]]
            && !FreesOwnOnly(After(s, ops).table)
  {
    hide After, Applied, Legal, Stored, Uniform, FreesOwnOnly;
    var given: Entry := [Callers(1, "m"), Callers(address, "n")];
    var op := Insert(key, given, true, [false, true]);
    var ops := [op];
    assert Legal(s, op) by { LegalPair(s, key, address); }
    assert Run(s, ops);
    AfterNext(s, ops, 0);
    NothingHeld(s);
    assert ops[..0] == [] && ops[..1] == ops;
    PairLeft(s, key, address);
    var t := After(s, ops).table;
    assert !OwnsAll(t) by { assert key in t && t[key][1].Callers?; }
    FreesOwnOnlyIff(t);
  }

  lemma LegalPair(s: Shape, key: Key, address: int)
    requires s.numProperties == 2
    ensures Legal(s, Insert(key, [Callers(1, "m"), Callers(address, "n")], true, [false, true]))
  {
  }

  lemma PairLeft(s: Shape, key: Key, address: int)
    requires s.numProperties == 2
    ensures var op := Insert(key, [Callers(1, "m"), Callers(address, "n")], true, [false, true]);
            var d := Dictionary(map[], 0, 0, 0);
            && Uniform(s, d.table) && Legal(s, op)
            && Applied(s, d, op) == d.(table := map[key := [Null, Callers(address, "n")]])
  {
    var given: Entry := [Callers(1, "m"), Callers(address, "n")];
    var oks := [false, true];
    SameAsItself(given);
    assert given[..1] == [given[0]] && oks[..1] == [oks[0]] && given[..1][..0] == [];
    assert FirstFailure(given[..1], oks[..1]) == 0;
    assert FirstFailure(given, oks) == 0;
    assert Stored(map[], key, given, oks) == [Null, given[1]];
  }
}

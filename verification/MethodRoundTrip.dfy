/**
 From insertion to retrieval: what a caller reads through the pointers of a description is what was last inserted
 under its key, and what the calls report is what a caller needs to go on.
 */
module MethodRoundTrip {
  import opened Options
  import opened Words
  import opened MethodDictionary
  import opened MethodRetrieval
  import opened MethodAccounting

  // ---- what an insertion stores ----

  /** Every string that is there could be copied. */
  ghost predicate AllCopied(given: Entry, copySucceeds: seq<bool>)
    requires |copySucceeds| == |given|
  {
    forall i :: 0 <= i < |given| ==> given[i] == Null || copySucceeds[i]
  }

  lemma {:induction false} FirstFailureIff(given: Entry, copySucceeds: seq<bool>)
    requires |copySucceeds| == |given|
    ensures FirstFailure(given, copySucceeds) == |given| <==> AllCopied(given, copySucceeds)
    ensures var f := FirstFailure(given, copySucceeds);
      && AllCopied(given[..f], copySucceeds[..f])
      && (f < |given| ==> given[f] != Null && !copySucceeds[f])
  {
    if given != [] {
      var n := |given| - 1;
      FirstFailureIff(given[..n], copySucceeds[..n]);
      var f := FirstFailure(given[..n], copySucceeds[..n]);
      assert given[..n][..f] == given[..f] && copySucceeds[..n][..f] == copySucceeds[..f];
      assert given == given[..n] + [given[n]] && copySucceeds == copySucceeds[..n] + [copySucceeds[n]];
    }
  }

  /** The entry has its own copy of every string that was given, and no other. */
  ghost predicate Copies(e: Entry, given: Entry) {
    && |e| == |given|
    && forall i :: 0 <= i < |given| ==> e[i] == if given[i] == Null then Null else Owned(given[i].text)
  }

  /** An insertion whose copies succeed stores exactly the strings it was given, whatever the entry held before. */
  lemma StoredIsGiven(s: Shape, t: Table, op: Op)
    requires Uniform(s, t) && Legal(s, op) && op.Insert? && AllCopied(op.given, op.copySucceeds)
    ensures Copies(Stored(t, op.key, op.given, op.copySucceeds), op.given)
  {
    FirstFailureIff(op.given, op.copySucceeds);
  }

  /** One whose copy fails at `f` stores nothing up to there. Behind it, a new entry keeps what it was given, and one
      that was cleaned stays empty. */
  lemma StoredAfterFailure(s: Shape, t: Table, op: Op)
    requires Uniform(s, t) && Legal(s, op) && op.Insert? && !AllCopied(op.given, op.copySucceeds)
    ensures var e, f := Stored(t, op.key, op.given, op.copySucceeds), FirstFailure(op.given, op.copySucceeds);
      && |e| == |op.given| && f < |e|
      && (forall i :: 0 <= i <= f ==> e[i] == Null)
      && (op.key !in t ==> forall i :: f < i < |e| ==> e[i] == op.given[i])
      && (op.key in t && !SamePointers(t[op.key], op.given) ==> forall i :: f < i < |e| ==> e[i] == Null)
  {
    hide FirstFailure;
    FirstFailureIff(op.given, op.copySucceeds);
  }

  /** What the strings of an entry take: each its length and a terminator. */
  function BytesOf(e: Entry): nat {
    if e == [] then 0 else BytesOf(e[1..]) + (if e[0] == Null then 0 else |e[0].text| + 1)
  }

  lemma {:induction false} BytesOfPrefix(e: Entry, n: nat)
    requires n < |e|
    ensures BytesOf(e[..n + 1]) == BytesOf(e[..n]) + (if e[n] == Null then 0 else |e[n].text| + 1)
    decreases |e|
  {
    if n == 0 {
      assert e[..1][1..] == [] && e[..0] == [];
    } else {
      BytesOfPrefix(e[1..], n - 1);
      assert e[..n + 1][1..] == e[1..][..n] && e[..n][1..] == e[1..][..n - 1];
    }
  }

  lemma {:induction false} NameBytesAreBytes(e: Entry, n: nat)
    requires n <= |e|
    ensures NameBytes(e[..n]) == BytesOf(e[..n])
  {
    if n == 0 {
      assert e[..0] == [];
    } else {
      NameBytesAreBytes(e, n - 1);
      BytesOfPrefix(e, n - 1);
      StringsPrefix(e, n - 1, 0);
    }
  }

  lemma {:induction false} CopiesTakeAsMuch(e: Entry, given: Entry)
    requires Copies(e, given)
    ensures BytesOf(e) == BytesOf(given)
  {
    if e != [] {
      CopiesTakeAsMuch(e[1..], given[1..]);
    }
  }

  lemma BytesOfCopies(e: Entry, given: Entry)
    requires Copies(e, given)
    ensures NameBytes(e) == BytesOf(given)
  {
    assert e[..|e|] == e;
    NameBytesAreBytes(e, |e|);
    CopiesTakeAsMuch(e, given);
  }

  /** The key was there with other pointers, so that its entry is used again. */
  ghost predicate Replaces(t: Table, op: Op) {
    op.Insert? && op.key in t && !SamePointers(t[op.key], op.given)
  }

  /** What one insertion does to the table and to the counter: an insertion that succeeds is charged for the strings it
      was given and, unless it replaces an entry, for the entry; no other key is touched; one that fails is not
      charged, and one that cannot add its key changes nothing. */
  lemma InsertionCharges(s: Shape, d: Dictionary, op: Op)
    requires Uniform(s, d.table) && Legal(s, op) && op.Insert?
    ensures var now := Applied(s, d, op);
      && (forall k :: k != op.key ==>
            (k in now.table <==> k in d.table) && (k in d.table ==> now.table[k] == d.table[k]))
      && (op.addSucceeds && AllCopied(op.given, op.copySucceeds) ==>
            && op.key in now.table && Copies(now.table[op.key], op.given)
            && now.currentBytes
               == UInt64(d.currentBytes + BytesOf(op.given) + (if Replaces(d.table, op) then 0 else s.size)))
      && (op.addSucceeds && !AllCopied(op.given, op.copySucceeds) ==>
            op.key in now.table && now.currentBytes == d.currentBytes)
      && (!op.addSucceeds ==> now == d)
  {
    hide NameBytes, Stored, FirstFailure, SamePointers, Copies, AllCopied, UInt64;
    FirstFailureIff(op.given, op.copySucceeds);
    if op.addSucceeds && AllCopied(op.given, op.copySucceeds) {
      StoredIsGiven(s, d.table, op);
      BytesOfCopies(Stored(d.table, op.key, op.given, op.copySucceeds), op.given);
      if op.key !in d.table {
        assert SamePointers(op.given, op.given) by {
          NewLooksSame(s, op);
        }
      }
    }
  }

  lemma NewLooksSame(s: Shape, op: Op)
    requires Legal(s, op) && op.Insert?
    ensures SamePointers(op.given, op.given)
  {
  }

  // ---- pointers are compared by address ----

  /** Addresses for all pointers: callers' strings lie where they say, and the dictionary's copies elsewhere. */
  ghost predicate Places(address: Pointer -> int, given: Entry) {
    && address(Null) == 0
    && (forall a, text :: address(Callers(a, text)) == a)
    && (forall text, i :: 0 <= i < |given| ==> address(Owned(text)) != address(given[i]))
  }

  /** Wherever the dictionary's copies lie, two entries look the same exactly when all their addresses are equal. */
  lemma SamePointersAreAddresses(address: Pointer -> int, stored: Entry, given: Entry)
    requires Places(address, given) && |stored| == |given|
    requires forall i :: 0 <= i < |given| ==> !given[i].Owned?
    requires forall i :: 0 <= i < |given| ==> (given[i].Callers? ==> given[i].address != 0)
    requires forall i :: 0 <= i < |stored| ==> (stored[i].Callers? ==> stored[i].address != 0)
    ensures SamePointers(stored, given) <==> forall i :: 0 <= i < |given| ==> address(stored[i]) == address(given[i])
  {
    forall i | 0 <= i < |given|
      ensures SamePointer(stored[i], given[i]) <==> address(stored[i]) == address(given[i])
    {
      if stored[i].Owned? {
        assert address(Owned(stored[i].text)) != address(given[i]);
      }
      if stored[i].Callers? {
        assert address(Callers(stored[i].address, stored[i].text)) == stored[i].address;
      }
      if given[i].Callers? {
        assert address(Callers(given[i].address, given[i].text)) == given[i].address;
      }
    }
  }

  // ---- from the last insertion to a retrieval ----

  /** The operation neither inserts nor asks for the key. */
  predicate LeavesAlone(op: Op, key: Key) {
    match op
    case Insert(k, _, addSucceeds, _) => k != key || !addSucceeds
    case Fetch(keys, _, _) => key !in keys
  }

  lemma AloneKeepsEntry(s: Shape, d: Dictionary, op: Op, key: Key)
    requires Uniform(s, d.table) && Legal(s, op) && key in d.table && LeavesAlone(op, key)
    ensures key in Applied(s, d, op).table && Applied(s, d, op).table[key] == d.table[key]
  {
    hide NameBytes, Stored, Reused, Collect, Released, FirstStuck, Cleaned;
    match op
    case Insert(k, given, addSucceeds, copySucceeds) =>
    case Fetch(keys, nameBytes, removeSucceeds) =>
      var b := FirstStuck(Collect(d.table, keys, nameBytes, false).outcomes, removeSucceeds);
      KeyLeavesIff(d.table, keys, nameBytes, false, key);
      KeyLeavesIff(d.table, keys[..b], nameBytes, false, key);
      if b < |keys| {
        RetrievedInTable(d.table, keys, nameBytes, false, b);
        assert keys[b] != key;
      }
  }

  /** Operation `m` inserts the key with these pointers and succeeds, and no later one inserts it or asks for it. */
  ghost predicate LastInserted(s: Shape, ops: seq<Op>, m: nat, key: Key, given: Entry)
    requires Run(s, ops)
  {
    && m < |ops| && ops[m].Insert? && ops[m].key == key && ops[m].given == given
    && ops[m].addSucceeds && AllCopied(given, ops[m].copySucceeds)
    && forall n :: m < n < |ops| ==> LeavesAlone(ops[n], key)
  }

  /** What was last inserted is what the dictionary holds, whatever happened before and in between. */
  lemma {:induction false} LastInsertionStays(s: Shape, ops: seq<Op>, m: nat, key: Key, given: Entry)
    requires Run(s, ops) && LastInserted(s, ops, m, key, given)
    ensures key in After(s, ops).table && Copies(After(s, ops).table[key], given)
    decreases |ops|
  {
    hide After, Applied, Legal, Copies, AllCopied, LeavesAlone;
    LastOperation(s, ops);
    var n := |ops| - 1;
    if m == n {
      InsertionCharges(s, After(s, ops[..n]), ops[n]);
    } else {
      LastInsertionStays(s, ops[..n], m, key, given);
      AloneKeepsEntry(s, After(s, ops[..n]), ops[n], key);
    }
  }

  /** The strings that were given, NULL for those that were not. */
  function TextsOf(given: Entry): (texts: seq<Option<CString>>)
    ensures |texts| == |given|
  {
    seq(|given|, i requires 0 <= i < |given| => if given[i] == Null then None else Some(given[i].text))
  }

  /** A retrieval with as many bytes as the strings take yields what was last inserted, and removes it. */
  lemma LastInsertionIsRetrieved(s: Shape, ops: seq<Op>, m: nat, key: Key, given: Entry, nameBytes: nat)
    requires Run(s, ops) && LastInserted(s, ops, m, key, given) && BytesOf(given) <= nameBytes
    ensures var c := Collect(After(s, ops).table, [key], nameBytes, false);
            c.outcomes == [Retrieved(TextsOf(given))] && c.table == After(s, ops).table - {key}
  {
    hide After, Run, LastInserted, NameBytes;
    LastInsertionStays(s, ops, m, key, given);
    var t := After(s, ops).table;
    BytesOfCopies(t[key], given);
    OneRequest(t, key, nameBytes);
    assert Strings(t[key]) == TextsOf(given);
    RetrievedLeave(t, [key], nameBytes, false);
    OneFetched(t, key, nameBytes);
  }

  lemma OneFetched(t: Table, key: Key, nameBytes: nat)
    requires key in t && NameBytes(t[key]) <= nameBytes
    ensures Collect(t, [key], nameBytes, false).table == t - {key}
  {
    var keys: seq<Key> := [key];
    assert keys[1..] == [];
  }

  /** The whole way: a caller that retrieves the key reads, through the pointers of its description and inside its
      buffer, exactly the strings that were last inserted, and is asked for nothing more. */
  lemma LastInsertionIsRead(s: Shape, ops: seq<Op>, m: nat, key: Key, given: Entry, c: Call, descs: seq<Description>,
                            buffer: string, rc: ErrorCode, first: Option<nat>, remaining: Option<nat>)
    requires Run(s, ops) && LastInserted(s, ops, m, key, given) && BytesOf(given) <= c.nameBytes
    requires c.table == After(s, ops).table && c.keys == [key]
    requires Answered(c, [true], descs, buffer, rc, first, remaining)
    ensures rc == ErrorNone && first == None == remaining
    ensures descs != [] && descs[0].reasonCode == ErrorNone && |descs[0].propertyValues| == |given|
    ensures forall i :: 0 <= i < |given| && given[i] == Null ==> descs[0].propertyValues[i] == None
    ensures forall i :: 0 <= i < |given| && given[i] != Null ==>
      var p := descs[0].propertyValues[i];
      && p.Some? && p.value + |given[i].text| < c.nameBytes && p.value + |given[i].text| < |buffer|
      && ReadString(buffer, p.value) == given[i].text
  {
    hide After, Run, LastInserted, Collect, ReadString, Written;
    LastInsertionIsRetrieved(s, ops, m, key, given, c.nameBytes);
    var outcomes := Collect(c.table, c.keys, c.nameBytes, false).outcomes;
    assert outcomes[..0] == [];
    OneOutcome(TextsOf(given));
    WrittenLength(c.descs, descs, outcomes, c.buffer, buffer);
    DescriptionsExact(c.keys, c.nameBytes, c.descs, descs, outcomes, c.buffer, buffer);
    assert ExactDescription(descs[0], outcomes[0], buffer, 0);
    forall i | 0 <= i < |given|
      ensures ExactCopy(descs[0].propertyValues[i], TextsOf(given)[i], buffer, 0, Size(outcomes[0]))
    {
    }
  }

  lemma WrittenLength(was: seq<Description>, descs: seq<Description>, done: seq<Outcome>, text: string, buffer: string)
    requires Written(was, descs, done, text, buffer)
    ensures |done| <= |was| == |descs|
  {
  }

  lemma OneOutcome(texts: seq<Option<CString>>)
    ensures FirstDeferred([Retrieved(texts)]) == 1 && FirstStuck([Retrieved(texts)], [true]) == 1
    ensures Used([Retrieved(texts)], 0) == 0 && Used([Retrieved(texts)], 1) == Size(Retrieved(texts))
  {
    var outcomes := [Retrieved(texts)];
    assert outcomes[..0] == [];
  }

  // ---- an entry that cannot be removed ----

  /** A retrieval that stops at an entry it cannot remove has removed what it retrieved before and nothing else; that
      entry stays under its key without any string. */
  lemma StuckStays(t: Table, keys: seq<Key>, nameBytes: nat, size: nat, removeSucceeds: seq<bool>)
    requires |removeSucceeds| == |keys|
    ensures var outcomes := Collect(t, keys, nameBytes, false).outcomes;
            var b, now := FirstStuck(outcomes, removeSucceeds), Yielded(t, keys, nameBytes, size, removeSucceeds).table;
      && (b < |keys| ==>
            && keys[b] in t && keys[b] in now && |now[keys[b]]| == |t[keys[b]]|
            && forall i :: 0 <= i < |now[keys[b]]| ==> now[keys[b]][i] == Null)
      && forall k :: b == |keys| || k != keys[b] ==>
           && (k in now <==> k in t && !Fetched(keys[..b], outcomes[..b], k))
           && (k in now ==> now[k] == t[k])
  {
    hide Collect, Released, FirstStuck, NameBytes, Fetched;
    var outcomes := Collect(t, keys, nameBytes, false).outcomes;
    var b := FirstStuck(outcomes, removeSucceeds);
    RetrievedLeave(t, keys[..b], nameBytes, false);
    assert keys[..|keys|] == keys && outcomes[..|keys|] == outcomes;
    if b < |keys| {
      RetrievedInTable(t, keys, nameBytes, false, b);
      PrefixOutcomes(t, keys, nameBytes, b);
    }
  }

  lemma PrefixOutcomes(t: Table, keys: seq<Key>, nameBytes: nat, b: nat)
    requires b <= |keys|
    ensures Collect(t, keys[..b], nameBytes, false).outcomes == Collect(t, keys, nameBytes, false).outcomes[..b]
  {
    hide Collect;
    CollectPrefix(t, keys, nameBytes, b);
  }

  // ---- what the caller is told ----

  /** A caller that was told to retry from request `k` with `r` bytes, and calls again from there with a buffer of that
      size, is not told to retry again: both calls together describe every request as one call with a buffer that
      suffices would. */
  lemma RetryIsEnough(c: Call, descs: seq<Description>, buffer: string, first: Option<nat>, remaining: Option<nat>,
                      d: Call, descs2: seq<Description>, buffer2: string, rc2: ErrorCode, first2: Option<nat>,
                      remaining2: Option<nat>, large: nat)
    requires Answered(c, seq(|c.keys|, i => true), descs, buffer, Retry, first, remaining)
    requires first.Some? && first.value <= |c.keys| && d.keys == c.keys[first.value..]
    requires d.table == Yielded(c.table, c.keys, c.nameBytes, c.size, seq(|c.keys|, i => true)).table
    requires remaining.Some? && remaining.value <= d.nameBytes
    requires Answered(d, seq(|d.keys|, i => true), descs2, buffer2, rc2, first2, remaining2)
    requires Complete(Collect(c.table, c.keys, large, false).outcomes)
    ensures rc2 == ErrorNone && first2 == None == remaining2
    ensures |c.keys| <= |descs| && |d.keys| <= |descs2|
    ensures var whole := Collect(c.table, c.keys, large, false).outcomes;
      forall i :: 0 <= i < |c.keys| ==>
        var code := if i < first.value then descs[i].reasonCode else descs2[i - first.value].reasonCode;
        && (code == ErrorNone <==> whole[i].Retrieved?) && (code == NotAvailable <==> whole[i].Missing?)
  {
    hide Collect, FirstDeferred, Answered, Yielded, Coded;
    var one, two := Collect(c.table, c.keys, c.nameBytes, false), Collect(d.table, d.keys, d.nameBytes, false);
    AnswerMeans(c, descs, buffer, Retry, first, remaining);
    AnswerMeans(d, descs2, buffer2, rc2, first2, remaining2);
    Resumption(c.table, c.keys, c.nameBytes, d.nameBytes, large);
    var k := first.value;
    forall i | 0 <= i < |c.keys|
      ensures var o := (one.outcomes[..k] + two.outcomes)[i];
              if i < k then Coded(descs[i].reasonCode, o) else Coded(descs2[i - k].reasonCode, o)
    {
    }
    CodesTell();
  }

  /** The code of a description tells its outcome. */
  predicate Coded(code: ErrorCode, o: Outcome) {
    && (code == ErrorNone <==> o.Retrieved?)
    && (code == NotAvailable <==> o.Missing?)
    && (code == Retry <==> o.Deferred?)
  }

  lemma CodesTell()
    ensures forall code, o :: Coded(code, o) ==>
              (code == ErrorNone <==> o.Retrieved?) && (code == NotAvailable <==> o.Missing?)
  {
  }

  /** What a call answers when everything it retrieves can be removed. */
  lemma AnswerMeans(c: Call, descs: seq<Description>, buffer: string, rc: ErrorCode, first: Option<nat>,
                    remaining: Option<nat>)
    requires Answered(c, seq(|c.keys|, i => true), descs, buffer, rc, first, remaining)
    ensures var whole := Collect(c.table, c.keys, c.nameBytes, false);
      && Yielded(c.table, c.keys, c.nameBytes, c.size, seq(|c.keys|, i => true)).table == whole.table
      && (rc == ErrorNone <==> Complete(whole.outcomes)) && (rc == Retry <==> !Complete(whole.outcomes))
      && (rc == Retry ==> first == Some(FirstDeferred(whole.outcomes)) && remaining == Some(whole.owed))
      && (rc == ErrorNone ==> first == None == remaining)
      && |c.keys| <= |descs|
      && forall i :: 0 <= i < |c.keys| ==> Coded(descs[i].reasonCode, whole.outcomes[i])
  {
    hide Collect, FirstDeferred, FirstStuck, Used, Written, Released, BlockReads, Size;
    var whole := Collect(c.table, c.keys, c.nameBytes, false);
    NothingStuck(whole.outcomes);
    WrittenLength(c.descs, descs, whole.outcomes, c.buffer, buffer);
    DescriptionsExact(c.keys, c.nameBytes, c.descs, descs, whole.outcomes, c.buffer, buffer);
    forall i | 0 <= i < |c.keys|
      ensures Coded(descs[i].reasonCode, whole.outcomes[i])
    {
      assert ExactDescription(descs[i], whole.outcomes[i], buffer, Used(whole.outcomes, i));
    }
  }

  /** A call reports an internal error exactly when it stops at an entry it cannot remove, and says where: that
      description alone is marked so, those before it tell their outcomes, and those behind it are as they were. */
  lemma StuckIsReported(c: Call, removeSucceeds: seq<bool>, descs: seq<Description>, buffer: string, rc: ErrorCode,
                        first: Option<nat>, remaining: Option<nat>)
    requires |removeSucceeds| == |c.keys|
    requires Answered(c, removeSucceeds, descs, buffer, rc, first, remaining)
    ensures var outcomes := Collect(c.table, c.keys, c.nameBytes, false).outcomes;
      && (rc == Internal <==> exists i :: 0 <= i < |c.keys| && outcomes[i].Retrieved? && !removeSucceeds[i])
      && (rc == Internal ==>
            && first.Some? && remaining == None && first.value < |c.keys|
            && outcomes[first.value].Retrieved? && !removeSucceeds[first.value]
            && first.value < |descs| == |c.descs| && descs[first.value].reasonCode == Internal
            && (forall i :: 0 <= i < first.value ==> Coded(descs[i].reasonCode, outcomes[i]))
            && (forall i :: first.value < i < |descs| ==> descs[i] == c.descs[i]))
  {
    hide Collect, FirstDeferred, Used, Coded, Describes;
    var outcomes := Collect(c.table, c.keys, c.nameBytes, false).outcomes;
    var b := FirstStuck(outcomes, removeSucceeds);
    if b < |c.keys| {
      var now := descs[b := descs[b].(reasonCode := ErrorNone)];
      WrittenCodes(c.descs, now, outcomes[..b + 1], c.buffer, buffer);
      forall i | 0 <= i < b
        ensures Coded(descs[i].reasonCode, outcomes[i])
      {
        assert now[i] == descs[i] && outcomes[..b + 1][i] == outcomes[i];
      }
      forall i | b < i < |descs|
        ensures descs[i] == c.descs[i]
      {
        assert now[i] == descs[i];
      }
    }
  }

  lemma WrittenCodes(was: seq<Description>, descs: seq<Description>, done: seq<Outcome>, text: string, buffer: string)
    requires Written(was, descs, done, text, buffer)
    ensures |done| <= |was| == |descs|
    ensures forall i :: 0 <= i < |done| ==> Coded(descs[i].reasonCode, done[i])
    ensures forall i :: |done| <= i < |descs| ==> descs[i] == was[i]
  {
    hide Used;
    forall i | 0 <= i < |done|
      ensures Coded(descs[i].reasonCode, done[i])
    {
      assert Describes(descs[i], was[i], done[i], buffer, Used(done, i));
    }
  }

  lemma NothingStuck(outcomes: seq<Outcome>)
    ensures FirstStuck(outcomes, seq(|outcomes|, i => true)) == |outcomes|
  {
  }
}

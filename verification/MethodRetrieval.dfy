/** What callers of the method dictionary can rely on, over all dictionaries, requests and buffer sizes. */
module MethodRetrieval {
  import opened Options
  import opened MethodDictionary

  /** Key `k` is retrieved by one of the requests. */
  ghost predicate Fetched(keys: seq<Key>, outcomes: seq<Outcome>, k: Key)
    requires |keys| == |outcomes|
  {
    exists i :: 0 <= i < |keys| && keys[i] == k && outcomes[i].Retrieved?
  }

  lemma FetchedCons(keys: seq<Key>, outcomes: seq<Outcome>, k: Key)
    requires |keys| == |outcomes| > 0
    ensures Fetched(keys, outcomes, k)
        <==> ((keys[0] == k && outcomes[0].Retrieved?) || Fetched(keys[1..], outcomes[1..], k))
  {
    if Fetched(keys[1..], outcomes[1..], k) {
      var i :| 0 <= i < |keys| - 1 && keys[1..][i] == k && outcomes[1..][i].Retrieved?;
      assert keys[i + 1] == k && outcomes[i + 1].Retrieved?;
    }
    if Fetched(keys, outcomes, k) && !(keys[0] == k && outcomes[0].Retrieved?) {
      var i :| 0 <= i < |keys| && keys[i] == k && outcomes[i].Retrieved?;
      assert keys[1..][i - 1] == k && outcomes[1..][i - 1].Retrieved?;
    }
  }

  lemma {:induction false} KeyLeavesIff(t: Table, keys: seq<Key>, available: nat, retrying: bool, k: Key)
    ensures var c := Collect(t, keys, available, retrying);
            (k in c.table <==> k in t && !Fetched(keys, c.outcomes, k)) && (k in c.table ==> c.table[k] == t[k])
  {
    hide Collect, NextOutcome, Size, NameBytes, Fetched;
    if keys == [] {
      NothingFetched(t, available, retrying, k);
    } else {
      var o := NextOutcome(t, keys[0], available, retrying);
      Unfolded(t, keys, available, retrying);
      NextFits(t, keys[0], available, retrying);
      var next, left := NextTable(t, keys[0], o), available - Size(o);
      var rest := Collect(next, keys[1..], left, retrying || o.Deferred?);
      KeyLeavesIff(next, keys[1..], left, retrying || o.Deferred?, k);
      FetchedPrepend(keys, o, rest.outcomes, k);
    }
  }

  lemma NothingFetched(t: Table, available: nat, retrying: bool, k: Key)
    ensures var c := Collect(t, [], available, retrying); c.table == t && !Fetched([], c.outcomes, k)
  {
  }

  lemma FetchedPrepend(keys: seq<Key>, o: Outcome, rest: seq<Outcome>, k: Key)
    requires |keys| == |rest| + 1
    ensures Fetched(keys, [o] + rest, k) <==> ((keys[0] == k && o.Retrieved?) || Fetched(keys[1..], rest, k))
  {
    hide Fetched;
    FetchedCons(keys, [o] + rest, k);
    assert ([o] + rest)[1..] == rest;
  }

  /** Exactly the retrieved keys leave the dictionary; nothing else changes. */
  lemma RetrievedLeave(t: Table, keys: seq<Key>, available: nat, retrying: bool)
    ensures var c := Collect(t, keys, available, retrying);
            && (forall k :: k in c.table <==> k in t && !Fetched(keys, c.outcomes, k))
            && (forall k :: k in c.table ==> c.table[k] == t[k])
  {
    hide Collect, Fetched;
    forall k
      ensures var c := Collect(t, keys, available, retrying);
              (k in c.table <==> k in t && !Fetched(keys, c.outcomes, k)) && (k in c.table ==> c.table[k] == t[k])
    {
      KeyLeavesIff(t, keys, available, retrying, k);
    }
  }

  /** What each outcome says about its key. */
  ghost predicate Meant(t: Table, keys: seq<Key>, outcomes: seq<Outcome>, i: nat)
    requires i < |keys| == |outcomes|
  {
    && (outcomes[i].Missing? <==> keys[i] !in t || Fetched(keys[..i], outcomes[..i], keys[i]))
    && (outcomes[i].Retrieved? ==> keys[i] in t && outcomes[i].strings == Strings(t[keys[i]]))
  }

  lemma {:induction false} OutcomeMeant(t: Table, keys: seq<Key>, available: nat, retrying: bool, i: nat)
    requires i < |keys|
    ensures Meant(t, keys, Collect(t, keys, available, retrying).outcomes, i)
    decreases |keys|
  {
    hide Collect, Meant, NextOutcome, NextTable, Size, NameBytes;
    var o := NextOutcome(t, keys[0], available, retrying);
    NextFits(t, keys[0], available, retrying);
    Unfolded(t, keys, available, retrying);
    if i == 0 {
      MeantFirst(t, keys, Collect(t, keys, available, retrying).outcomes, available, retrying);
    } else {
      var next, left := NextTable(t, keys[0], o), available - Size(o);
      var rest := Collect(next, keys[1..], left, retrying || o.Deferred?);
      OutcomeMeant(next, keys[1..], left, retrying || o.Deferred?, i - 1);
      assert ([o] + rest.outcomes)[1..] == rest.outcomes;
      MeantLater(t, keys, [o] + rest.outcomes, o, i);
    }
  }

  lemma MeantFirst(t: Table, keys: seq<Key>, outcomes: seq<Outcome>, available: nat, retrying: bool)
    requires |keys| == |outcomes| > 0 && outcomes[0] == NextOutcome(t, keys[0], available, retrying)
    ensures Meant(t, keys, outcomes, 0)
  {
    hide NameBytes;
  }

  lemma MeantLater(t: Table, keys: seq<Key>, outcomes: seq<Outcome>, o: Outcome, i: nat)
    requires 0 < i < |keys| == |outcomes| && outcomes[0] == o
    requires o.Missing? <==> keys[0] !in t
    requires Meant(NextTable(t, keys[0], o), keys[1..], outcomes[1..], i - 1)
    ensures Meant(t, keys, outcomes, i)
  {
    FetchedCons(keys[..i], outcomes[..i], keys[i]);
    assert keys[..i][1..] == keys[1..][..i - 1] && outcomes[..i][1..] == outcomes[1..][..i - 1];
  }

  /** A description is unavailable exactly when its key was never there or was retrieved by an earlier
      request; a retrieved one carries the strings of its key. */
  lemma OutcomesMeant(t: Table, keys: seq<Key>, available: nat)
    ensures forall i :: 0 <= i < |keys| ==> Meant(t, keys, Collect(t, keys, available, false).outcomes, i)
  {
    hide Collect, Meant;
    forall i | 0 <= i < |keys|
      ensures Meant(t, keys, Collect(t, keys, available, false).outcomes, i)
    {
      OutcomeMeant(t, keys, available, false, i);
    }
  }

  // ---- deferral and resumption ----

  /** The bytes that all requests ask for, each counted as often as it is made. */
  function Demand(t: Table, keys: seq<Key>): nat {
    if keys == [] then 0 else (if keys[0] in t then NameBytes(t[keys[0]]) else 0) + Demand(t, keys[1..])
  }

  /** The bytes that retrieving all requests takes, where a key is gone after its first retrieval. */
  function Consumption(t: Table, keys: seq<Key>): nat {
    if keys == [] then 0
    else if keys[0] in t then NameBytes(t[keys[0]]) + Consumption(t - {keys[0]}, keys[1..])
    else Consumption(t, keys[1..])
  }

  predicate Complete(outcomes: seq<Outcome>) {
    FirstDeferred(outcomes) == |outcomes|
  }

  /** In counting mode nothing is retrieved and everything available is owed. */
  lemma {:induction false} CountingOnly(t: Table, keys: seq<Key>, available: nat)
    ensures var c := Collect(t, keys, available, true);
            c.table == t && c.owed == Demand(t, keys) && forall i :: 0 <= i < |keys| ==> !c.outcomes[i].Retrieved?
  {
    if keys != [] {
      CountingOnly(t, keys[1..], available);
    }
  }

  lemma {:induction false} DemandShrinks(t: Table, keys: seq<Key>, k: Key)
    ensures Demand(t - {k}, keys) <= Demand(t, keys)
  {
    if keys != [] {
      DemandShrinks(t, keys[1..], k);
    }
  }

  /** With as many bytes as are asked for, nothing is deferred. */
  lemma {:induction false} DemandSuffices(t: Table, keys: seq<Key>, available: nat)
    requires Demand(t, keys) <= available
    ensures Complete(Collect(t, keys, available, false).outcomes)
  {
    hide Collect, FirstDeferred, NameBytes, Size, NextOutcome;
    if keys == [] {
      CollectNothing(t, available);
    } else {
      var o := NextOutcome(t, keys[0], available, false);
      NextFits(t, keys[0], available, false);
      CollectStep(t, keys, available);
      if keys[0] in t {
        DemandShrinks(t, keys[1..], keys[0]);
      }
      DemandSuffices(NextTable(t, keys[0], o), keys[1..], available - Size(o));
      DeferredCons(o, Rest(t, keys, available, o).outcomes);
    }
  }

  /** Buffers that suffice all yield the same. */
  lemma {:induction false} SufficientBuffersAgree(t: Table, keys: seq<Key>, a: nat, b: nat)
    requires Complete(Collect(t, keys, a, false).outcomes) && Complete(Collect(t, keys, b, false).outcomes)
    ensures Collect(t, keys, a, false) == Collect(t, keys, b, false)
    ensures Collect(t, keys, a, false).owed == 0
  {
    hide Packed, Strings, FirstDeferred;
    if keys != [] {
      var o, p := NextOutcome(t, keys[0], a, false), NextOutcome(t, keys[0], b, false);
      CollectStep(t, keys, a);
      CollectStep(t, keys, b);
      DeferredCons(o, Rest(t, keys, a, o).outcomes);
      DeferredCons(p, Rest(t, keys, b, p).outcomes);
      SufficientBuffersAgree(NextTable(t, keys[0], o), keys[1..], a - Size(o), b - Size(p));
    }
  }

  /** What is left after the first request. */
  function Rest(t: Table, keys: seq<Key>, available: nat, o: Outcome): Collection
    requires keys != [] && Size(o) <= available
  {
    Collect(NextTable(t, keys[0], o), keys[1..], available - Size(o), o.Deferred?)
  }

  lemma CollectStep(t: Table, keys: seq<Key>, available: nat)
    requires keys != []
    ensures var o := NextOutcome(t, keys[0], available, false);
            && Size(o) <= available
            && Collect(t, keys, available, false)
               == Prepend(o, if o.Deferred? then NameBytes(t[keys[0]]) else 0, Rest(t, keys, available, o))
  {
    hide Collect, NextOutcome, NextTable, Size, NameBytes, Prepend;
    Unfolded(t, keys, available, false);
  }

  lemma PrefixTail(keys: seq<Key>, k: nat)
    requires 0 < k <= |keys|
    ensures keys[..k] != [] && keys[..k][0] == keys[0] && keys[..k][1..] == keys[1..][..k - 1]
        && keys[k..] == keys[1..][k - 1..]
  {
  }

  /** The front part of a retrieval: complete, and it leaves the table of the whole. */
  ghost predicate Splits(t: Table, keys: seq<Key>, available: nat, c: Collection) {
    var k := FirstDeferred(c.outcomes);
    && |c.outcomes| == |keys|
    && var front := Collect(t, keys[..k], available, false);
       && Complete(front.outcomes) && front.outcomes == c.outcomes[..k] && front.table == c.table
       && c.owed == if k < |keys| then Demand(c.table, keys[k..]) else 0
  }

  /** A retrieval that defers retrieves a prefix of the requests and owes what the rest asks of the table it leaves. */
  lemma {:induction false} DeferralSplits(t: Table, keys: seq<Key>, available: nat)
    ensures Splits(t, keys, available, Collect(t, keys, available, false))
  {
    if keys == [] {
      assert keys[..0] == [];
    } else {
      var o := NextOutcome(t, keys[0], available, false);
      CollectStep(t, keys, available);
      if o.Deferred? {
        CountingOnly(t, keys[1..], available);
        DeferredCons(o, Rest(t, keys, available, o).outcomes);
        assert keys[..0] == [] && keys[0..] == keys;
      } else {
        DeferralSplits(NextTable(t, keys[0], o), keys[1..], available - Size(o));
        SplitsLater(t, keys, available, o, Rest(t, keys, available, o));
      }
    }
  }

  lemma SplitsLater(t: Table, keys: seq<Key>, available: nat, o: Outcome, rest: Collection)
    requires keys != [] && o == NextOutcome(t, keys[0], available, false) && !o.Deferred?
    requires Splits(NextTable(t, keys[0], o), keys[1..], available - Size(o), rest)
    ensures Splits(t, keys, available, Prepend(o, 0, rest))
  {
    hide Packed, Strings, Collect, Demand, FirstDeferred;
    var k := FirstDeferred(rest.outcomes);
    DeferredCons(o, rest.outcomes);
    PrefixTail(keys, k + 1);
    CollectStep(t, keys[..k + 1], available);
    var front := Collect(NextTable(t, keys[0], o), keys[1..][..k], available - Size(o), false);
    DeferredCons(o, front.outcomes);
    assert ([o] + rest.outcomes)[..k + 1] == [o] + rest.outcomes[..k];
  }

  /** The request cut at `k`: both parts complete, together the whole. */
  ghost predicate Cut(t: Table, keys: seq<Key>, available: nat, k: nat, whole: Collection)
    requires k <= |keys|
  {
    var front := Collect(t, keys[..k], available, false);
    && Complete(front.outcomes) && Used(front.outcomes, k) <= available
    && var back := Collect(front.table, keys[k..], available - Used(front.outcomes, k), false);
       Complete(back.outcomes) && whole == Resumed(front.outcomes, 0, back)
  }

  /** A request can be cut anywhere before its first deferral. */
  lemma {:induction false} CollectCut(t: Table, keys: seq<Key>, available: nat, k: nat)
    requires k <= |keys| && Complete(Collect(t, keys, available, false).outcomes)
    ensures Cut(t, keys, available, k, Collect(t, keys, available, false))
  {
    hide Packed, Strings, Collect, FirstDeferred, Cut;
    if k == 0 {
      CutNothing(t, keys, available);
    } else {
      var o := NextOutcome(t, keys[0], available, false);
      CollectStep(t, keys, available);
      DeferredCons(o, Rest(t, keys, available, o).outcomes);
      CollectCut(NextTable(t, keys[0], o), keys[1..], available - Size(o), k - 1);
      CutLater(t, keys, available, k, o, Rest(t, keys, available, o));
    }
  }

  lemma CutNothing(t: Table, keys: seq<Key>, available: nat)
    requires Complete(Collect(t, keys, available, false).outcomes)
    ensures Cut(t, keys, available, 0, Collect(t, keys, available, false))
  {
    hide Collect, Packed, Strings, Size, FirstDeferred;
    var whole := Collect(t, keys, available, false);
    assert keys[..0] == [] && keys[0..] == keys;
    CollectNothing(t, available);
    assert [] + whole.outcomes == whole.outcomes;
  }

  lemma CollectNothing(t: Table, available: nat)
    ensures Collect(t, [], available, false) == Collection([], t, 0) && Complete([])
  {
  }

  lemma CutLater(t: Table, keys: seq<Key>, available: nat, k: nat, o: Outcome, rest: Collection)
    requires 0 < k <= |keys| && o == NextOutcome(t, keys[0], available, false) && !o.Deferred?
    requires Cut(NextTable(t, keys[0], o), keys[1..], available - Size(o), k - 1, rest)
    ensures Cut(t, keys, available, k, Prepend(o, 0, rest))
  {
    hide Packed, Strings, Collect, FirstDeferred, Used;
    PrefixTail(keys, k);
    CollectStep(t, keys[..k], available);
    var front := Collect(NextTable(t, keys[0], o), keys[1..][..k - 1], available - Size(o), false);
    DeferredCons(o, front.outcomes);
    UsedCons(o, front.outcomes, k - 1);
    var back := Collect(front.table, keys[k..], available - Size(o) - Used(front.outcomes, k - 1), false);
    assert [o] + (front.outcomes + back.outcomes) == ([o] + front.outcomes) + back.outcomes;
  }

  /** Resumption. When a retrieval asks the caller to retry from request `k` with `owed` bytes, a second
      retrieval of the rest with any buffer of that size is complete, and the two together yield the outcomes
      and the dictionary of a single retrieval with any buffer that suffices. */
  lemma Resumption(t: Table, keys: seq<Key>, available: nat, second: nat, large: nat)
    requires !Complete(Collect(t, keys, available, false).outcomes)
    requires Collect(t, keys, available, false).owed <= second
    requires Complete(Collect(t, keys, large, false).outcomes)
    ensures var c := Collect(t, keys, available, false);
            var k := FirstDeferred(c.outcomes);
            var d := Collect(c.table, keys[k..], second, false);
            && Complete(d.outcomes)
            && Collect(t, keys, large, false).outcomes == c.outcomes[..k] + d.outcomes
            && Collect(t, keys, large, false).table == d.table
  {
    hide Collect, FirstDeferred, Used, Demand;
    var c, whole := Collect(t, keys, available, false), Collect(t, keys, large, false);
    var k := FirstDeferred(c.outcomes);
    DeferralSplits(t, keys, available);
    DemandSuffices(c.table, keys[k..], second);
    CollectCut(t, keys, large, k);
    var front := Collect(t, keys[..k], large, false);
    SufficientBuffersAgree(t, keys[..k], available, large);
    SufficientBuffersAgree(c.table, keys[k..], second, large - Used(front.outcomes, k));
  }

  /** The retrieved requests are the longest prefix whose strings fit: a prefix is retrieved exactly when
      the bytes it takes are there. */
  lemma {:induction false} LongestPrefixThatFits(t: Table, keys: seq<Key>, available: nat, j: nat)
    requires j <= |keys|
    ensures j <= FirstDeferred(Collect(t, keys, available, false).outcomes) <==> Consumption(t, keys[..j]) <= available
  {
    hide Packed, Strings, Collect, FirstDeferred;
    if j == 0 {
      assert keys[..0] == [];
    } else {
      var o := NextOutcome(t, keys[0], available, false);
      PrefixTail(keys, j);
      CollectStep(t, keys, available);
      DeferredCons(o, Rest(t, keys, available, o).outcomes);
      if !o.Deferred? {
        LongestPrefixThatFits(NextTable(t, keys[0], o), keys[1..], available - Size(o), j - 1);
      }
    }
  }

  /** The interface promises as many descriptions as fit; the loop gives up at the first that does not, even
      if a later one would fit. */
  lemma LaterDescriptionWouldFit()
    ensures var t: Table := map[1 := [Owned("abc")], 2 := [Owned("x")]];
            && Collect(t, [1, 2], 2, false).outcomes == [Deferred, Deferred]
            && Collect(t, [2], 2, false).outcomes == [Retrieved([Some("x")])]
  {
    var long, short: Entry := [Owned("abc")], [Owned("x")];
    var t: Table := map[1 := long, 2 := short];
    assert Strings(long) == [Some("abc")] && Strings(short) == [Some("x")];
    OneString("abc");
    OneString("x");
    var keys: seq<Key> := [1, 2];
    assert keys[1..] == [2];
    CollectStep(t, keys, 2);
    OneRequest(t, 2, 2);
  }

  lemma OneString(text: CString)
    ensures |Packed([Some(text)])| == |text| + 1
  {
    var s: seq<Option<CString>> := [Some(text)];
    assert s[..|s| - 1] == [];
  }

  lemma OneRequest(t: Table, key: Key, available: nat)
    requires key in t
    ensures Collect(t, [key], available, true).outcomes == [Deferred]
    ensures NameBytes(t[key]) <= available ==>
        Collect(t, [key], available, false).outcomes == [Retrieved(Strings(t[key]))]
  {
    var keys: seq<Key> := [key];
    assert keys[1..] == [];
  }

  // ---- reading the strings ----

  /** What a C string function sees from `at` on. */
  function ReadString(buffer: string, at: nat): string
    decreases |buffer| - at
  {
    if at >= |buffer| || buffer[at] == '\0' then [] else [buffer[at]] + ReadString(buffer, at + 1)
  }

  lemma {:induction false} ReadBack(buffer: string, at: nat, text: CString)
    requires at + |text| < |buffer| && buffer[at..at + |text|] == text && buffer[at + |text|] == '\0'
    ensures ReadString(buffer, at) == text
    decreases |text|
  {
    if text != [] {
      assert buffer[at] == text[0];
      assert buffer[at + 1..at + |text|] == text[1..];
      ReadBack(buffer, at + 1, text[1..]);
    }
  }

  /** Pointer `p` of a description is an exact terminated copy inside the bytes `[from, to)`, or NULL. */
  ghost predicate ExactCopy(value: Option<nat>, text: Option<CString>, buffer: string, from: nat, to: nat) {
    match text
    case None => value == None
    case Some(s) =>
      && value.Some? && from <= value.value && value.value + |s| < to <= |buffer|
      && buffer[value.value + |s|] == '\0' && ReadString(buffer, value.value) == s
  }

  /** Every pointer of a block is an exact copy, and the copies follow one another. */
  ghost predicate BlockReads(s: seq<Option<CString>>, values: seq<Option<nat>>, buffer: string, from: nat, to: nat) {
    && |values| == |s|
    && (forall p :: 0 <= p < |s| ==> ExactCopy(values[p], s[p], buffer, from, to))
    && (forall p, q :: 0 <= p < q < |s| && s[p].Some? && s[q].Some? ==>
          values[p].Some? && values[q].Some? && values[p].value + |s[p].value| < values[q].value)
  }

  lemma NothingReads(buffer: string, pos: nat)
    ensures BlockReads([], [], buffer, pos, pos)
  {
  }

  lemma {:induction false} PackedReads(s: seq<Option<CString>>, buffer: string, pos: nat)
    requires pos + |Packed(s)| <= |buffer| && buffer[pos..pos + |Packed(s)|] == Packed(s)
    ensures BlockReads(s, Offsets(s, pos), buffer, pos, pos + |Packed(s)|)
  {
    hide ExactCopy, BlockReads;
    if s == [] {
      NothingReads(buffer, pos);
    } else {
      var front, last, at := s[..|s| - 1], s[|s| - 1], pos + |Packed(s[..|s| - 1])|;
      LastRead(buffer, pos, Packed(front), last);
      PackedReads(front, buffer, pos);
      OneMoreRead(s, Offsets(front, pos), buffer, pos, at);
    }
  }

  lemma LastRead(buffer: string, pos: nat, front: string, last: Option<CString>)
    requires pos + |front + Terminated(last)| <= |buffer|
    requires buffer[pos..pos + |front + Terminated(last)|] == front + Terminated(last)
    ensures buffer[pos..pos + |front|] == front
    ensures ExactCopy(if last.None? then None else Some(pos + |front|), last, buffer,
                      pos + |front|, pos + |front| + |Terminated(last)|)
  {
    hide ReadString;
    TwoSlices(buffer, pos, front, Terminated(last));
    if last.Some? {
      TwoSlices(buffer, pos + |front|, last.value, ['\0']);
      ReadBack(buffer, pos + |front|, last.value);
    }
  }

  lemma TwoSlices(buffer: string, pos: nat, a: string, b: string)
    requires pos + |a| + |b| <= |buffer| && buffer[pos..pos + |a| + |b|] == a + b
    ensures buffer[pos..pos + |a|] == a && buffer[pos + |a|..pos + |a| + |b|] == b
    ensures |b| == 1 ==> buffer[pos + |a|] == b[0]
  {
    var block := buffer[pos..pos + |a| + |b|];
    assert buffer[pos..pos + |a|] == block[..|a|] && buffer[pos + |a|..pos + |a| + |b|] == block[|a|..];
    if |b| == 1 {
      assert block[|a|] == b[0];
    }
  }

  lemma OneMoreRead(s: seq<Option<CString>>, values: seq<Option<nat>>, buffer: string, pos: nat, at: nat)
    requires s != [] && pos <= at <= |buffer|
    requires BlockReads(s[..|s| - 1], values, buffer, pos, at)
    requires var last := s[|s| - 1];
             ExactCopy(if last.None? then None else Some(at), last, buffer, at, at + |Terminated(last)|)
    ensures var last := s[|s| - 1];
            BlockReads(s, values + [if last.None? then None else Some(at)], buffer, pos, at + |Terminated(last)|)
  {
    hide ReadString;
    var front, last := s[..|s| - 1], s[|s| - 1];
    var all := values + [if last.None? then None else Some(at)];
    forall p | 0 <= p < |s|
      ensures ExactCopy(all[p], s[p], buffer, pos, at + |Terminated(last)|)
    {
      if p < |s| - 1 {
        assert ExactCopy(values[p], front[p], buffer, pos, at);
      }
    }
    forall p, q | 0 <= p < q < |s| && s[p].Some? && s[q].Some?
      ensures all[p].Some? && all[q].Some? && all[p].value + |s[p].value| < all[q].value
    {
      assert ExactCopy(values[p], front[p], buffer, pos, at);
      if q < |s| - 1 {
        assert front[q] == s[q] && front[p] == s[p];
      }
    }
  }

  /** A description reports its outcome, and if that is a retrieval all its strings can be read back. */
  ghost predicate ExactDescription(desc: Description, o: Outcome, buffer: string, from: nat) {
    && (desc.reasonCode == ErrorNone <==> o.Retrieved?)
    && (desc.reasonCode == NotAvailable <==> o.Missing?)
    && (desc.reasonCode == Retry <==> o.Deferred?)
    && (o.Retrieved? ==> BlockReads(o.strings, desc.propertyValues, buffer, from, from + Size(o)))
  }

  lemma DescribesReads(desc: Description, was: Description, o: Outcome, buffer: string, pos: nat)
    requires Describes(desc, was, o, buffer, pos)
    ensures ExactDescription(desc, o, buffer, pos)
  {
    if o.Retrieved? {
      PackedReads(o.strings, buffer, pos);
    }
  }

  /** After a retrieval every description marked as retrieved points at exact, terminated copies of its
      strings inside the first `nameBytes` bytes, and no two copies overlap. */
  lemma DescriptionsExact(keys: seq<Key>, nameBytes: nat, was: seq<Description>, descs: seq<Description>,
                          outcomes: seq<Outcome>, text: string, buffer: string)
    requires |outcomes| == |keys| && Written(was, descs, outcomes, text, buffer) && Used(outcomes, |keys|) <= nameBytes
    ensures forall i :: 0 <= i < |keys| ==> ExactDescription(descs[i], outcomes[i], buffer, Used(outcomes, i))
    ensures forall i, j :: 0 <= i < j < |keys| ==> Used(outcomes, i) + Size(outcomes[i]) <= Used(outcomes, j)
    ensures forall i :: 0 <= i < |keys| ==> Used(outcomes, i) + Size(outcomes[i]) <= nameBytes
  {
    forall i | 0 <= i < |keys|
      ensures ExactDescription(descs[i], outcomes[i], buffer, Used(outcomes, i))
      ensures Used(outcomes, i) + Size(outcomes[i]) <= nameBytes
    {
      UsedMonotone(outcomes, i, |keys|);
      assert Describes(descs[i], was[i], outcomes[i], buffer, Used(outcomes, i));
      DescribesReads(descs[i], was[i], outcomes[i], buffer, Used(outcomes, i));
    }
    forall i, j | 0 <= i < j < |keys|
      ensures Used(outcomes, i) + Size(outcomes[i]) <= Used(outcomes, j)
    {
      UsedMonotone(outcomes, i, j);
    }
  }
}

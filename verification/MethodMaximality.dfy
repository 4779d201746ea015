/**
 When a retrieval returns as many descriptions as possible: no set of requested keys whose strings fit the buffer
 is larger than the set that was retrieved.
 */
module MethodMaximality {
  import opened MethodDictionary
  import opened MethodRetrieval

  // ---- sizes of sets of entries ----

  ghost function Weight(t: Table, s: set<Key>): nat
    requires s <= t.Keys
  {
    if s == {} then 0
    else
      var k := Cheapest(t, s);
      NameBytes(t[k]) + Weight(t, s - {k})
  }

  /** An entry of least size. */
  ghost function Cheapest(t: Table, s: set<Key>): (k: Key)
    requires s != {} && s <= t.Keys
    ensures k in s && forall j :: j in s ==> NameBytes(t[k]) <= NameBytes(t[j])
  {
    CheapestExists(t, s);
    var k :| k in s && forall j :: j in s ==> NameBytes(t[k]) <= NameBytes(t[j]);
    k
  }

  lemma Member<T>(s: set<T>) returns (x: T)
    requires s != {}
    ensures x in s
  {
    x :| x in s;
  }

  lemma {:induction false} CheapestExists(t: Table, s: set<Key>)
    requires s != {} && s <= t.Keys
    ensures exists k :: k in s && forall j :: j in s ==> NameBytes(t[k]) <= NameBytes(t[j])
  {
    hide NameBytes;
    var x := Member(s);
    if s == {x} {
      assert x in s && forall j :: j in s ==> NameBytes(t[x]) <= NameBytes(t[j]);
    } else {
      CheapestExists(t, s - {x});
      var k :| k in s - {x} && forall j :: j in s - {x} ==> NameBytes(t[k]) <= NameBytes(t[j]);
      var best := if NameBytes(t[k]) <= NameBytes(t[x]) then k else x;
      assert best in s && forall j :: j in s ==> NameBytes(t[best]) <= NameBytes(t[j]);
    }
  }

  lemma {:induction false} WeightRemove(t: Table, s: set<Key>, k: Key)
    requires s <= t.Keys && k in s
    ensures Weight(t, s) == NameBytes(t[k]) + Weight(t, s - {k})
    decreases |s|
  {
    hide NameBytes;
    var j := Cheapest(t, s);
    if j != k {
      WeightRemove(t, s - {j}, k);
      WeightRemove(t, s - {k}, j);
      assert (s - {j}) - {k} == (s - {k}) - {j};
    }
  }

  /** The `n` smallest sizes in `s`, added up. */
  ghost function Smallest(t: Table, s: set<Key>, n: nat): nat
    requires s <= t.Keys && n <= |s|
  {
    if n == 0 then 0
    else
      var k := Cheapest(t, s);
      NameBytes(t[k]) + Smallest(t, s - {k}, n - 1)
  }

  lemma SmallestUnfold(t: Table, s: set<Key>, n: nat)
    requires s <= t.Keys && 0 < n <= |s|
    ensures var k := Cheapest(t, s); Smallest(t, s, n) == NameBytes(t[k]) + Smallest(t, s - {k}, n - 1)
  {
    hide NameBytes;
  }

  lemma SmallestOfNone(t: Table, s: set<Key>)
    requires s <= t.Keys
    ensures Smallest(t, s, 0) == 0
  {
  }

  /** No set of `n` entries is lighter than the `n` smallest sizes. */
  lemma {:induction false} SmallestIsLeast(t: Table, s: set<Key>, u: set<Key>)
    requires s <= t.Keys && u <= s
    ensures |u| <= |s|
    ensures Smallest(t, s, |u|) <= Weight(t, u)
    decreases |s|
  {
    hide NameBytes, Weight, Smallest;
    SmallestOfNone(t, s);
    Sizes(u, s);
    if u == {} {
      assert |u| == 0;
    } else {
      SmallestUnfold(t, s, |u|);
      var k := Cheapest(t, s);
      var x := if k in u then k else Cheapest(t, u);
      WeightRemove(t, u, x);
      SmallestIsLeast(t, s - {k}, u - {x});
    }
  }

  lemma {:induction false} Sizes(u: set<Key>, s: set<Key>)
    requires u <= s
    ensures |u| <= |s|
  {
    if u != {} {
      var x := Member(u);
      Sizes(u - {x}, s - {x});
    }
  }

  /** Some set of `n` entries has just that weight. */
  lemma {:induction false} SmallestIsReached(t: Table, s: set<Key>, n: nat) returns (u: set<Key>)
    requires s <= t.Keys && n <= |s|
    ensures u <= s && |u| == n && Weight(t, u) == Smallest(t, s, n)
  {
    hide NameBytes, Weight;
    if n == 0 {
      u := {};
      WeightOfNone(t);
    } else {
      var k := Cheapest(t, s);
      u := SmallestIsReached(t, s - {k}, n - 1);
      u := u + {k};
      WeightRemove(t, u, k);
      assert u - {k} == u - {k} + {} && k in u;
    }
  }

  lemma WeightOfNone(t: Table)
    ensures Weight(t, {}) == 0
  {
  }

  lemma {:induction false} WeightGrows(t: Table, u: set<Key>, s: set<Key>)
    requires u <= s <= t.Keys
    ensures Weight(t, u) <= Weight(t, s)
    decreases |s|
  {
    hide NameBytes, Weight;
    if s - u == {} {
      assert u == s;
    } else {
      var x := Member(s - u);
      WeightRemove(t, s, x);
      WeightGrows(t, u, s - {x});
    }
  }

  // ---- what was retrieved ----

  /** The requested keys that are in the dictionary. */
  ghost function Available(t: Table, keys: seq<Key>): (s: set<Key>)
    ensures s <= t.Keys
  {
    set k | k in keys && k in t
  }

  ghost function FetchedKeys(t: Table, keys: seq<Key>, nameBytes: nat): (s: set<Key>)
    ensures s <= Available(t, keys)
  {
    var c := Collect(t, keys, nameBytes, false);
    RetrievedLeave(t, keys, nameBytes, false);
    FetchedAreAvailable(t, keys, nameBytes);
    set k | k in keys && Fetched(keys, c.outcomes, k)
  }

  lemma FetchedAreAvailable(t: Table, keys: seq<Key>, nameBytes: nat)
    ensures forall k :: Fetched(keys, Collect(t, keys, nameBytes, false).outcomes, k) ==> k in keys && k in t
  {
    hide Collect, NameBytes;
    var c := Collect(t, keys, nameBytes, false);
    forall k | Fetched(keys, c.outcomes, k)
      ensures k in keys && k in t
    {
      var i :| 0 <= i < |keys| && keys[i] == k && c.outcomes[i].Retrieved?;
      RetrievedInTable(t, keys, nameBytes, false, i);
    }
  }

  /** No set of available keys that fits the buffer is larger than what was retrieved. */
  ghost predicate MostPossible(t: Table, keys: seq<Key>, nameBytes: nat) {
    NoneLarger(t, Available(t, keys), nameBytes, |FetchedKeys(t, keys, nameBytes)|)
  }

  ghost predicate NoneLarger(t: Table, s: set<Key>, nameBytes: nat, n: nat)
    requires s <= t.Keys
  {
    forall u :: u <= s && Weight(t, u) <= nameBytes ==> |u| <= n
  }

  /** No more than `n` entries fit exactly when there are no more, or even the smallest do not fit. */
  lemma NoneLargerIff(t: Table, s: set<Key>, nameBytes: nat, n: nat)
    requires s <= t.Keys && n <= |s|
    ensures NoneLarger(t, s, nameBytes, n) <==> n == |s| || nameBytes < Smallest(t, s, n + 1)
  {
    hide Weight, Smallest, NameBytes;
    if n < |s| {
      var u := SmallestIsReached(t, s, n + 1);
      assert nameBytes >= Smallest(t, s, n + 1) ==> !NoneLarger(t, s, nameBytes, n);
    }
    if n == |s| || nameBytes < Smallest(t, s, n + 1) {
      forall u | u <= s && Weight(t, u) <= nameBytes
        ensures |u| <= n
      {
        Sizes(u, s);
        if |u| > n {
          TooHeavy(t, s, u, n + 1);
        }
      }
    }
  }

  /** The longest of the first `n` prefixes of the requests whose strings fit the buffer together. */
  function LongestFit(t: Table, keys: seq<Key>, nameBytes: nat, n: nat): (j: nat)
    requires n <= |keys|
    ensures j <= n && Consumption(t, keys[..j]) <= nameBytes
    ensures forall i :: j < i <= n ==> Consumption(t, keys[..i]) > nameBytes
  {
    if n == 0 || Consumption(t, keys[..n]) <= nameBytes then n else LongestFit(t, keys, nameBytes, n - 1)
  }

  /** What is retrieved is what is available of the longest prefix that fits. */
  lemma FetchedIsLongestFit(t: Table, keys: seq<Key>, nameBytes: nat)
    ensures FetchedKeys(t, keys, nameBytes) == Available(t, keys[..LongestFit(t, keys, nameBytes, |keys|)])
  {
    hide Collect, Consumption, FirstDeferred, Fetched, NameBytes, Strings, Packed, Used;
    var j := LongestFit(t, keys, nameBytes, |keys|);
    var c := Collect(t, keys, nameBytes, false);
    LongestPrefixThatFits(t, keys, nameBytes, j);
    if j < |keys| {
      LongestPrefixThatFits(t, keys, nameBytes, j + 1);
    }
    assert FirstDeferred(c.outcomes) == j;
    DeferralSplits(t, keys, nameBytes);
    var front := Collect(t, keys[..j], nameBytes, false);
    RetrievedLeave(t, keys, nameBytes, false);
    RetrievedLeave(t, keys[..j], nameBytes, false);
    FetchedAreAvailable(t, keys, nameBytes);
    FetchedAreAvailable(t, keys[..j], nameBytes);
    assert forall k :: k in t ==> (Fetched(keys, c.outcomes, k) <==> Fetched(keys[..j], front.outcomes, k));
    CompleteFetches(t, keys[..j], nameBytes);
    assert forall k :: k in keys[..j] ==> k in keys;
  }

  /** A call that defers nothing retrieves everything available. */
  lemma CompleteFetches(t: Table, keys: seq<Key>, nameBytes: nat)
    requires Complete(Collect(t, keys, nameBytes, false).outcomes)
    ensures forall k :: k in keys && k in t ==> Fetched(keys, Collect(t, keys, nameBytes, false).outcomes, k)
  {
    hide Collect, FirstDeferred, NameBytes, Strings;
    var c := Collect(t, keys, nameBytes, false);
    forall k | k in keys && k in t
      ensures Fetched(keys, c.outcomes, k)
    {
      var i :| 0 <= i < |keys| && keys[i] == k;
      OutcomeMeant(t, keys, nameBytes, false, i);
      assert !c.outcomes[i].Deferred?;
      if c.outcomes[i].Missing? {
        var h :| 0 <= h < i && keys[..i][h] == k && c.outcomes[..i][h].Retrieved?;
        assert keys[h] == k && c.outcomes[h].Retrieved?;
      }
    }
  }

  /** A retrieval returns as many descriptions as possible if and only if the longest prefix of the requests that fits
      has everything available, or even the smallest sizes, one more than that prefix has, exceed the buffer. */
  lemma MostPossibleIff(t: Table, keys: seq<Key>, nameBytes: nat)
    ensures var s, n := Available(t, keys), |Available(t, keys[..LongestFit(t, keys, nameBytes, |keys|)])|;
      && n <= |s|
      && (MostPossible(t, keys, nameBytes) <==> n == |s| || nameBytes < Smallest(t, s, n + 1))
  {
    hide Available, FetchedKeys, Weight, Smallest, NameBytes, NoneLarger;
    FetchedIsLongestFit(t, keys, nameBytes);
    var s, fetched := Available(t, keys), FetchedKeys(t, keys, nameBytes);
    Sizes(fetched, s);
    NoneLargerIff(t, s, nameBytes, |fetched|);
  }

  /** A set of more than `n` entries weighs at least the `n` smallest sizes. */
  lemma TooHeavy(t: Table, s: set<Key>, u: set<Key>, n: nat)
    requires s <= t.Keys && u <= s && n <= |u|
    ensures n <= |s| && Smallest(t, s, n) <= Weight(t, u)
  {
    hide Weight, Smallest, NameBytes;
    Sizes(u, s);
    var v := SubsetOfSize(u, n);
    SmallestIsLeast(t, s, v);
    WeightGrows(t, v, u);
  }

  lemma {:induction false} SubsetOfSize(u: set<Key>, n: nat) returns (v: set<Key>)
    requires n <= |u|
    ensures v <= u && |v| == n
  {
    if n == |u| {
      v := u;
    } else {
      var x := Member(u);
      v := SubsetOfSize(u - {x}, n);
    }
  }

  // ---- the set that was retrieved is one that fits ----

  /** The strings of the retrieved keys take what the buffer was used for. */
  lemma RetrievedFits(t: Table, keys: seq<Key>, nameBytes: nat)
    ensures Weight(t, FetchedKeys(t, keys, nameBytes))
        == Used(Collect(t, keys, nameBytes, false).outcomes, |keys|) <= nameBytes
  {
    hide Collect, Weight, NameBytes;
    FetchedWeight(t, t, keys, nameBytes, false);
    FetchedAreAvailable(t, keys, nameBytes);
    var c := Collect(t, keys, nameBytes, false);
    assert FetchedKeys(t, keys, nameBytes) == FetchedSet(keys, c.outcomes);
  }

  ghost function FetchedSet(keys: seq<Key>, outcomes: seq<Outcome>): set<Key>
    requires |keys| == |outcomes|
  {
    set k | k in keys && Fetched(keys, outcomes, k)
  }

  /** `now` is what earlier requests left of `t`. */
  lemma {:induction false} FetchedWeight(t: Table, now: Table, keys: seq<Key>, available: nat, retrying: bool)
    requires forall k :: k in now ==> k in t && now[k] == t[k]
    ensures var c := Collect(now, keys, available, retrying);
            && FetchedSet(keys, c.outcomes) <= now.Keys
            && Weight(t, FetchedSet(keys, c.outcomes)) == Used(c.outcomes, |keys|) <= available
    decreases |keys|
  {
    hide NameBytes, Packed, Strings, Weight, Size, Used, FetchedSet;
    if keys == [] {
      NothingWeighed(t, now, available, retrying);
    } else {
      var o := NextOutcome(now, keys[0], available, retrying);
      NextFits(now, keys[0], available, retrying);
      var next, left := NextTable(now, keys[0], o), available - Size(o);
      var rest := Collect(next, keys[1..], left, retrying || o.Deferred?);
      FetchedWeight(t, next, keys[1..], left, retrying || o.Deferred?);
      UsedCons(o, rest.outcomes, |rest.outcomes|);
      assert Collect(now, keys, available, retrying).outcomes == [o] + rest.outcomes;
      FetchedOneMore(t, now, keys, o, rest.outcomes);
    }
  }

  lemma FetchedOneMore(t: Table, now: Table, keys: seq<Key>, o: Outcome, rest: seq<Outcome>)
    requires (forall k :: k in now ==> k in t && now[k] == t[k]) && |keys| == |rest| + 1
    requires FetchedSet(keys[1..], rest) <= NextTable(now, keys[0], o).Keys
    requires o.Retrieved? ==> keys[0] in now && Size(o) == NameBytes(now[keys[0]])
    requires !o.Retrieved? ==> Size(o) == 0
    ensures FetchedSet(keys, [o] + rest) <= now.Keys
    ensures Weight(t, FetchedSet(keys, [o] + rest)) == Size(o) + Weight(t, FetchedSet(keys[1..], rest))
  {
    hide NameBytes, Weight, Size, FetchedSet;
    FetchedSetCons(keys, o, rest);
    var f := FetchedSet(keys[1..], rest);
    assert forall k :: k in f ==> k in NextTable(now, keys[0], o);
    assert forall k :: k in f ==> k in now && k in t;
    if o.Retrieved? {
      assert keys[0] !in f && f + {keys[0]} <= t.Keys;
      assert (f + {keys[0]}) - {keys[0]} == f;
      WeightRemove(t, f + {keys[0]}, keys[0]);
    } else {
      assert f + {} == f;
    }
  }

  lemma NothingWeighed(t: Table, now: Table, available: nat, retrying: bool)
    ensures var c := Collect(now, [], available, retrying);
            FetchedSet([], c.outcomes) == {} && Weight(t, {}) == Used(c.outcomes, 0) == 0
  {
  }

  lemma FetchedSetCons(keys: seq<Key>, o: Outcome, rest: seq<Outcome>)
    requires |keys| == |rest| + 1
    ensures FetchedSet(keys, [o] + rest) == FetchedSet(keys[1..], rest) + (if o.Retrieved? then {keys[0]} else {})
  {
    var all := [o] + rest;
    assert all[1..] == rest;
    forall k
      ensures Fetched(keys, all, k) <==> ((keys[0] == k && o.Retrieved?) || Fetched(keys[1..], rest, k))
    {
      FetchedCons(keys, all, k);
    }
    forall k | Fetched(keys[1..], rest, k)
      ensures k in keys[1..] && k in keys
    {
      var i :| 0 <= i < |rest| && keys[1..][i] == k && rest[i].Retrieved?;
      assert keys[i + 1] == k;
    }
    assert forall k :: k in keys[1..] ==> k in keys;
  }
}

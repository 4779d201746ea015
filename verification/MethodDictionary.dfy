/**
 The method dictionary: a keyed store whose entries are deleted when they are retrieved, whose strings
 are packed into the caller's buffer, and whose retrieval flips to counting once the buffer is full.
 The hash table is taken by its contract, as a map from key to entry.
 */
module MethodDictionary {
  import opened Options
  import opened Words

  type CString = s: string | '\0' !in s

  type Key = int

  /** A property pointer. Copies made by the dictionary never have the address of a string that a caller
      passes in; two pointers of callers are the same when their addresses are. */
  datatype Pointer = Null | Callers(address: int, text: CString) | Owned(text: CString)

  /** The property values of one entry, in property order. */
  type Entry = seq<Pointer>

  type Table = map<Key, Entry>

  datatype ErrorCode = ErrorNone | OutOfNativeMemory | NotAvailable | Retry | Internal | FailedToAttach

  // ---- strings of an entry ----

  function Strings(e: Entry): (s: seq<Option<CString>>)
    ensures |s| == |e|
  {
    seq(|e|, i requires 0 <= i < |e| => TextOf(e[i]))
  }

  /** One string with its terminator. */
  function Terminated(s: Option<CString>): string {
    if s.None? then [] else s.value + ['\0']
  }

  /** All strings, each with its terminator, one after the other. */
  function Packed(s: seq<Option<CString>>): string {
    if s == [] then [] else Packed(s[..|s| - 1]) + Terminated(s[|s| - 1])
  }

  /** Where each string lands when they are packed from `pos` on. */
  function Offsets(s: seq<Option<CString>>, pos: nat): (r: seq<Option<nat>>)
    ensures |r| == |s|
  {
    if s == [] then []
    else
      var front := s[..|s| - 1];
      Offsets(front, pos) + [if s[|s| - 1].None? then None else Some(pos + |Packed(front)|)]
  }

  function NameBytes(e: Entry): nat {
    |Packed(Strings(e))|
  }

  lemma StringsPrefix(e: Entry, i: nat, pos: nat)
    requires i < |e|
    ensures Strings(e[..i + 1])[..i] == Strings(e[..i]) == Strings(e)[..i]
    ensures Packed(Strings(e[..i + 1])) == Packed(Strings(e[..i])) + Terminated(Strings(e)[i])
    ensures Offsets(Strings(e[..i + 1]), pos)
         == Offsets(Strings(e[..i]), pos) + [if e[i].Null? then None else Some(pos + |Packed(Strings(e[..i]))|)]
  {
    hide Strings;
    var s := Strings(e[..i + 1]);
    StringsSlice(e, i);
    assert s[..|s| - 1] == Strings(e[..i]);
  }

  lemma StringsSlice(e: Entry, i: nat)
    requires i < |e|
    ensures Strings(e[..i + 1])[..i] == Strings(e[..i]) == Strings(e)[..i]
    ensures Strings(e[..i + 1])[i] == Strings(e)[i] == if e[i].Null? then None else Some(e[i].text)
  {
  }

  // ---- the dictionary as a value ----

  datatype Dictionary = Dictionary(table: Table, currentBytes: int, maxBytes: int, maxEntries: nat)

  /** The two pointers are equal as machine addresses. */
  predicate SamePointer(stored: Pointer, given: Pointer) {
    match (stored, given)
    case (Null, Null) => true
    case (Callers(a, _), Callers(b, _)) => a == b
    case _ => false
  }

  predicate SamePointers(stored: Entry, given: Entry) {
    |stored| == |given| && forall i :: 0 <= i < |given| ==> SamePointer(stored[i], given[i])
  }

  /** The first property whose copy cannot be allocated, or `|given|`. */
  function FirstFailure(given: Entry, copySucceeds: seq<bool>): (f: nat)
    requires |copySucceeds| == |given|
    ensures f <= |given|
  {
    if given == [] then 0
    else
      var n := |given| - 1;
      var f := FirstFailure(given[..n], copySucceeds[..n]);
      if f < n then f else if !given[n].Null? && !copySucceeds[n] then n else n + 1
  }

  /** Copying the strings of `given` over `dest`, and the state in which a failed copy leaves `dest`. */
  function Duplicated(dest: Entry, given: Entry, copySucceeds: seq<bool>): (e: Entry)
    requires |dest| == |given| == |copySucceeds|
    ensures |e| == |dest|
  {
    var f := FirstFailure(given, copySucceeds);
    seq(|dest|, i requires 0 <= i < |dest| =>
      if f == |given| then (if given[i].Null? then dest[i] else Owned(given[i].text))
      else if i <= f then Null
      else dest[i])
  }

  function Cleaned(e: Entry): (r: Entry)
    ensures |r| == |e|
  {
    seq(|e|, i => Null)
  }

  /** What `hashTableAdd` leaves under the key before its strings are looked at. */
  function Added(t: Table, key: Key, given: Entry): Entry {
    if key in t then t[key] else given
  }

  predicate Reused(t: Table, key: Key, given: Entry) {
    !SamePointers(Added(t, key, given), given)
  }

  /** The entry an insertion leaves under its key. */
  function Stored(t: Table, key: Key, given: Entry, copySucceeds: seq<bool>): Entry
    requires |copySucceeds| == |given| && (key in t ==> |t[key]| == |given|)
  {
    var added := Added(t, key, given);
    Duplicated(if Reused(t, key, given) then Cleaned(added) else added, given, copySucceeds)
  }

  lemma StoredUnfold(t: Table, key: Key, given: Entry, copySucceeds: seq<bool>)
    requires |copySucceeds| == |given| && (key in t ==> |t[key]| == |given|)
    ensures var added := if key in t then t[key] else given;
      && Reused(t, key, given) == !SamePointers(added, given)
      && Stored(t, key, given, copySucceeds)
         == Duplicated(if SamePointers(added, given) then added else Cleaned(added), given, copySucceeds)
  {
    hide SamePointers, Duplicated, Cleaned;
  }

  function Inserted(d: Dictionary, size: nat, key: Key, given: Entry, addSucceeds: bool,
                    copySucceeds: seq<bool>): Dictionary
    requires |copySucceeds| == |given| && (key in d.table ==> |d.table[key]| == |given|)
  {
    if !addSucceeds then d
    else
      var stored := Stored(d.table, key, given, copySucceeds);
      var table := d.table[key := stored];
      if FirstFailure(given, copySucceeds) < |given| then d.(table := table)
      else
        var added := UInt64(d.currentBytes + (if Reused(d.table, key, given) then 0 else size) + NameBytes(stored));
        if added > d.maxBytes then Dictionary(table, added, added, |table|)
        else d.(table := table, currentBytes := added)
  }

  // ---- retrieval as a value ----

  datatype Outcome = Retrieved(strings: seq<Option<CString>>) | Missing | Deferred

  /** What a retrieval yields: one outcome per requested key, the table it leaves, the bytes still owed. */
  datatype Collection = Collection(outcomes: seq<Outcome>, table: Table, owed: nat)

  function Collect(t: Table, keys: seq<Key>, available: nat, retrying: bool): (c: Collection)
    ensures |c.outcomes| == |keys|
    decreases |keys|
  {
    if keys == [] then Collection([], t, 0)
    else
      var o := NextOutcome(t, keys[0], available, retrying);
      Prepend(o, if o.Deferred? then NameBytes(t[keys[0]]) else 0,
              Collect(NextTable(t, keys[0], o), keys[1..], available - Size(o), retrying || o.Deferred?))
  }

  function Prepend(o: Outcome, owed: nat, c: Collection): Collection {
    Collection([o] + c.outcomes, c.table, owed + c.owed)
  }

  /** The first deferred request, or `|outcomes|`. */
  function FirstDeferred(outcomes: seq<Outcome>): (k: nat)
    ensures k <= |outcomes|
    ensures k < |outcomes| ==> outcomes[k].Deferred?
    ensures forall i :: 0 <= i < k ==> !outcomes[i].Deferred?
  {
    if outcomes == [] then 0
    else
      var n := |outcomes| - 1;
      var k := FirstDeferred(outcomes[..n]);
      if k < n then k else if outcomes[n].Deferred? then n else n + 1
  }

  /** The first retrieved entry that the hash table fails to remove, or `|outcomes|`. */
  function FirstStuck(outcomes: seq<Outcome>, removeSucceeds: seq<bool>): (b: nat)
    requires |removeSucceeds| == |outcomes|
    ensures b <= |outcomes|
    ensures b < |outcomes| ==> outcomes[b].Retrieved? && !removeSucceeds[b]
    ensures forall i :: 0 <= i < b ==> outcomes[i].Retrieved? ==> removeSucceeds[i]
  {
    if outcomes == [] then 0
    else
      var n := |outcomes| - 1;
      var b := FirstStuck(outcomes[..n], removeSucceeds[..n]);
      if b < n then b else if outcomes[n].Retrieved? && !removeSucceeds[n] then n else n + 1
  }

  function Size(o: Outcome): nat {
    if o.Retrieved? then |Packed(o.strings)| else 0
  }

  /** The buffer bytes used by the first `n` outcomes. */
  function Used(outcomes: seq<Outcome>, n: nat): nat
    requires n <= |outcomes|
  {
    if n == 0 then 0 else Used(outcomes, n - 1) + Size(outcomes[n - 1])
  }

  /** The dictionary bytes given back by the first `n` outcomes. */
  function Released(outcomes: seq<Outcome>, size: nat, n: nat): nat
    requires n <= |outcomes|
  {
    if n == 0 then 0
    else Released(outcomes, size, n - 1)
         + Size(outcomes[n - 1]) + (if outcomes[n - 1].Retrieved? then size else 0)
  }

  /** The table that a retrieval leaves and the bytes it gives back. It stops at an entry that cannot be removed,
      which stays behind with all its strings gone. */
  datatype Yield = Yield(table: Table, released: nat)

  function Yielded(t: Table, keys: seq<Key>, nameBytes: nat, size: nat, removeSucceeds: seq<bool>): Yield
    requires |removeSucceeds| == |keys|
  {
    var c := Collect(t, keys, nameBytes, false);
    var b := FirstStuck(c.outcomes, removeSucceeds);
    if b == |keys| then Yield(c.table, Released(c.outcomes, size, b))
    else
      var front := Collect(t, keys[..b], nameBytes, false);
      RetrievedInTable(t, keys, nameBytes, false, b);
      Yield(front.table[keys[b] := Cleaned(t[keys[b]])], Released(front.outcomes, size, b) + NameBytes(t[keys[b]]))
  }

  lemma {:induction false} RetrievedInTable(t: Table, keys: seq<Key>, available: nat, retrying: bool, i: nat)
    requires i < |keys| && Collect(t, keys, available, retrying).outcomes[i].Retrieved?
    ensures keys[i] in t
  {
    hide Packed, Strings, NameBytes;
    if i > 0 {
      var o := NextOutcome(t, keys[0], available, retrying);
      NextFits(t, keys[0], available, retrying);
      RetrievedInTable(NextTable(t, keys[0], o), keys[1..], available - Size(o), retrying || o.Deferred?, i - 1);
    }
  }

  lemma NextFits(t: Table, key: Key, available: nat, retrying: bool)
    ensures var o := NextOutcome(t, key, available, retrying);
            && Size(o) <= available
            && (!o.Retrieved? ==> Size(o) == 0)
            && (o.Deferred? ==> key in t)
            && (key in t && !o.Deferred? ==> Size(o) == NameBytes(t[key]) && o.Retrieved?)
            && (key !in t ==> o.Missing? && Size(o) == 0)
            && (o.Deferred? ==> retrying || available < NameBytes(t[key]))
  {
  }

  /** A retrieval, one request on. */
  lemma Unfolded(t: Table, keys: seq<Key>, available: nat, retrying: bool)
    requires keys != []
    ensures var o := NextOutcome(t, keys[0], available, retrying);
            && Size(o) <= available
            && (o.Deferred? ==> keys[0] in t)
            && Collect(t, keys, available, retrying)
               == Prepend(o, if o.Deferred? then NameBytes(t[keys[0]]) else 0,
                          Collect(NextTable(t, keys[0], o), keys[1..], available - Size(o), retrying || o.Deferred?))
  {
    hide NextOutcome, NextTable, Size, NameBytes, Prepend;
    NextFits(t, keys[0], available, retrying);
  }

  /** What the loop does with the next key. */
  function NextOutcome(t: Table, key: Key, available: nat, retrying: bool): Outcome {
    if key !in t then Missing
    else if retrying || NameBytes(t[key]) > available then Deferred
    else Retrieved(Strings(t[key]))
  }

  function NextTable(t: Table, key: Key, o: Outcome): Table {
    if o.Retrieved? then t - {key} else t
  }

  /** The byte counter after a retrieval with these outcomes. */
  function BytesAfter(bytes: int, outcomes: seq<Outcome>, size: nat): int {
    UInt64(bytes - Released(outcomes, size, |outcomes|))
  }

  /** One element of the caller's description array. */
  datatype Description = Description(reasonCode: ErrorCode, propertyValues: seq<Option<nat>>)

  /** A description reports its outcome; when retrieved, its pointers name exact copies packed from `pos` on. */
  predicate Describes(desc: Description, before: Description, outcome: Outcome, buffer: string, pos: nat) {
    match outcome
    case Missing => desc == before.(reasonCode := NotAvailable)
    case Deferred => desc == before.(reasonCode := Retry)
    case Retrieved(strings) =>
      && desc == Description(ErrorNone, Offsets(strings, pos))
      && pos + |Packed(strings)| <= |buffer|
      && buffer[pos..pos + |Packed(strings)|] == Packed(strings)
  }

  class MethodDictionary {
    const numProperties: nat
    const sizeofEntry: nat
    var table: Table
    var currentBytes: int
    var maxBytes: int
    var maxEntries: nat

    ghost predicate Valid()
      reads this
    {
      (forall k :: k in table ==> |table[k]| == numProperties) && 0 <= currentBytes < TWO_64
    }

    ghost function State(): Dictionary
      reads this
    {
      Dictionary(table, currentBytes, maxBytes, maxEntries)
    }

    constructor (numProperties: nat, sizeofEntry: nat)
      ensures Valid() && State() == Dictionary(map[], 0, 0, 0)
      ensures this.numProperties == numProperties && this.sizeofEntry == sizeofEntry
    {
      this.numProperties, this.sizeofEntry := numProperties, sizeofEntry;
      table, currentBytes, maxBytes, maxEntries := map[], 0, 0, 0;
    }

    method CountEntryNameBytesNeeded(entry: Entry) returns (needed: nat)
      requires |entry| == numProperties
      ensures needed == NameBytes(entry)
    {
      needed := 0;
      for i := 0 to numProperties
        invariant needed == NameBytes(entry[..i])
      {
        StringsPrefix(entry, i, 0);
        if !entry[i].Null? {
          needed := needed + |entry[i].text| + 1;
        }
      }
      assert entry[..numProperties] == entry;
    }

    method EntryValueEquals(stored: Entry, given: Entry) returns (same: bool)
      requires |stored| == |given| == numProperties
      ensures same == SamePointers(stored, given)
    {
      for i := 0 to numProperties
        invariant forall j :: 0 <= j < i ==> SamePointer(stored[j], given[j])
      {
        if !SamePointer(stored[i], given[i]) {
          return false;
        }
      }
      return true;
    }

    method DupEntryStrings(dest: Entry, given: Entry, copySucceeds: seq<bool>) returns (entry: Entry, rc: ErrorCode)
      requires |dest| == |given| == |copySucceeds| == numProperties
      ensures entry == Duplicated(dest, given, copySucceeds)
      ensures rc == if FirstFailure(given, copySucceeds) == |given| then ErrorNone else OutOfNativeMemory
    {
      entry := dest;
      for i := 0 to numProperties
        invariant |entry| == numProperties
        invariant FirstFailure(given[..i], copySucceeds[..i]) == i
        invariant forall j :: 0 <= j < i ==> entry[j] == if given[j].Null? then dest[j] else Owned(given[j].text)
        invariant forall j :: i <= j < numProperties ==> entry[j] == dest[j]
      {
        assert given[..i + 1][..i] == given[..i] && copySucceeds[..i + 1][..i] == copySucceeds[..i];
        if !given[i].Null? {
          if copySucceeds[i] {
            entry := entry[i := Owned(given[i].text)];
          } else {
            FailureStays(given, copySucceeds, i);
            entry := entry[i := Null];
            for j := 0 to i
              invariant |entry| == numProperties
              invariant forall k :: 0 <= k < j ==> entry[k] == Null
              invariant forall k :: i <= k < numProperties ==> entry[k] == if k == i then Null else dest[k]
            {
              entry := entry[j := Null];
            }
            return entry, OutOfNativeMemory;
          }
        }
      }
      assert given[..numProperties] == given && copySucceeds[..numProperties] == copySucceeds;
      rc := ErrorNone;
    }

    method CleanupEntryStrings(entry: Entry) returns (cleaned: Entry)
      requires |entry| == numProperties
      ensures cleaned == Cleaned(entry)
    {
      cleaned := entry;
      for i := 0 to numProperties
        invariant |cleaned| == numProperties
        invariant forall j :: 0 <= j < i ==> cleaned[j] == Null
      {
        cleaned := cleaned[i := Null];
      }
    }

    /** Inserts or replaces the entry of `key`. The flags say whether attaching the native thread, entering
        the monitor, adding to the hash table and each string copy succeed. */
    method Insert(key: Key, given: Entry, attachSucceeds: bool, lockSucceeds: bool, addSucceeds: bool,
                  copySucceeds: seq<bool>)
      returns (rc: ErrorCode)
      requires Valid() && |given| == |copySucceeds| == numProperties
      modifies this
      ensures Valid()
      ensures State() == if attachSucceeds && lockSucceeds
                         then Inserted(old(State()), sizeofEntry, key, given, addSucceeds, copySucceeds)
                         else old(State())
      ensures rc == if !attachSucceeds then FailedToAttach
                    else if !lockSucceeds then Internal
                    else if !addSucceeds || FirstFailure(given, copySucceeds) < |given| then OutOfNativeMemory
                    else ErrorNone
    {
      if !attachSucceeds {
        return FailedToAttach;
      }
      if !lockSucceeds {
        return Internal;
      }
      if !addSucceeds {
        return OutOfNativeMemory;
      }
      rc := InsertAdded(key, given, copySucceeds);
    }

    /** The insertion once the key is in the hash table. */
    method InsertAdded(key: Key, given: Entry, copySucceeds: seq<bool>) returns (rc: ErrorCode)
      requires Valid() && |given| == |copySucceeds| == numProperties
      modifies this
      ensures Valid()
      ensures State() == Inserted(old(State()), sizeofEntry, key, given, true, copySucceeds)
      ensures rc == if FirstFailure(given, copySucceeds) < |given| then OutOfNativeMemory else ErrorNone
    {
      hide NameBytes, SamePointers, Duplicated, Cleaned, Stored, Reused, FirstFailure, UInt64;
      StoredUnfold(table, key, given, copySucceeds);
      var newEntry := if key in table then table[key] else given;
      var reusedEntry := false;
      var same := EntryValueEquals(newEntry, given);
      if !same {
        newEntry := CleanupEntryStrings(newEntry);
        reusedEntry := true;
      }
      newEntry, rc := DupEntryStrings(newEntry, given, copySucceeds);
      assert newEntry == Stored(table, key, given, copySucceeds) && reusedEntry == Reused(table, key, given);
      table := table[key := newEntry];
      if rc == ErrorNone {
        Account(newEntry, reusedEntry);
      }
    }

    /** Counts a freshly stored entry, and its table slot unless that was there before. */
    method Account(newEntry: Entry, reusedEntry: bool)
      requires |newEntry| == numProperties
      modifies this`currentBytes, this`maxBytes, this`maxEntries
      ensures currentBytes == UInt64(old(currentBytes) + (if reusedEntry then 0 else sizeofEntry) + NameBytes(newEntry))
      ensures maxBytes == if currentBytes > old(maxBytes) then currentBytes else old(maxBytes)
      ensures maxEntries == if currentBytes > old(maxBytes) then |table| else old(maxEntries)
    {
      var needed := CountEntryNameBytesNeeded(newEntry);
      currentBytes := UInt64(currentBytes + (if reusedEntry then 0 else sizeofEntry) + needed);
      if currentBytes > maxBytes {
        maxBytes := currentBytes;
        maxEntries := |table|;
      }
    }

    /** Copies the strings of `entry` to `buffer` from `pos` on and returns the pointers to the copies. */
    method CopyEntryNameBytes(entry: Entry, buffer: array<char>, pos: nat) returns (values: seq<Option<nat>>)
      requires |entry| == numProperties && pos + NameBytes(entry) <= buffer.Length
      modifies buffer
      ensures values == Offsets(Strings(entry), pos)
      ensures buffer[..] == Spliced(old(buffer[..]), pos, Packed(Strings(entry)))
    {
      values := [];
      var at := pos;
      ghost var start := buffer[..];
      for i := 0 to numProperties
        invariant CopiedUpTo(entry, i, start, buffer[..], pos, at, values)
      {
        ghost var now := buffer[..];
        CopiedStep(entry, i, start, now, pos, at, values);
        var value;
        value, at := CopyProperty(entry[i], buffer, at);
        values := values + [value];
      }
      assert entry[..numProperties] == entry;
    }

    /** Copies out an entry that fits, gives its string bytes back and clears its strings. */
    method CopyOut(key: Key, buffer: array<char>, pos: nat) returns (values: seq<Option<nat>>)
      requires Valid() && key in table && pos + NameBytes(table[key]) <= buffer.Length
      modifies this`table, this`currentBytes, buffer
      ensures Valid()
      ensures table == old(table)[key := Cleaned(old(table)[key])]
      ensures currentBytes == UInt64(old(currentBytes) - NameBytes(old(table)[key]))
      ensures values == Offsets(Strings(old(table)[key]), pos)
      ensures buffer[..] == Spliced(old(buffer[..]), pos, Packed(Strings(old(table)[key])))
    {
      var entry := table[key];
      var needed := CountEntryNameBytesNeeded(entry);
      values := CopyEntryNameBytes(entry, buffer, pos);
      currentBytes := UInt64(currentBytes - needed);
      var cleaned := CleanupEntryStrings(entry);
      table := table[key := cleaned];
    }

    /** Copies out and deletes an entry that fits. */
    method Retrieve(key: Key, buffer: array<char>, pos: nat) returns (values: seq<Option<nat>>)
      requires Valid() && key in table && pos + NameBytes(table[key]) <= buffer.Length
      modifies this`table, this`currentBytes, buffer
      ensures Valid()
      ensures table == old(table) - {key}
      ensures currentBytes == UInt64(old(currentBytes) - NameBytes(old(table)[key]) - sizeofEntry)
      ensures values == Offsets(Strings(old(table)[key]), pos)
      ensures buffer[..] == Spliced(old(buffer[..]), pos, Packed(Strings(old(table)[key])))
    {
      hide Strings, NameBytes, Offsets, Packed, Spliced, Cleaned, UInt64;
      values := CopyOut(key, buffer, pos);
      table := table - {key};
      assert table == old(table) - {key};
      UInt64Absorbs(old(currentBytes) - NameBytes(old(table)[key]), 0 - sizeofEntry);
      currentBytes := UInt64(currentBytes - sizeofEntry);
    }

    /** One turn of the retrieval loop. */
    method Fetch(key: Key, desc: Description, buffer: array<char>, pos: nat, available: nat, retrying: bool)
      returns (newDesc: Description, ghost outcome: Outcome,
               newPos: nat, newAvailable: nat, newRetrying: bool, owed: nat)
      requires Valid() && pos + available <= buffer.Length
      modifies this`table, this`currentBytes, buffer
      ensures Valid()
      ensures outcome == NextOutcome(old(table), key, available, retrying)
      ensures table == NextTable(old(table), key, outcome)
      ensures currentBytes == AfterOutcome(old(currentBytes), outcome, sizeofEntry)
      ensures newDesc == NewDescription(desc, outcome, pos)
      ensures newPos == pos + Size(outcome) && newAvailable == available - Size(outcome)
      ensures newRetrying == (retrying || outcome.Deferred?)
      ensures owed == if outcome.Deferred? then NameBytes(old(table)[key]) else 0
      ensures buffer[..] == NewBuffer(old(buffer[..]), outcome, pos)
    {
      outcome := NextOutcome(table, key, available, retrying);
      newPos, newAvailable, newRetrying, owed := pos, available, retrying, 0;
      if key !in table {
        newDesc := desc.(reasonCode := NotAvailable);
      } else {
        var needed := CountEntryNameBytesNeeded(table[key]);
        if retrying {
          newDesc := desc.(reasonCode := Retry);
          owed := needed;
        } else if needed <= available {
          var values := Retrieve(key, buffer, pos);
          newDesc := Description(ErrorNone, values);
          newPos := pos + needed;
          newAvailable := available - needed;
        } else {
          newRetrying := true;
          newDesc := desc.(reasonCode := Retry);
          owed := needed;
        }
      }
    }

    /** The retrieval loop under the lock. It is left early when an entry that was copied out cannot be removed;
        `before` is then the state in front of that entry. */
    method CollectAll(keys: seq<Key>, descs: array<Description>, buffer: array<char>, nameBytes: nat,
                      removeSucceeds: seq<bool>)
      returns (rc: ErrorCode, first: nat, owed: nat, ghost done: seq<Outcome>, ghost pos: nat, ghost available: nat,
               ghost before: Snapshot)
      requires Valid() && |keys| == |removeSucceeds| && |keys| <= descs.Length && nameBytes <= buffer.Length
      modifies this`table, this`currentBytes, descs, buffer
      ensures Valid() && rc in {ErrorNone, Retry, Internal} && |done| <= |keys| && Unstuck(done, removeSucceeds)
      ensures rc != Internal ==>
        && |done| == |keys|
        && Loop(old(Call(table, keys, nameBytes, sizeofEntry, currentBytes, descs[..], buffer[..])),
                done, table, currentBytes, descs[..], buffer[..], pos, available, rc == Retry, first, owed)
      ensures rc == Internal ==>
        && first == |done| < |keys| && !removeSucceeds[|done|]
        && Stopped(old(Call(table, keys, nameBytes, sizeofEntry, currentBytes, descs[..], buffer[..])),
                   done, before, Snapshot(table, currentBytes, descs[..], buffer[..]), pos, available, owed)
    {
      hide Loop, NextOutcome, NextTable, AfterOutcome, NewDescription, NewBuffer, Size, NameBytes, Offsets, Strings,
        Packed, Spliced, Cleaned, Unstuck;
      var nameBufferPos, nameBytesAvailable: nat := 0, nameBytes;
      rc, first, owed, done := ErrorNone, 0, 0, [];
      ghost var call := Call(table, keys, nameBytes, sizeofEntry, currentBytes, descs[..], buffer[..]);
      before, pos, available := Snapshot(table, currentBytes, descs[..], buffer[..]), 0, nameBytes;
      LoopStart(call);
      UnstuckStart(removeSucceeds);
      for i := 0 to |keys|
        invariant Valid() && rc in {ErrorNone, Retry} && i == |done| && Unstuck(done, removeSucceeds)
        invariant Loop(call, done, table, currentBytes, descs[..], buffer[..],
                       nameBufferPos, nameBytesAvailable, rc == Retry, first, owed)
      {
        before := Snapshot(table, currentBytes, descs[..], buffer[..]);
        pos, available := nameBufferPos, nameBytesAvailable;
        LoopStep(call, done, before, nameBufferPos, nameBytesAvailable, rc == Retry, first, owed);
        var stuck := IsStuck(keys[i], nameBytesAvailable, rc == Retry, removeSucceeds[i]);
        if stuck {
          var values := CopyOut(keys[i], buffer, nameBufferPos);
          descs[i] := Description(Internal, values);
          assert descs[..] == before.descs[i := Description(Internal, values)];
          StoppedHere(call, done, before, nameBufferPos, nameBytesAvailable, first, owed);
          rc, first := Internal, i;
          return;
        }
        var desc, outcome, newPos, newAvailable, retrying, more :=
          Fetch(keys[i], descs[i], buffer, nameBufferPos, nameBytesAvailable, rc == Retry);
        descs[i] := desc;
        assert descs[..] == before.descs[i := desc];
        if retrying && rc != Retry {
          rc := Retry;
          first := i;
        }
        owed := owed + more;
        nameBufferPos, nameBytesAvailable := newPos, newAvailable;
        UnstuckStep(done, outcome, removeSucceeds);
        done := done + [outcome];
      }
      pos, available := nameBufferPos, nameBytesAvailable;
    }

    /** The next entry is copied out but then cannot be removed. */
    method IsStuck(key: Key, available: nat, retrying: bool, removeSucceeds: bool) returns (stuck: bool)
      requires Valid()
      ensures stuck <==> NextOutcome(table, key, available, retrying).Retrieved? && !removeSucceeds
      ensures stuck ==> key in table && NameBytes(table[key]) <= available && !retrying
    {
      stuck := false;
      if key in table && !retrying && !removeSucceeds {
        var needed := CountEntryNameBytesNeeded(table[key]);
        stuck := needed <= available;
      }
    }

    /** Retrieves descriptions until one does not fit, then only counts. The flags say whether the monitor can be
        entered and whether each entry that is copied out can be removed. */
    method GetEntries(keys: seq<Key>, descs: array<Description>, buffer: array<char>, nameBytes: nat,
                      lockSucceeds: bool, removeSucceeds: seq<bool>)
      returns (rc: ErrorCode, firstRetryMethod: Option<nat>, nameBytesRemaining: Option<nat>)
      requires Valid() && |keys| == |removeSucceeds| && |keys| <= descs.Length && nameBytes <= buffer.Length
      modifies this`table, this`currentBytes, descs, buffer
      ensures Valid()
      ensures !lockSucceeds ==>
        && rc == Internal && State() == old(State()) && descs[..] == old(descs[..]) && buffer[..] == old(buffer[..])
        && firstRetryMethod == None == nameBytesRemaining
      ensures lockSucceeds ==>
        var y := Yielded(old(table), keys, nameBytes, sizeofEntry, removeSucceeds);
        && table == y.table && currentBytes == UInt64(old(currentBytes) - y.released)
        && Answered(old(Call(table, keys, nameBytes, sizeofEntry, currentBytes, descs[..], buffer[..])), removeSucceeds,
                    descs[..], buffer[..], rc, firstRetryMethod, nameBytesRemaining)
    {
      hide *;
      firstRetryMethod, nameBytesRemaining := None, None;
      if !lockSucceeds {
        return Internal, firstRetryMethod, nameBytesRemaining;
      }
      ghost var call := Call(table, keys, nameBytes, sizeofEntry, currentBytes, descs[..], buffer[..]);
      var first, owed;
      ghost var done, pos, available, before;
      rc, first, owed, done, pos, available, before := CollectAll(keys, descs, buffer, nameBytes, removeSucceeds);
      ghost var now := Snapshot(table, currentBytes, descs[..], buffer[..]);
      if rc == Internal {
        firstRetryMethod := Some(first);
        AnsweredStopped(call, done, before, now, pos, available, owed, removeSucceeds);
      } else {
        if rc == Retry {
          firstRetryMethod := Some(first);
          nameBytesRemaining := Some(owed);
        }
        AnsweredDone(call, done, now, pos, available, rc == Retry, first, owed, removeSucceeds);
      }
    }
  }

  /** What the caller of a retrieval is told. Without a stuck entry, the code, the first deferred request and the bytes
      still owed; with one, its position, and its description written out but marked. */
  ghost predicate Answered(c: Call, removeSucceeds: seq<bool>, descs: seq<Description>, buffer: string,
                           rc: ErrorCode, firstRetryMethod: Option<nat>, nameBytesRemaining: Option<nat>)
    requires |removeSucceeds| == |c.keys|
  {
    var whole := Collect(c.table, c.keys, c.nameBytes, false);
    var b := FirstStuck(whole.outcomes, removeSucceeds);
    if b == |c.keys| then
      && Written(c.descs, descs, whole.outcomes, c.buffer, buffer) && Used(whole.outcomes, b) <= c.nameBytes
      && rc == (if FirstDeferred(whole.outcomes) < b then Retry else ErrorNone)
      && firstRetryMethod == (if rc == Retry then Some(FirstDeferred(whole.outcomes)) else None)
      && nameBytesRemaining == (if rc == Retry then Some(whole.owed) else None)
    else
      && b < |descs| && descs[b].reasonCode == Internal
      && Written(c.descs, descs[b := descs[b].(reasonCode := ErrorNone)], whole.outcomes[..b + 1], c.buffer, buffer)
      && Used(whole.outcomes[..b + 1], b + 1) <= c.nameBytes
      && rc == Internal && firstRetryMethod == Some(b) && nameBytesRemaining == None
  }

  /** Every entry retrieved so far was removed. */
  ghost predicate Unstuck(done: seq<Outcome>, removeSucceeds: seq<bool>) {
    |done| <= |removeSucceeds| && forall i :: 0 <= i < |done| ==> done[i].Retrieved? ==> removeSucceeds[i]
  }

  lemma UnstuckStart(removeSucceeds: seq<bool>)
    ensures Unstuck([], removeSucceeds)
  {
  }

  lemma UnstuckStep(done: seq<Outcome>, o: Outcome, removeSucceeds: seq<bool>)
    requires Unstuck(done, removeSucceeds) && |done| < |removeSucceeds| && (o.Retrieved? ==> removeSucceeds[|done|])
    ensures Unstuck(done + [o], removeSucceeds)
  {
  }

  /** The loop was left at an entry that was copied out but not removed. */
  ghost predicate Stopped(c: Call, done: seq<Outcome>, before: Snapshot, after: Snapshot, pos: nat, available: nat,
                          owed: nat) {
    && |done| < |c.keys| && |done| < |before.descs|
    && (exists first ::
          Loop(c, done, before.table, before.bytes, before.descs, before.buffer, pos, available, false, first, owed))
    && var key := c.keys[|done|];
       var o := NextOutcome(before.table, key, available, false);
       && o.Retrieved? && key in before.table && pos + Size(o) <= |before.buffer|
       && after.table == before.table[key := Cleaned(before.table[key])]
       && after.bytes == UInt64(before.bytes - NameBytes(before.table[key]))
       && after.descs == before.descs[|done| := Description(Internal, Offsets(o.strings, pos))]
       && after.buffer == NewBuffer(before.buffer, o, pos)
  }

  lemma StoppedHere(c: Call, done: seq<Outcome>, before: Snapshot, pos: nat, available: nat, first: nat, owed: nat)
    requires Loop(c, done, before.table, before.bytes, before.descs, before.buffer, pos, available, false, first, owed)
    requires |done| < |c.keys| && |done| < |before.descs| && pos + available <= |before.buffer|
    requires var o := NextOutcome(before.table, c.keys[|done|], available, false); o.Retrieved? && Size(o) <= available
    ensures var key := c.keys[|done|];
      && key in before.table && pos + NameBytes(before.table[key]) <= |before.buffer|
      && Stopped(c, done, before,
                 Snapshot(before.table[key := Cleaned(before.table[key])],
                          UInt64(before.bytes - NameBytes(before.table[key])),
                          before.descs[|done| := Description(Internal, Offsets(Strings(before.table[key]), pos))],
                          Spliced(before.buffer, pos, Packed(Strings(before.table[key])))), pos, available, owed)
  {
    hide Loop, Packed, Strings, Offsets, Cleaned, UInt64, Spliced;
  }

  function Resumed(done: seq<Outcome>, owed: nat, rest: Collection): Collection {
    Collection(done + rest.outcomes, rest.table, owed + rest.owed)
  }

  function AfterOutcome(currentBytes: int, o: Outcome, size: nat): int {
    if o.Retrieved? then UInt64(currentBytes - Size(o) - size) else currentBytes
  }

  function NewDescription(desc: Description, o: Outcome, pos: nat): Description {
    match o
    case Missing => desc.(reasonCode := NotAvailable)
    case Deferred => desc.(reasonCode := Retry)
    case Retrieved(strings) => Description(ErrorNone, Offsets(strings, pos))
  }

  function NewBuffer(buffer: string, o: Outcome, pos: nat): (r: string)
    requires pos + Size(o) <= |buffer|
    ensures |r| == |buffer|
  {
    if o.Retrieved? then Spliced(buffer, pos, Packed(o.strings)) else buffer
  }

  lemma NewBufferFacts(buffer: string, o: Outcome, pos: nat, desc: Description)
    requires pos + Size(o) <= |buffer|
    ensures NewBuffer(buffer, o, pos)[..pos] == buffer[..pos]
    ensures NewBuffer(buffer, o, pos)[pos + Size(o)..] == buffer[pos + Size(o)..]
    ensures Describes(NewDescription(desc, o, pos), desc, o, NewBuffer(buffer, o, pos), pos)
  {
  }

  /** The arguments of one retrieval and the state it starts from. */
  datatype Call = Call(table: Table, keys: seq<Key>, nameBytes: nat, size: nat, bytes: int,
                       descs: seq<Description>, buffer: string)

  datatype Snapshot = Snapshot(table: Table, bytes: int, descs: seq<Description>, buffer: string)

  /** The invariant of the retrieval loop. */
  ghost predicate Loop(c: Call, done: seq<Outcome>, table: Table, bytes: int, descs: seq<Description>, buffer: string,
                       pos: nat, available: nat, retrying: bool, first: nat, owed: nat)
  {
    && Progress(c.table, c.keys, c.nameBytes, done, |done|, table, available, retrying, owed)
    && |c.keys| <= |c.descs| && c.nameBytes <= |c.buffer|
    && pos == Used(done, |done|) && pos + available == c.nameBytes
    && retrying == (FirstDeferred(done) < |done|) && (retrying ==> first == FirstDeferred(done))
    && bytes == BytesAfter(c.bytes, done, c.size)
    && Written(c.descs, descs, done, c.buffer, buffer)
  }

  lemma BytesStep(bytes: int, done: seq<Outcome>, o: Outcome, size: nat)
    ensures BytesAfter(bytes, done + [o], size) == AfterOutcome(BytesAfter(bytes, done, size), o, size)
  {
    UsedAppend(done, o, size);
    UInt64Absorbs(bytes - Released(done, size, |done|), 0 - Size(o) - size);
  }

  lemma LoopStart(c: Call)
    requires |c.keys| <= |c.descs| && c.nameBytes <= |c.buffer| && 0 <= c.bytes < TWO_64
    ensures Loop(c, [], c.table, c.bytes, c.descs, c.buffer, 0, c.nameBytes, false, 0, 0)
  {
    assert c.keys[..0] == [];
  }

  lemma LoopStep(c: Call, done: seq<Outcome>, s: Snapshot, pos: nat, available: nat, retrying: bool, first: nat,
                 owed: nat)
    requires Loop(c, done, s.table, s.bytes, s.descs, s.buffer, pos, available, retrying, first, owed)
        && |done| < |c.keys|
    ensures |done| < |s.descs| == |c.descs| && |s.buffer| == |c.buffer|
    ensures var key := c.keys[|done|];
            var o := NextOutcome(s.table, key, available, retrying);
            Size(o) <= available && pos + available <= |s.buffer| &&
            Loop(c, done + [o], NextTable(s.table, key, o), AfterOutcome(s.bytes, o, c.size),
                 s.descs[|done| := NewDescription(s.descs[|done|], o, pos)], NewBuffer(s.buffer, o, pos),
                 pos + Size(o), available - Size(o), retrying || o.Deferred?,
                 if o.Deferred? && !retrying then |done| else first,
                 owed + (if o.Deferred? then NameBytes(s.table[key]) else 0))
  {
    hide Written, Progress, BytesAfter, AfterOutcome, Released, NewBuffer, NewDescription;
    var key := c.keys[|done|];
    var o := NextOutcome(s.table, key, available, retrying);
    WrittenLengths(c.descs, s.descs, done, c.buffer, s.buffer);
    ProgressStep(c.table, c.keys, c.nameBytes, done, |done|, s.table, available, retrying, owed);
    UsedAppend(done, o, c.size);
    BytesStep(c.bytes, done, o, c.size);
    WrittenStep(c.descs, s.descs, done, c.buffer, s.buffer, o);
  }

  lemma LoopDone(c: Call, done: seq<Outcome>, table: Table, bytes: int, descs: seq<Description>, buffer: string,
                 pos: nat, available: nat, retrying: bool, first: nat, owed: nat)
    requires Loop(c, done, table, bytes, descs, buffer, pos, available, retrying, first, owed)
    ensures |done| <= |c.keys|
        && Collect(c.table, c.keys[..|done|], c.nameBytes, false) == Collection(done, table, owed)
    ensures pos == Used(done, |done|) && pos + available == c.nameBytes
    ensures retrying == (FirstDeferred(done) < |done|) && (retrying ==> first == FirstDeferred(done))
    ensures bytes == BytesAfter(c.bytes, done, c.size)
    ensures Written(c.descs, descs, done, c.buffer, buffer)
  {
    hide Written, Collect;
  }

  /** What has been done so far is the whole retrieval of the requests so far. */
  ghost predicate Progress(t: Table, keys: seq<Key>, nameBytes: nat, done: seq<Outcome>, i: nat, now: Table,
                           available: nat, retrying: bool, owed: nat)
  {
    && i == |done| <= |keys|
    && Collect(t, keys[..i], nameBytes, false) == Collection(done, now, owed)
    && Used(done, i) + available == nameBytes
    && retrying == (FirstDeferred(done) < i)
  }

  lemma ProgressStep(t: Table, keys: seq<Key>, nameBytes: nat, done: seq<Outcome>, i: nat, now: Table, available: nat,
                     retrying: bool, owed: nat)
    requires i < |keys| && Progress(t, keys, nameBytes, done, i, now, available, retrying, owed)
    ensures var o := NextOutcome(now, keys[i], available, retrying);
            && Size(o) <= available && (o.Retrieved? ==> !retrying)
            && Progress(t, keys, nameBytes, done + [o], i + 1, NextTable(now, keys[i], o), available - Size(o),
                        retrying || o.Deferred?, owed + (if o.Deferred? then NameBytes(now[keys[i]]) else 0))
  {
    hide Collect, Used, FirstDeferred, Size, NextTable, NameBytes;
    var o := NextOutcome(now, keys[i], available, retrying);
    NextFits(now, keys[i], available, retrying);
    CollectSnoc(t, keys[..i], keys[i], nameBytes, false);
    assert keys[..i + 1] == keys[..i] + [keys[i]];
    UsedAppend(done, o, 0);
  }

  /** One more request at the end adds its outcome. */
  lemma {:induction false} CollectSnoc(t: Table, keys: seq<Key>, k: Key, available: nat, retrying: bool)
    ensures Snoc(t, keys, k, available, retrying, Collect(t, keys, available, retrying))
    decreases |keys|
  {
    hide NameBytes, Packed, Strings, Size, FirstDeferred, Snoc;
    if keys == [] {
      SnocNothing(t, k, available, retrying);
    } else {
      var o := NextOutcome(t, keys[0], available, retrying);
      NextFits(t, keys[0], available, retrying);
      CollectSnoc(NextTable(t, keys[0], o), keys[1..], k, available - Size(o), retrying || o.Deferred?);
      SnocLater(t, keys, k, available, retrying, o,
                Collect(NextTable(t, keys[0], o), keys[1..], available - Size(o), retrying || o.Deferred?));
    }
  }

  ghost predicate Snoc(t: Table, keys: seq<Key>, k: Key, available: nat, retrying: bool, c: Collection) {
    && |c.outcomes| == |keys| && Used(c.outcomes, |keys|) <= available
    && var o := NextOutcome(c.table, k, available - Used(c.outcomes, |keys|),
                            retrying || FirstDeferred(c.outcomes) < |keys|);
       && (o.Deferred? ==> k in c.table)
       && Collect(t, keys + [k], available, retrying)
          == Collection(c.outcomes + [o], NextTable(c.table, k, o),
                        c.owed + (if o.Deferred? then NameBytes(c.table[k]) else 0))
  }

  lemma SnocNothing(t: Table, k: Key, available: nat, retrying: bool)
    ensures Snoc(t, [], k, available, retrying, Collect(t, [], available, retrying))
  {
    hide Packed, Strings;
    var keys: seq<Key> := [];
    assert keys + [k] == [k] && [k][1..] == keys;
    NextFits(t, k, available, retrying);
    var o := NextOutcome(t, k, available, retrying);
    var none: seq<Outcome> := [];
    assert FirstDeferred(none) == 0 && Used(none, 0) == 0;
    assert none + [o] == [o] + none;
    assert Collect(t, keys, available, retrying) == Collection(none, t, 0);
    assert Collect(NextTable(t, k, o), keys, available - Size(o), retrying || o.Deferred?)
      == Collection(none, NextTable(t, k, o), 0);
  }

  lemma SnocLater(t: Table, keys: seq<Key>, k: Key, available: nat, retrying: bool, o: Outcome, rest: Collection)
    requires keys != [] && o == NextOutcome(t, keys[0], available, retrying) && Size(o) <= available
    requires Snoc(NextTable(t, keys[0], o), keys[1..], k, available - Size(o), retrying || o.Deferred?, rest)
    ensures Snoc(t, keys, k, available, retrying, Prepend(o, if o.Deferred? then NameBytes(t[keys[0]]) else 0, rest))
  {
    hide NameBytes, Packed, Strings, Size, FirstDeferred, Used, NextOutcome;
    var n := |rest.outcomes|;
    UsedCons(o, rest.outcomes, n);
    DeferredCons(o, rest.outcomes);
    assert (keys + [k])[0] == keys[0] && (keys + [k])[1..] == keys[1..] + [k];
    var last := NextOutcome(rest.table, k, available - Size(o) - Used(rest.outcomes, n),
                            (retrying || o.Deferred?) || FirstDeferred(rest.outcomes) < n);
    assert [o] + (rest.outcomes + [last]) == ([o] + rest.outcomes) + [last];
  }

  lemma DeferredCons(o: Outcome, rest: seq<Outcome>)
    ensures FirstDeferred([o] + rest) == if o.Deferred? then 0 else 1 + FirstDeferred(rest)
  {
    hide FirstDeferred;
    var all := [o] + rest;
    var k := FirstDeferred(rest);
    assert forall i :: 0 <= i < |rest| ==> all[i + 1] == rest[i];
    assert all[0] == o;
  }

  lemma {:induction false} UsedCons(o: Outcome, rest: seq<Outcome>, n: nat)
    requires n <= |rest|
    ensures Used([o] + rest, n + 1) == Size(o) + Used(rest, n)
  {
    hide Size;
    if n > 0 {
      UsedCons(o, rest, n - 1);
    } else {
      assert Used([o] + rest, 0) == 0;
    }
  }

  /** The outcomes of the first requests do not depend on the later ones. */
  lemma {:induction false} CollectPrefix(t: Table, keys: seq<Key>, available: nat, n: nat)
    requires n <= |keys|
    ensures Collect(t, keys[..n], available, false).outcomes == Collect(t, keys, available, false).outcomes[..n]
    decreases |keys|
  {
    hide Collect, NextOutcome, NextTable, Used, FirstDeferred;
    if n == |keys| {
      assert keys[..n] == keys;
    } else {
      var front := keys[..|keys| - 1];
      CollectSnoc(t, front, keys[|keys| - 1], available, false);
      assert front + [keys[|keys| - 1]] == keys && front[..n] == keys[..n];
      CollectPrefix(t, front, available, n);
    }
  }

  // ---- the answer ----

  lemma AnsweredDone(c: Call, done: seq<Outcome>, now: Snapshot, pos: nat, available: nat, retrying: bool, first: nat,
                     owed: nat, removeSucceeds: seq<bool>)
    requires Loop(c, done, now.table, now.bytes, now.descs, now.buffer, pos, available, retrying, first, owed)
    requires |done| == |c.keys| == |removeSucceeds| && Unstuck(done, removeSucceeds)
    ensures var y := Yielded(c.table, c.keys, c.nameBytes, c.size, removeSucceeds);
            now.table == y.table && now.bytes == UInt64(c.bytes - y.released)
    ensures Answered(c, removeSucceeds, now.descs, now.buffer, if retrying then Retry else ErrorNone,
                     if retrying then Some(first) else None, if retrying then Some(owed) else None)
  {
    hide Loop, Written, Collect, FirstDeferred, Used, Released, UInt64;
    LoopDone(c, done, now.table, now.bytes, now.descs, now.buffer, pos, available, retrying, first, owed);
    assert c.keys[..|c.keys|] == c.keys;
    assert FirstStuck(done, removeSucceeds) == |c.keys|;
  }

  lemma AnsweredStopped(c: Call, done: seq<Outcome>, before: Snapshot, now: Snapshot, pos: nat, available: nat,
                        owed: nat, removeSucceeds: seq<bool>)
    requires |removeSucceeds| == |c.keys| && Unstuck(done, removeSucceeds)
    requires Stopped(c, done, before, now, pos, available, owed) && !removeSucceeds[|done|]
    ensures var y := Yielded(c.table, c.keys, c.nameBytes, c.size, removeSucceeds);
            now.table == y.table && now.bytes == UInt64(c.bytes - y.released)
    ensures Answered(c, removeSucceeds, now.descs, now.buffer, Internal, Some(|done|), None)
  {
    hide Written, Collect, FirstDeferred, Used, Released, UInt64, NextOutcome, Size, NameBytes, Cleaned, Offsets,
      NewBuffer, Loop;
    var b := |done|;
    var first :|
      Loop(c, done, before.table, before.bytes, before.descs, before.buffer, pos, available, false, first, owed);
    LoopDone(c, done, before.table, before.bytes, before.descs, before.buffer, pos, available, false, first, owed);
    var whole := Collect(c.table, c.keys, c.nameBytes, false);
    var o := NextOutcome(before.table, c.keys[b], available, false);
    StuckOutcome(c, done, before.table, available, owed);
    NextFits(before.table, c.keys[b], available, false);
    WrittenLengths(c.descs, before.descs, done, c.buffer, before.buffer);
    assert FirstStuck(whole.outcomes, removeSucceeds) == b;
    StuckBytes(c, done, before.bytes, NameBytes(before.table[c.keys[b]]));
    StuckWritten(c, done, before, o);
    assert now.descs == before.descs[b := Description(Internal, Offsets(o.strings, Used(done, b)))];
    assert now.descs[b].reasonCode == Internal;
    assert whole.outcomes[..b + 1] == done + [o];
    assert Written(c.descs, now.descs[b := now.descs[b].(reasonCode := ErrorNone)], done + [o], c.buffer, now.buffer);
  }

  lemma StuckOutcome(c: Call, done: seq<Outcome>, table: Table, available: nat, owed: nat)
    requires |done| < |c.keys|
        && Collect(c.table, c.keys[..|done|], c.nameBytes, false) == Collection(done, table, owed)
    requires Used(done, |done|) + available == c.nameBytes && FirstDeferred(done) == |done|
    requires NextOutcome(table, c.keys[|done|], available, false).Retrieved?
    ensures var whole := Collect(c.table, c.keys, c.nameBytes, false);
      && whole.outcomes[..|done|] == done
      && whole.outcomes[|done|] == NextOutcome(table, c.keys[|done|], available, false)
      && whole.outcomes[..|done| + 1] == done + [whole.outcomes[|done|]]
      && c.keys[|done|] in table && c.keys[|done|] in c.table && c.table[c.keys[|done|]] == table[c.keys[|done|]]
  {
    hide Collect, Used, FirstDeferred, NameBytes, Strings;
    var b := |done|;
    CollectPrefix(c.table, c.keys, c.nameBytes, b);
    CollectPrefix(c.table, c.keys, c.nameBytes, b + 1);
    CollectSnoc(c.table, c.keys[..b], c.keys[b], c.nameBytes, false);
    assert c.keys[..b + 1] == c.keys[..b] + [c.keys[b]];
    TableShrinks(c.table, c.keys[..b], c.nameBytes, false);
  }

  lemma {:induction false} TableShrinks(t: Table, keys: seq<Key>, available: nat, retrying: bool)
    ensures var c := Collect(t, keys, available, retrying); forall k :: k in c.table ==> k in t && c.table[k] == t[k]
    decreases |keys|
  {
    hide NameBytes, Strings, Packed, Size;
    if keys != [] {
      var o := NextOutcome(t, keys[0], available, retrying);
      NextFits(t, keys[0], available, retrying);
      TableShrinks(NextTable(t, keys[0], o), keys[1..], available - Size(o), retrying || o.Deferred?);
    }
  }

  lemma StuckBytes(c: Call, done: seq<Outcome>, bytes: int, more: nat)
    requires bytes == BytesAfter(c.bytes, done, c.size)
    ensures UInt64(bytes - more) == UInt64(c.bytes - (Released(done, c.size, |done|) + more))
  {
    hide UInt64, Released;
    UInt64Absorbs(c.bytes - Released(done, c.size, |done|), 0 - more);
  }

  lemma StuckWritten(c: Call, done: seq<Outcome>, before: Snapshot, o: Outcome)
    requires Written(c.descs, before.descs, done, c.buffer, before.buffer) && |done| < |before.descs| == |c.descs|
    requires o.Retrieved? && Used(done, |done|) + Size(o) <= c.nameBytes
        && Used(done, |done|) + Size(o) <= |before.buffer|
    ensures var now := before.descs[|done| := Description(Internal, Offsets(o.strings, Used(done, |done|)))];
            Written(c.descs, now[|done| := now[|done|].(reasonCode := ErrorNone)], done + [o], c.buffer,
                    NewBuffer(before.buffer, o, Used(done, |done|)))
    ensures Used(done + [o], |done| + 1) <= c.nameBytes
  {
    hide Written, Used, Size, NewBuffer, Offsets, FirstDeferred, Released;
    WrittenStep(c.descs, before.descs, done, c.buffer, before.buffer, o);
    UsedAppend(done, o, 0);
    var values := Offsets(o.strings, Used(done, |done|));
    var now := before.descs[|done| := Description(Internal, values)];
    assert now[|done| := now[|done|].(reasonCode := ErrorNone)]
      == before.descs[|done| := Description(ErrorNone, values)];
  }

  /** Every outcome is described, its strings packed right after those of the outcomes before it; nothing
      else is written. */
  ghost predicate Written(was: seq<Description>, descs: seq<Description>, done: seq<Outcome>, text: string,
                          buffer: string) {
    && |done| <= |was| == |descs| && |buffer| == |text| && Used(done, |done|) <= |text|
    && AllDescribed(was, descs, done, buffer)
    && (forall j :: |done| <= j < |was| ==> descs[j] == was[j])
    && TailSame(text, buffer, Used(done, |done|))
  }

  ghost predicate AllDescribed(was: seq<Description>, descs: seq<Description>, done: seq<Outcome>, buffer: string)
    requires |done| <= |was| == |descs|
  {
    forall j :: 0 <= j < |done| ==> Describes(descs[j], was[j], done[j], buffer, Used(done, j))
  }

  ghost predicate TailSame(text: string, buffer: string, end: nat)
    requires end <= |text| == |buffer|
  {
    buffer[end..] == text[end..]
  }

  lemma WrittenLengths(was: seq<Description>, descs: seq<Description>, done: seq<Outcome>, text: string, buffer: string)
    requires Written(was, descs, done, text, buffer)
    ensures |was| == |descs| && |buffer| == |text| && Used(done, |done|) <= |text|
  {
  }

  lemma {:induction false} UsedPrefix(done: seq<Outcome>, o: Outcome, size: nat, n: nat)
    requires n <= |done|
    ensures Used(done + [o], n) == Used(done, n) && Released(done + [o], size, n) == Released(done, size, n)
  {
    if n > 0 {
      UsedPrefix(done, o, size, n - 1);
    }
  }

  lemma UsedAppend(done: seq<Outcome>, o: Outcome, size: nat)
    ensures Used(done + [o], |done| + 1) == Used(done, |done|) + Size(o)
    ensures Released(done + [o], size, |done| + 1)
        == Released(done, size, |done|) + Size(o) + (if o.Retrieved? then size else 0)
    ensures FirstDeferred(done + [o])
         == if FirstDeferred(done) < |done| then FirstDeferred(done) else if o.Deferred? then |done| else |done| + 1
  {
    UsedPrefix(done, o, size, |done|);
    assert (done + [o])[..|done|] == done;
  }

  lemma {:induction false} UsedMonotone(done: seq<Outcome>, i: nat, j: nat)
    requires i < j <= |done|
    ensures Used(done, i) + Size(done[i]) <= Used(done, j)
    decreases j
  {
    if i + 1 < j {
      UsedMonotone(done, i, j - 1);
    }
  }

  lemma SliceOfPrefix(s: string, from: nat, to: nat, end: nat)
    requires from <= to <= end <= |s|
    ensures s[from..to] == s[..end][from..to]
  {
  }

  /** Writing past `end` keeps every description of strings before it. */
  lemma DescribesKept(desc: Description, was: Description, o: Outcome, before: string, after: string, pos: nat,
                      end: nat)
    requires Describes(desc, was, o, before, pos) && pos + Size(o) <= end <= |before| == |after|
    requires after[..end] == before[..end]
    ensures Describes(desc, was, o, after, pos)
  {
    hide Packed, Offsets;
    if o.Retrieved? {
      SliceOfPrefix(before, pos, pos + Size(o), end);
      SliceOfPrefix(after, pos, pos + Size(o), end);
    }
  }

  /** Descriptions made so far survive writing the next strings. */
  lemma AllKept(was: seq<Description>, descs: seq<Description>, done: seq<Outcome>, before: string, after: string,
                o: Outcome)
    requires |done| <= |was| == |descs| && AllDescribed(was, descs, done, before)
    requires Used(done, |done|) <= |after| == |before| && after[..Used(done, |done|)] == before[..Used(done, |done|)]
    ensures forall j :: 0 <= j < |done| ==>
      Used(done + [o], j) == Used(done, j) && Describes(descs[j], was[j], done[j], after, Used(done, j))
  {
    forall j | 0 <= j < |done|
      ensures Used(done + [o], j) == Used(done, j) && Describes(descs[j], was[j], done[j], after, Used(done, j))
    {
      UsedMonotone(done, j, |done|);
      UsedPrefix(done, o, 0, j);
      DescribesKept(descs[j], was[j], done[j], before, after, Used(done, j), Used(done, |done|));
    }
  }

  lemma TailKept(text: string, before: string, o: Outcome, end: nat)
    requires end + Size(o) <= |text| == |before| && TailSame(text, before, end)
    ensures TailSame(text, NewBuffer(before, o, end), end + Size(o))
  {
    var after, size := NewBuffer(before, o, end), Size(o);
    NewBufferFacts(before, o, end, Description(ErrorNone, []));
    assert after[end + size..] == before[end + size..] == before[end..][size..] == text[end..][size..]
      == text[end + size..];
  }

  lemma OneMore(was: seq<Description>, descs: seq<Description>, done: seq<Outcome>, before: string, after: string,
                o: Outcome, desc: Description)
    requires |done| < |was| == |descs| && AllDescribed(was, descs, done, before)
    requires Used(done, |done|) <= |before| == |after| && after[..Used(done, |done|)] == before[..Used(done, |done|)]
    requires Describes(desc, was[|done|], o, after, Used(done, |done|))
    ensures AllDescribed(was, descs[|done| := desc], done + [o], after)
  {
    AllKept(was, descs, done, before, after, o);
    UsedPrefix(done, o, 0, |done|);
    hide Describes, Used;
    var next := descs[|done| := desc];
    forall j | 0 <= j < |done| + 1
      ensures Describes(next[j], was[j], (done + [o])[j], after, Used(done + [o], j))
    {
      if j < |done| {
        assert Describes(descs[j], was[j], done[j], after, Used(done, j));
      }
    }
  }

  lemma WrittenStep(was: seq<Description>, descs: seq<Description>, done: seq<Outcome>, text: string, before: string,
                    o: Outcome)
    requires Written(was, descs, done, text, before) && |done| < |was|
    requires Used(done, |done|) + Size(o) <= |before|
    ensures Written(was, descs[|done| := NewDescription(descs[|done|], o, Used(done, |done|))], done + [o], text,
                    NewBuffer(before, o, Used(done, |done|)))
  {
    hide AllDescribed, TailSame, NewDescription, Describes, Used, Size, Released, FirstDeferred;
    var end, desc := Used(done, |done|), NewDescription(descs[|done|], o, Used(done, |done|));
    UsedAppend(done, o, 0);
    NewBufferFacts(before, o, end, descs[|done|]);
    TailKept(text, before, o, end);
    OneMore(was, descs, done, before, NewBuffer(before, o, end), o, desc);
  }

  function TextOf(p: Pointer): Option<CString> {
    if p.Null? then None else Some(p.text)
  }

  method CopyProperty(p: Pointer, buffer: array<char>, at: nat) returns (value: Option<nat>, next: nat)
    requires at + |Terminated(TextOf(p))| <= buffer.Length
    modifies buffer
    ensures value == if p.Null? then None else Some(at)
    ensures next == at + |Terminated(TextOf(p))|
    ensures buffer[..] == Spliced(old(buffer[..]), at, Terminated(TextOf(p)))
  {
    if p.Null? {
      value, next := None, at;
      assert buffer[..] == Spliced(buffer[..], at, []);
    } else {
      var text := Terminated(Some(p.text));
      CopyText(buffer, at, text);
      value, next := Some(at), at + |text|;
    }
  }

  /** The first `i` properties of `entry` have been copied. */
  ghost predicate CopiedUpTo(entry: Entry, i: nat, start: string, now: string, pos: nat, at: nat,
                             values: seq<Option<nat>>) {
    && i <= |entry|
    && pos + NameBytes(entry) <= |start|
    && at == pos + NameBytes(entry[..i]) <= |start|
    && values == Offsets(Strings(entry[..i]), pos)
    && now == Spliced(start, pos, Packed(Strings(entry[..i])))
  }

  lemma CopiedStep(entry: Entry, i: nat, start: string, now: string, pos: nat, at: nat, values: seq<Option<nat>>)
    requires i < |entry| && CopiedUpTo(entry, i, start, now, pos, at, values)
    ensures at + |Terminated(TextOf(entry[i]))| <= |now| == |start|
    ensures CopiedUpTo(entry, i + 1, start, Spliced(now, at, Terminated(TextOf(entry[i]))), pos,
                       at + |Terminated(TextOf(entry[i]))|, values + [if entry[i].Null? then None else Some(at)])
  {
    StringsPrefix(entry, i, pos);
    PackedPrefix(Strings(entry), i + 1);
    StringsOfPrefix(entry, i + 1);
    SplicedTwice(start, pos, Packed(Strings(entry[..i])), Terminated(TextOf(entry[i])));
  }

  /** `start` with `text` written over it from `pos` on. */
  function Spliced(start: string, pos: nat, text: string): string
    requires pos + |text| <= |start|
  {
    start[..pos] + text + start[pos + |text|..]
  }

  lemma SplicedTwice(start: string, pos: nat, a: string, b: string)
    requires pos + |a| + |b| <= |start|
    ensures Spliced(Spliced(start, pos, a), pos + |a|, b) == Spliced(start, pos, a + b)
  {
  }

  lemma {:induction false} FailureStays(given: Entry, copySucceeds: seq<bool>, i: nat)
    requires |given| == |copySucceeds| && i < |given|
    requires FirstFailure(given[..i + 1], copySucceeds[..i + 1]) == i
    ensures FirstFailure(given, copySucceeds) == i
    decreases |given|
  {
    var n := |given| - 1;
    if i < n {
      assert given[..n][..i + 1] == given[..i + 1] && copySucceeds[..n][..i + 1] == copySucceeds[..i + 1];
      FailureStays(given[..n], copySucceeds[..n], i);
    } else {
      assert given[..i + 1] == given && copySucceeds[..i + 1] == copySucceeds;
    }
  }

  lemma StringsOfPrefix(e: Entry, n: nat)
    requires n <= |e|
    ensures Strings(e[..n]) == Strings(e)[..n]
  {
  }

  lemma {:induction false} PackedPrefix(s: seq<Option<CString>>, n: nat)
    requires n <= |s|
    ensures |Packed(s[..n])| <= |Packed(s)|
    decreases |s|
  {
    if n < |s| {
      assert s[..|s| - 1][..n] == s[..n];
      PackedPrefix(s[..|s| - 1], n);
    } else {
      assert s[..n] == s;
    }
  }

  /** `memcpy` of a text into a buffer. */
  method CopyText(buffer: array<char>, pos: nat, text: string)
    requires pos + |text| <= buffer.Length
    modifies buffer
    ensures buffer[..] == Spliced(old(buffer[..]), pos, text)
  {
    forall i | 0 <= i < |text| {
      buffer[pos + i] := text[i];
    }
  }
}

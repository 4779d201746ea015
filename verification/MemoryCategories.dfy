/**
 The memory category snapshot: a depth-first walk is written into the caller's flat buffer, then
 threaded into first-child and next-sibling lists, then summed bottom-up by recursion.
 */
module MemoryCategories {
  import opened Words
  import opened CategoryCodes
  import opened Forests

  /** One callback of the category walk. */
  datatype Visit = Visit(code: Code, name: string, liveBytes: int, liveAllocations: int, isRoot: bool, parentCode: Code)

  /** A pointer into the caller's buffer: 0 is NULL and `i + 1` addresses the record in slot `i`.
      It is a plain integer, because the source stores such pointers in `liveBytesDeep` too. */
  type Pointer = int

  datatype Category = Category(
    name: string,
    liveBytesShallow: int,
    liveBytesDeep: int,
    liveAllocationsShallow: int,
    liveAllocationsDeep: int,
    firstChild: Pointer,
    nextSibling: Pointer,
    parent: Pointer)

  const ZEROED := Category("", 0, 0, 0, 0, 0, 0, 0)

  datatype ErrorCode = ErrorNone | IllegalArgument | NotAvailable | Internal | OutOfNativeMemory | ThreadNotAttached

  // ---- the walk ----

  function Codes(walk: seq<Visit>): (r: seq<Code>)
    ensures |r| == |walk| && forall i :: 0 <= i < |walk| ==> r[i] == walk[i].code
  {
    seq(|walk|, i requires 0 <= i < |walk| => walk[i].code)
  }

  /** Where `code` was visited among the first `n` visits, or -1. */
  ghost function Position(walk: seq<Visit>, code: Code, n: nat): (p: int)
    requires n <= |walk|
    ensures p == -1 || (0 <= p < n && walk[p].code == code)
  {
    if n == 0 then -1
    else if walk[n - 1].code == code then n - 1
    else Position(walk, code, n - 1)
  }

  /** A walk visits each code once, none of them the excluded limit, and every parent before its children. */
  ghost predicate WellFormed(walk: seq<Visit>) {
    && (forall i, j :: 0 <= i < j < |walk| ==> walk[i].code != walk[j].code)
    && (forall i :: 0 <= i < |walk| ==> walk[i].code != LANGUAGE_CATEGORY_LIMIT)
    && (forall i :: 0 <= i < |walk| && !walk[i].isRoot ==> Position(walk, walk[i].parentCode, i) != -1)
  }

  /** Where the parent of visit `i` was visited, or -1 for a root. */
  ghost function ParentOf(walk: seq<Visit>, i: nat): (p: int)
    requires WellFormed(walk) && i < |walk|
    ensures -1 <= p < i
  {
    if walk[i].isRoot then -1 else Position(walk, walk[i].parentCode, i)
  }

  /** The parent table of the first `n` visits. */
  ghost function Parents(walk: seq<Visit>, n: nat): (par: seq<int>)
    requires WellFormed(walk) && n <= |walk|
    ensures |par| == n && IsForest(par)
    ensures forall i :: 0 <= i < n ==> par[i] == ParentOf(walk, i)
  {
    seq(n, i requires 0 <= i < n => ParentOf(walk, i))
  }

  /** `int64_t` shallow counters of the first `n` visits. */
  ghost function ShallowBytes(walk: seq<Visit>, n: nat): (w: seq<int>)
    requires n <= |walk|
    ensures |w| == n
  {
    seq(n, i requires 0 <= i < n => Int64(walk[i].liveBytes))
  }

  ghost function ShallowAllocations(walk: seq<Visit>, n: nat): (w: seq<int>)
    requires n <= |walk|
    ensures |w| == n
  {
    seq(n, i requires 0 <= i < n => Int64(walk[i].liveAllocations))
  }

  // ---- writing the walk into the buffer ----

  ghost function Recorded(walk: seq<Visit>, i: nat): Category
    requires WellFormed(walk) && i < |walk|
  {
    ZEROED.(name := walk[i].name,
            liveBytesShallow := Int64(walk[i].liveBytes),
            liveAllocationsShallow := Int64(walk[i].liveAllocations),
            parent := ParentOf(walk, i) + 1)
  }

  function Min(a: int, b: int): int {
    if a < b then a else b
  }

  function Max(a: int, b: int): int {
    if a < b then b else a
  }

  /** The state shared by the callbacks of one walk. */
  class WalkState {
    const buffer: array<Category>
    const maxCategories: int
    const mapping: array<Pointer>
    var written: nat
    var overflow: bool

    constructor (buffer: array<Category>, maxCategories: int, mapping: array<Pointer>)
      ensures this.buffer == buffer && this.maxCategories == maxCategories && this.mapping == mapping
      ensures written == 0 && !overflow
    {
      this.buffer, this.maxCategories, this.mapping := buffer, maxCategories, mapping;
      written, overflow := 0, false;
    }

    ghost predicate Holds(walk: seq<Visit>, slots: seq<int>)
      requires WellFormed(walk)
      reads this, buffer, mapping
    {
      maxCategories <= buffer.Length && RecordsHold(walk, slots, buffer[..], mapping[..], written, maxCategories)
    }

    /** The recording callback; false asks the walk to stop. */
    method Record(ghost walk: seq<Visit>, ghost slots: seq<int>, visit: Visit) returns (keepIterating: bool)
      requires WellFormed(walk) && Holds(walk, slots)
      requires written < |walk| && visit == walk[written]
      modifies this, buffer, mapping
      ensures Holds(walk, slots)
      ensures keepIterating == (old(written) < maxCategories)
      ensures written == old(written) + (if keepIterating then 1 else 0)
      ensures overflow == (old(overflow) || !keepIterating)
      ensures buffer[..]
              == if keepIterating
                 then old(buffer[..])[old(written) := Recorded(walk, old(written))]
                 else old(buffer[..])
    {
      hide WellFormed, IndexFromCode, Recorded, RecordsHold, Int64;
      ghost var buffered, mapped, at := buffer[..], mapping[..], written;
      RecordsStep(walk, slots, buffered, mapped, at, maxCategories);
      var index := IndexFromCode(mapping.Length, visit.code);
      if written < maxCategories {
        mapping[index] := written + 1;
        assert mapping[..] == mapped[slots[at] := at + 1];
        var parent: Pointer := 0;
        if !visit.isRoot {
          var parentIndex := IndexFromCode(mapping.Length, visit.parentCode);
          parent := mapping[parentIndex];
        }
        RecordWritten(walk, at, parent);
        buffer[written] := buffer[written].(name := visit.name, liveBytesShallow := Int64(visit.liveBytes),
                                            liveAllocationsShallow := Int64(visit.liveAllocations), parent := parent);
        assert buffer[..] == buffered[at := Recorded(walk, at)];
        written := written + 1;
        return true;
      } else {
        overflow := true;
        return false;
      }
    }
  }

  /** The slots of the walked codes, as one sequence. */
  ghost predicate Slots(walk: seq<Visit>, slots: seq<int>, size: nat) {
    && |slots| == |walk|
    && (forall i :: 0 <= i < |walk| ==> slots[i] == IndexFromCode(size, walk[i].code))
    && (forall i :: 0 <= i < |walk| ==> 0 <= slots[i] < size)
    && (forall i, j :: 0 <= i < j < |walk| ==> slots[i] != slots[j])
  }

  /** The first `n` visits are findable through the mapping. */
  ghost predicate Mapped(slots: seq<int>, mapping: seq<Pointer>, n: nat)
    requires n <= |slots| && forall i :: 0 <= i < |slots| ==> 0 <= slots[i] < |mapping|
  {
    forall i :: 0 <= i < n ==> mapping[slots[i]] == i + 1
  }

  /** They are recorded in the buffer, and the rest of what may be written is still zero. */
  ghost predicate Buffered(walk: seq<Visit>, buffer: seq<Category>, n: nat, max: int)
    requires WellFormed(walk) && n <= |walk| && n <= |buffer| && max <= |buffer|
  {
    && (forall i :: 0 <= i < n ==> buffer[i] == Recorded(walk, i))
    && (forall i :: n <= i < max ==> buffer[i] == ZEROED)
  }

  /** The first `n` visits are recorded in the buffer and findable through the mapping. */
  ghost predicate RecordsHold(walk: seq<Visit>, slots: seq<int>, buffer: seq<Category>, mapping: seq<Pointer>, n: nat,
                              max: int)
    requires WellFormed(walk)
  {
    && Slots(walk, slots, |mapping|)
    && n <= |walk| && n <= Max(max, 0) && max <= |buffer|
    && Mapped(slots, mapping, n) && Buffered(walk, buffer, n, max)
  }

  /** Recording visit `n`: where it goes, where its parent is found, and that the records then hold for `n + 1`. */
  lemma RecordsStep(walk: seq<Visit>, slots: seq<int>, buffer: seq<Category>, mapping: seq<Pointer>, n: nat, max: int)
    requires WellFormed(walk) && RecordsHold(walk, slots, buffer, mapping, n, max) && n < |walk|
    ensures n < |slots| && 0 <= slots[n] < |mapping| && IndexFromCode(|mapping|, walk[n].code) == slots[n]
    ensures n < max ==> buffer[n] == ZEROED
    ensures !walk[n].isRoot ==>
      var q := IndexFromCode(|mapping|, walk[n].parentCode);
      0 <= q < |mapping| && q != slots[n] && mapping[q] == ParentOf(walk, n) + 1
    ensures n < max ==> RecordsHold(walk, slots, buffer[n := Recorded(walk, n)], mapping[slots[n] := n + 1], n + 1, max)
  {
    hide WellFormed, IndexFromCode, Recorded, ParentOf, Mapped, Buffered;
    if !walk[n].isRoot {
      ParentFound(walk, slots, mapping, n);
    }
    if n < max {
      MappedStep(walk, slots, mapping, n);
      BufferedStep(walk, buffer, n, max);
    }
  }

  lemma ParentFound(walk: seq<Visit>, slots: seq<int>, mapping: seq<Pointer>, n: nat)
    requires WellFormed(walk) && Slots(walk, slots, |mapping|) && n < |walk| && Mapped(slots, mapping, n)
        && !walk[n].isRoot
    ensures var q := IndexFromCode(|mapping|, walk[n].parentCode);
            0 <= q < |mapping| && q != slots[n] && mapping[q] == ParentOf(walk, n) + 1
  {
    hide IndexFromCode;
    var p := ParentOf(walk, n);
    assert walk[p].code == walk[n].parentCode;
    assert slots[p] == IndexFromCode(|mapping|, walk[p].code);
  }

  lemma MappedStep(walk: seq<Visit>, slots: seq<int>, mapping: seq<Pointer>, n: nat)
    requires Slots(walk, slots, |mapping|) && n < |walk| && Mapped(slots, mapping, n)
    ensures Mapped(slots, mapping[slots[n] := n + 1], n + 1)
  {
    hide IndexFromCode;
  }

  lemma BufferedStep(walk: seq<Visit>, buffer: seq<Category>, n: nat, max: int)
    requires WellFormed(walk) && n < |walk| && n < max <= |buffer| && Buffered(walk, buffer, n, max)
    ensures buffer[n] == ZEROED
    ensures Buffered(walk, buffer[n := Recorded(walk, n)], n + 1, max)
  {
    hide WellFormed, Recorded;
  }

  lemma NothingRecorded(walk: seq<Visit>, slots: seq<int>, buffer: seq<Category>, mapping: seq<Pointer>, max: int)
    requires WellFormed(walk) && Slots(walk, slots, |mapping|) && max <= |buffer|
    requires forall i :: 0 <= i < max ==> buffer[i] == ZEROED
    ensures RecordsHold(walk, slots, buffer, mapping, 0, max)
  {
    hide WellFormed, IndexFromCode;
  }

  /** What the recording writes, field by field. */
  lemma RecordWritten(walk: seq<Visit>, i: nat, parent: Pointer)
    requires WellFormed(walk) && i < |walk| && parent == ParentOf(walk, i) + 1
    ensures ZEROED.(name := walk[i].name, liveBytesShallow := Int64(walk[i].liveBytes),
                    liveAllocationsShallow := Int64(walk[i].liveAllocations), parent := parent) == Recorded(walk, i)
  {
  }

  lemma SlotsExist(walk: seq<Visit>) returns (slots: seq<int>)
    requires WellFormed(walk)
    ensures var size := MappingSize(Codes(walk));
            Slots(walk, slots, size)
  {
    var codes := Codes(walk);
    var size := MappingSize(codes);
    slots := seq(|walk|, i requires 0 <= i < |walk| => IndexFromCode(size, walk[i].code));
    forall i | 0 <= i < |walk|
      ensures 0 <= slots[i] < size
    {
      assert codes[i] in codes;
      IndexInBoundsIff(codes, codes[i]);
    }
    forall i, j | 0 <= i < j < |walk|
      ensures slots[i] != slots[j]
    {
      assert codes[i] in codes && codes[j] in codes;
      IndexInjective(codes, codes[i], codes[j]);
    }
  }

  /** Runs the recording callback over the walk until the walk ends or the callback stops it. */
  method WriteCategories(walk: seq<Visit>, state: WalkState)
    requires WellFormed(walk)
    requires state.written == 0 && !state.overflow && state.maxCategories <= state.buffer.Length
    requires state.mapping.Length == MappingSize(Codes(walk))
    requires forall i :: 0 <= i < state.maxCategories ==> state.buffer[i] == ZEROED
    modifies state, state.buffer, state.mapping
    ensures state.written == Min(|walk|, Max(state.maxCategories, 0))
    ensures state.overflow <==> state.written < |walk|
    ensures forall i :: 0 <= i < state.written ==> state.buffer[i] == Recorded(walk, i)
    ensures forall i :: state.written <= i < state.buffer.Length ==> state.buffer[i] == old(state.buffer[i])
  {
    hide Recorded, WellFormed, IndexFromCode, Slots, RecordsHold;
    ghost var slots := SlotsExist(walk);
    NothingRecorded(walk, slots, state.buffer[..], state.mapping[..], state.maxCategories);
    var keepIterating := true;
    var at := 0;
    while at < |walk| && keepIterating
      invariant at == state.written + (if keepIterating then 0 else 1) && at <= |walk|
      invariant state.Holds(walk, slots)
      invariant state.overflow == !keepIterating
      invariant !keepIterating ==> state.written == Max(state.maxCategories, 0)
      invariant forall i :: state.written <= i < state.buffer.Length ==> state.buffer[i] == old(state.buffer[i])
    {
      keepIterating := state.Record(walk, slots, walk[at]);
      RecordsKnown(walk, slots, state.buffer[..], state.mapping[..], state.written, state.maxCategories);
      at := at + 1;
    }
    RecordsKnown(walk, slots, state.buffer[..], state.mapping[..], state.written, state.maxCategories);
  }

  lemma RecordsKnown(walk: seq<Visit>, slots: seq<int>, buffer: seq<Category>, mapping: seq<Pointer>, n: nat, max: int)
    requires WellFormed(walk) && RecordsHold(walk, slots, buffer, mapping, n, max)
    ensures n <= |walk| && n <= Max(max, 0) && n <= |buffer|
    ensures forall i :: 0 <= i < n ==> buffer[i] == Recorded(walk, i)
  {
    hide WellFormed, Recorded, IndexFromCode;
  }

  // ---- threading the child lists ----

  /** The record of slot `i` once the first `n` records have been threaded. */
  ghost function Threaded(c: Category, par: seq<int>, i: int, n: nat): Category
    requires 0 <= i < |par| && n <= |par|
  {
    c.(firstChild := NextChild(par, i, 0, n) + 1,
       nextSibling := if par[i] == -1 then 0 else NextChild(par, par[i], i + 1, n) + 1,
       liveBytesDeep := LastChild(par, i, n) + 1)
  }

  /** What appending record `i` to the list of parent `p`, whose tail pointer is `tail`, makes of record `j`. */
  ghost function Appended(c: Category, j: int, i: int, p: int, tail: Pointer): Category {
    if p >= 0 && j == p then c.(liveBytesDeep := i + 1, firstChild := if tail != 0 then c.firstChild else i + 1)
    else if p >= 0 && j == tail - 1 then c.(nextSibling := i + 1)
    else c
  }

  ghost predicate AppendedAll(before: seq<Category>, after: seq<Category>, i: int, p: int, tail: Pointer) {
    |after| == |before| && forall j :: 0 <= j < |before| ==> after[j] == Appended(before[j], j, i, p, tail)
  }

  /** How adding record `n` to the lists changes each record. */
  lemma ThreadOne(c: Category, par: seq<int>, j: int, n: nat)
    requires IsForest(par) && n < |par| && 0 <= j < |par|
    ensures Threaded(c, par, j, n + 1)
        == Appended(Threaded(c, par, j, n), j, n, par[n], if par[n] >= 0 then LastChild(par, par[n], n) + 1 else 0)
  {
    NoFirstIffNoLast(par, j, n);
    if par[n] >= 0 {
      LastChildIsChild(par, par[n], n);
    }
    if par[j] != -1 && j < n {
      NoNextIffLast(par, j, n);
    }
  }

  /** Adds record `i` to the list of its parent, whose `liveBytesDeep` is the tail of that list. */
  method AppendToParent(buffer: array<Category>, i: nat)
    requires i < buffer.Length
    requires 0 <= buffer[i].parent <= i
    requires buffer[i].parent != 0 ==> 0 <= buffer[buffer[i].parent - 1].liveBytesDeep <= i
    requires buffer[i].parent != 0 ==> buffer[buffer[i].parent - 1].liveBytesDeep != buffer[i].parent
    modifies buffer
    ensures var p := old(buffer[i].parent) - 1;
            AppendedAll(old(buffer[..]), buffer[..], i, p, if p >= 0 then old(buffer[p]).liveBytesDeep else 0)
  {
    var parent := buffer[i].parent;
    if parent != 0 {
      var lastChild := buffer[parent - 1].liveBytesDeep;
      if lastChild != 0 {
        buffer[lastChild - 1] := buffer[lastChild - 1].(nextSibling := i + 1);
      } else {
        buffer[parent - 1] := buffer[parent - 1].(firstChild := i + 1);
      }
      buffer[parent - 1] := buffer[parent - 1].(liveBytesDeep := i + 1);
    }
  }

  /** `cats` is `start` with its first `n` records threaded. */
  ghost predicate AllThreaded(start: seq<Category>, cats: seq<Category>, par: seq<int>, n: nat)
    requires n <= |par| <= |start|
  {
    && |cats| == |start|
    && (forall j :: 0 <= j < |par| ==> cats[j] == Threaded(start[j], par, j, n))
    && (forall j :: |par| <= j < |start| ==> cats[j] == start[j])
  }

  /** Records fresh from the walk: parents are known, the lists are empty. */
  ghost predicate Unlinked(cats: seq<Category>, par: seq<int>) {
    && |par| <= |cats|
    && forall i :: 0 <= i < |par| ==>
         cats[i].parent == par[i] + 1 && cats[i].liveBytesDeep == 0 && cats[i].firstChild == 0
           && cats[i].nextSibling == 0
  }

  lemma ThreadNone(start: seq<Category>, par: seq<int>)
    requires IsForest(par) && Unlinked(start, par)
    ensures AllThreaded(start, start, par, 0)
  {
  }

  /** Record `i` names its parent, and the parent's `liveBytesDeep` names its last child so far. */
  ghost predicate Tail(cats: seq<Category>, par: seq<int>, i: nat)
    requires i < |par| <= |cats| && IsForest(par)
  {
    && cats[i].parent == par[i] + 1
    && (par[i] >= 0 ==>
          cats[par[i]].liveBytesDeep == LastChild(par, par[i], i) + 1 && LastChild(par, par[i], i) != par[i])
  }

  lemma ThreadedRecord(start: seq<Category>, cats: seq<Category>, par: seq<int>, i: nat)
    requires IsForest(par) && i < |par| <= |start| && AllThreaded(start, cats, par, i)
    requires start[i].parent == par[i] + 1
    ensures Tail(cats, par, i)
  {
    if par[i] >= 0 {
      LastChildIsChild(par, par[i], i);
    }
  }

  lemma ThreadStepAt(start: Category, before: Category, after: Category, par: seq<int>, i: nat, j: nat)
    requires IsForest(par) && i < |par| && j < |par|
    requires before == Threaded(start, par, j, i)
    requires after == Appended(before, j, i, par[i], if par[i] >= 0 then LastChild(par, par[i], i) + 1 else 0)
    ensures after == Threaded(start, par, j, i + 1)
  {
    ThreadOne(start, par, j, i);
  }

  lemma ThreadStep(start: seq<Category>, before: seq<Category>, after: seq<Category>, par: seq<int>, i: nat)
    requires IsForest(par) && i < |par| <= |start| && AllThreaded(start, before, par, i)
    requires AppendedAll(before, after, i, par[i], if par[i] >= 0 then LastChild(par, par[i], i) + 1 else 0)
    ensures AllThreaded(start, after, par, i + 1)
  {
    hide Threaded, Appended, LastChild, IsForest;
    var tail := if par[i] >= 0 then LastChild(par, par[i], i) + 1 else 0;
    forall j | 0 <= j < |par|
      ensures after[j] == Threaded(start[j], par, j, i + 1)
    {
      ThreadStepAt(start[j], before[j], after[j], par, i, j);
    }
    forall j | |par| <= j < |start|
      ensures after[j] == start[j]
    {
      ThreadStepBeyond(before[j], par, i, j, tail);
    }
  }

  lemma ThreadStepBeyond(c: Category, par: seq<int>, i: nat, j: nat, tail: Pointer)
    requires IsForest(par) && i < |par| <= j && tail == if par[i] >= 0 then LastChild(par, par[i], i) + 1 else 0
    ensures Appended(c, j, i, par[i], tail) == c
  {
  }

  /** One turn of the threading loop keeps its invariant. */
  method ThreadRecord(buffer: array<Category>, i: nat, ghost start: seq<Category>, ghost par: seq<int>)
    requires IsForest(par) && i < |par| <= |start| && start[i].parent == par[i] + 1
    requires AllThreaded(start, buffer[..], par, i)
    modifies buffer
    ensures AllThreaded(start, buffer[..], par, i + 1)
  {
    ghost var before := buffer[..];
    assert Tail(before, par, i) by {
      ThreadedRecord(start, before, par, i);
    }
    AppendToParent(buffer, i);
    assert AllThreaded(start, buffer[..], par, i + 1) by {
      ThreadStep(start, before, buffer[..], par, i);
    }
  }

  /** Links every record below its parent and after its elder sibling. */
  method FillInChildAndSiblingCategories(buffer: array<Category>, written: nat, ghost par: seq<int>)
    requires |par| == written <= buffer.Length && IsForest(par)
    requires Unlinked(buffer[..], par)
    modifies buffer
    ensures AllThreaded(old(buffer[..]), buffer[..], par, written)
  {
    ghost var start := buffer[..];
    ThreadNone(start, par);
    for i := 0 to written
      invariant AllThreaded(start, buffer[..], par, i)
    {
      ThreadRecord(buffer, i, start, par);
    }
  }

  // ---- summing ----

  /** The links of a threaded buffer. */
  ghost predicate Linked(cats: seq<Category>, par: seq<int>) {
    && |par| <= |cats|
    && IsForest(par)
    && forall i :: 0 <= i < |par| ==>
         && cats[i].parent == par[i] + 1
         && cats[i].firstChild == NextChild(par, i, 0, |par|) + 1
         && cats[i].nextSibling == if par[i] == -1 then 0 else NextChild(par, par[i], i + 1, |par|) + 1
  }

  ghost predicate ShallowAre(cats: seq<Category>, bytes: seq<int>, allocations: seq<int>) {
    && |bytes| == |allocations| <= |cats|
    && forall i :: 0 <= i < |bytes| ==>
         && cats[i].liveBytesShallow == bytes[i] == Int64(bytes[i])
         && cats[i].liveAllocationsShallow == allocations[i] == Int64(allocations[i])
  }

  /** The deep counters hold these sums, as `int64_t`. */
  ghost predicate DeepIs(c: Category, bytes: int, allocations: int) {
    c.liveBytesDeep == Int64(bytes) && c.liveAllocationsDeep == Int64(allocations)
  }

  /** The deep counters of `j` are the sums over its subtree. */
  ghost predicate DeepDone(c: Category, par: seq<int>, bytes: seq<int>, allocations: seq<int>, j: int)
    requires IsForest(par) && |bytes| == |allocations| == |par|
  {
    DeepIs(c, SumIn(bytes, Subtree(par, j), |par|), SumIn(allocations, Subtree(par, j), |par|))
  }

  /** `a` and `b` agree in everything but the deep counters. */
  ghost predicate SameButDeep(a: Category, b: Category) {
    a == b.(liveBytesDeep := a.liveBytesDeep, liveAllocationsDeep := a.liveAllocationsDeep)
  }

  /** What one call of the recursion does to a buffer: it settles the subtree of `v` and adds its sums to the parent. */
  ghost predicate Settled(before: seq<Category>, after: seq<Category>, par: seq<int>, bytes: seq<int>,
                          allocations: seq<int>, v: int)
    requires IsForest(par) && |bytes| == |allocations| == |par| <= |before| && 0 <= v < |par|
  {
    && |after| == |before|
    && (forall i :: 0 <= i < |before| ==> SameButDeep(after[i], before[i]))
    && (forall i :: 0 <= i < |before| && i !in Subtree(par, v) && i != par[v] ==> after[i] == before[i])
    && (forall i :: i in Subtree(par, v) ==> DeepDone(after[i], par, bytes, allocations, i))
    && (par[v] >= 0 ==> DeepIs(after[par[v]],
                               before[par[v]].liveBytesDeep + SumIn(bytes, Subtree(par, v), |par|),
                               before[par[v]].liveAllocationsDeep + SumIn(allocations, Subtree(par, v), |par|)))
  }

  /** The state of the recursion at `v` when it has passed back from the children below `k`. */
  ghost predicate Summing(before: seq<Category>, now: seq<Category>, par: seq<int>, bytes: seq<int>,
                          allocations: seq<int>, v: int, k: int)
    requires IsForest(par) && |bytes| == |allocations| == |par| <= |before| && 0 <= v < |par|
  {
    && |now| == |before|
    && (forall i :: 0 <= i < |before| ==> SameButDeep(now[i], before[i]))
    && (forall i :: 0 <= i < |before| && i !in Below(par, v, k) && i != v ==> now[i] == before[i])
    && (forall i :: i in Below(par, v, k) ==> DeepDone(now[i], par, bytes, allocations, i))
    && DeepIs(now[v], bytes[v] + SumIn(bytes, Below(par, v, k), |par|),
              allocations[v] + SumIn(allocations, Below(par, v, k), |par|))
  }

  lemma LinksKept(before: seq<Category>, after: seq<Category>, par: seq<int>, bytes: seq<int>, allocations: seq<int>)
    requires |after| == |before| && forall i :: 0 <= i < |before| ==> SameButDeep(after[i], before[i])
    requires Linked(before, par) && ShallowAre(before, bytes, allocations) && |bytes| == |par|
    ensures Linked(after, par) && ShallowAre(after, bytes, allocations)
  {
    forall i | 0 <= i < |par|
      ensures after[i].parent == before[i].parent && after[i].firstChild == before[i].firstChild
          && after[i].nextSibling == before[i].nextSibling
      ensures after[i].liveBytesShallow == before[i].liveBytesShallow
          && after[i].liveAllocationsShallow == before[i].liveAllocationsShallow
    {
      assert SameButDeep(after[i], before[i]);
    }
  }

  /** Where a pointer into a child list stands: the index it names, or past the end for NULL. */
  ghost function Stand(p: Pointer, n: nat): int {
    if p == 0 then n else p - 1
  }

  /** `p` names a child of `v`, or is NULL. */
  ghost predicate OnChild(par: seq<int>, v: int, p: Pointer) {
    0 <= p <= |par| && (p != 0 ==> par[p - 1] == v)
  }

  /** `p` names the first child of `v` from `from` on, or is NULL if there is none. */
  ghost predicate NamesNext(par: seq<int>, v: int, from: int, p: Pointer) {
    && 0 <= from <= Stand(p, |par|) <= |par| && 0 <= p
    && (p != 0 ==> p <= |par| && par[p - 1] == v)
    && forall i :: from <= i < Stand(p, |par|) ==> par[i] != v
  }

  lemma FirstChildNamed(cats: seq<Category>, par: seq<int>, v: int)
    requires Linked(cats, par) && 0 <= v < |par|
    ensures NamesNext(par, v, 0, cats[v].firstChild)
  {
    NextChildIsNext(par, v, 0, |par|);
  }

  lemma NextSiblingNamed(cats: seq<Category>, par: seq<int>, c: int)
    requires Linked(cats, par) && 0 <= c < |par| && par[c] != -1
    ensures NamesNext(par, par[c], c + 1, cats[c].nextSibling)
  {
    NextChildIsNext(par, par[c], c + 1, |par|);
  }

  ghost function FromShallow(c: Category): Category {
    c.(liveBytesDeep := c.liveBytesShallow, liveAllocationsDeep := c.liveAllocationsShallow)
  }

  lemma SummingStart(before: seq<Category>, par: seq<int>, bytes: seq<int>, allocations: seq<int>, v: int, p: Pointer)
    requires IsForest(par) && ShallowAre(before, bytes, allocations) && |bytes| == |par| && 0 <= v < |par|
    requires NamesNext(par, v, 0, p)
    ensures Summing(before, before[v := FromShallow(before[v])], par, bytes, allocations, v, Stand(p, |par|))
  {
    BelowSkip(par, v, 0, Stand(p, |par|));
    assert Below(par, v, 0) == {};
    SumNone(bytes, |par|);
    SumNone(allocations, |par|);
  }

  /** From one child to the next, what is reached grows by exactly the child's subtree. */
  lemma PassChild(par: seq<int>, c: int, p: Pointer)
    requires IsForest(par) && 0 <= c < |par| && par[c] >= 0 && NamesNext(par, par[c], c + 1, p)
    ensures Below(par, par[c], Stand(p, |par|)) == Below(par, par[c], c) + Subtree(par, c)
    ensures Below(par, par[c], c) !! Subtree(par, c)
    ensures par[c] !in Below(par, par[c], c) && par[c] !in Subtree(par, c)
  {
    var v := par[c];
    BelowSkip(par, v, c + 1, Stand(p, |par|));
    BelowStep(par, v, c);
    SubtreeSplit(par, v);
    if v in Subtree(par, c) {
      DescendsUpward(par, v, c);
    }
  }

  lemma PassSum(w: seq<int>, s: set<int>, t: set<int>, own: int, deep: int)
    requires s !! t && deep == Int64(own + SumIn(w, s, |w|))
    ensures Int64(deep + SumIn(w, t, |w|)) == Int64(own + SumIn(w, s + t, |w|))
  {
    SumUnion(w, s, t, |w|);
    Int64Absorbs(own + SumIn(w, s, |w|), SumIn(w, t, |w|));
  }

  /** Passing one child: its subtree is settled, its sums are added, and no child is skipped up to the next sibling. */
  lemma SummingStep(before: seq<Category>, mid: seq<Category>, after: seq<Category>, par: seq<int>, bytes: seq<int>,
                    allocations: seq<int>, c: int, p: Pointer)
    requires IsForest(par) && |bytes| == |allocations| == |par| <= |before| && 0 <= c < |par| && par[c] >= 0
    requires Summing(before, mid, par, bytes, allocations, par[c], c)
    requires Settled(mid, after, par, bytes, allocations, c)
    requires NamesNext(par, par[c], c + 1, p)
    ensures Summing(before, after, par, bytes, allocations, par[c], Stand(p, |par|))
  {
    hide Int64, SumIn;
    var v := par[c];
    PassChild(par, c, p);
    PassSum(bytes, Below(par, v, c), Subtree(par, c), bytes[v], mid[v].liveBytesDeep);
    PassSum(allocations, Below(par, v, c), Subtree(par, c), allocations[v], mid[v].liveAllocationsDeep);
    forall i | 0 <= i < |before|
      ensures SameButDeep(after[i], before[i])
    {
      assert SameButDeep(mid[i], before[i]) && SameButDeep(after[i], mid[i]);
    }
  }

  /** Once all children have passed back, the node itself is done. */
  lemma SummingDone(before: seq<Category>, now: seq<Category>, par: seq<int>, bytes: seq<int>, allocations: seq<int>,
                    v: int)
    requires IsForest(par) && |bytes| == |allocations| == |par| <= |before| && 0 <= v < |par|
    requires Summing(before, now, par, bytes, allocations, v, |par|)
    ensures DeepDone(now[v], par, bytes, allocations, v)
    ensures Subtree(par, v) == Below(par, v, |par|) + {v}
    ensures par[v] !in Subtree(par, v)
  {
    SubtreeSplit(par, v);
    SumUnion(bytes, Below(par, v, |par|), {v}, |par|);
    SumUnion(allocations, Below(par, v, |par|), {v}, |par|);
    SumOne(bytes, v, |par|);
    SumOne(allocations, v, |par|);
    if par[v] in Subtree(par, v) {
      DescendsUpward(par, par[v], v);
    }
  }

  lemma SettledRoot(before: seq<Category>, now: seq<Category>, par: seq<int>, bytes: seq<int>, allocations: seq<int>,
                    v: int)
    requires IsForest(par) && |bytes| == |allocations| == |par| <= |before| && 0 <= v < |par| && par[v] == -1
    requires Summing(before, now, par, bytes, allocations, v, |par|)
    ensures Settled(before, now, par, bytes, allocations, v)
  {
    SummingDone(before, now, par, bytes, allocations, v);
  }

  lemma SettledChild(before: seq<Category>, now: seq<Category>, par: seq<int>, bytes: seq<int>, allocations: seq<int>,
                     v: int)
    requires IsForest(par) && |bytes| == |allocations| == |par| <= |before| && 0 <= v < |par| && par[v] >= 0
    requires Summing(before, now, par, bytes, allocations, v, |par|)
    ensures var p := now[par[v]];
            Settled(before, now[par[v] := p.(liveBytesDeep := Int64(p.liveBytesDeep + now[v].liveBytesDeep),
                                             liveAllocationsDeep :=
                                               Int64(p.liveAllocationsDeep + now[v].liveAllocationsDeep))],
                    par, bytes, allocations, v)
  {
    SummingDone(before, now, par, bytes, allocations, v);
    Int64Absorbs(SumIn(bytes, Subtree(par, v), |par|), now[par[v]].liveBytesDeep);
    Int64Absorbs(SumIn(allocations, Subtree(par, v), |par|), now[par[v]].liveAllocationsDeep);
    assert SameButDeep(now[par[v]], before[par[v]]);
  }

  /** What the recursion relies on. */
  ghost predicate Ready(cats: seq<Category>, par: seq<int>, bytes: seq<int>, allocations: seq<int>) {
    Linked(cats, par) && ShallowAre(cats, bytes, allocations) && |bytes| == |par|
  }

  lemma ReadyKept(before: seq<Category>, now: seq<Category>, par: seq<int>, bytes: seq<int>, allocations: seq<int>,
                  v: int, k: int)
    requires Ready(before, par, bytes, allocations) && 0 <= v < |par|
    requires Summing(before, now, par, bytes, allocations, v, k)
    ensures Ready(now, par, bytes, allocations)
  {
    LinksKept(before, now, par, bytes, allocations);
  }

  lemma ChildPassed(before: seq<Category>, mid: seq<Category>, after: seq<Category>, par: seq<int>, bytes: seq<int>,
                    allocations: seq<int>, v: int, c: int)
    requires Ready(before, par, bytes, allocations) && 0 <= c < |par| && 0 <= v == par[c]
    requires Summing(before, mid, par, bytes, allocations, v, c)
    requires Settled(mid, after, par, bytes, allocations, c)
    ensures OnChild(par, v, after[c].nextSibling) && c < Stand(after[c].nextSibling, |par|)
    ensures Summing(before, after, par, bytes, allocations, v, Stand(after[c].nextSibling, |par|))
  {
    ReadyKept(before, mid, par, bytes, allocations, v, c);
    NextSiblingNamed(mid, par, c);
    assert SameButDeep(after[c], mid[c]);
    SummingStep(before, mid, after, par, bytes, allocations, c, after[c].nextSibling);
  }

  method StartFromShallow(buffer: array<Category>, category: Pointer, ghost par: seq<int>, ghost bytes: seq<int>,
                          ghost allocations: seq<int>)
    returns (childCursor: Pointer)
    requires Ready(buffer[..], par, bytes, allocations) && 0 < category <= |par|
    modifies buffer
    ensures OnChild(par, category - 1, childCursor)
    ensures Summing(old(buffer[..]), buffer[..], par, bytes, allocations, category - 1, Stand(childCursor, |par|))
  {
    ghost var before := buffer[..];
    FirstChildNamed(before, par, category - 1);
    SummingStart(before, par, bytes, allocations, category - 1, before[category - 1].firstChild);
    buffer[category - 1] := buffer[category - 1].(liveBytesDeep := buffer[category - 1].liveBytesShallow,
                                                  liveAllocationsDeep := buffer[category - 1].liveAllocationsShallow);
    assert buffer[..] == before[category - 1 := FromShallow(before[category - 1])];
    childCursor := buffer[category - 1].firstChild;
  }

  /** The recursion changes no link of the node it is at. */
  lemma SummedIsLinked(before: seq<Category>, now: seq<Category>, par: seq<int>, bytes: seq<int>, allocations: seq<int>,
                       v: int)
    requires Ready(before, par, bytes, allocations) && 0 <= v < |par|
        && Summing(before, now, par, bytes, allocations, v, |par|)
    ensures |now| == |before| && now[v].parent == before[v].parent == par[v] + 1
    ensures par[v] < |now|
  {
    hide Int64;
    assert SameButDeep(now[v], before[v]);
  }

  method PassToParent(buffer: array<Category>, category: Pointer, ghost before: seq<Category>,
                      ghost par: seq<int>, ghost bytes: seq<int>, ghost allocations: seq<int>)
    requires Ready(before, par, bytes, allocations) && 0 < category <= |par|
    requires Summing(before, buffer[..], par, bytes, allocations, category - 1, |par|)
    modifies buffer
    ensures Settled(before, buffer[..], par, bytes, allocations, category - 1)
  {
    hide Settled, Summing, Int64;
    ghost var now, v := buffer[..], category - 1;
    SummedIsLinked(before, now, par, bytes, allocations, v);
    if buffer[category - 1].parent != 0 {
      SettledChild(before, now, par, bytes, allocations, v);
      var parent := buffer[category - 1].parent;
      buffer[parent - 1] := buffer[parent - 1].(
        liveBytesDeep := Int64(buffer[parent - 1].liveBytesDeep + buffer[category - 1].liveBytesDeep),
        liveAllocationsDeep :=
          Int64(buffer[parent - 1].liveAllocationsDeep + buffer[category - 1].liveAllocationsDeep));
      assert buffer[..] == now[par[v] := buffer[parent - 1]];
    } else {
      SettledRoot(before, now, par, bytes, allocations, v);
    }
  }

  /** Starts a node from its shallow counters, lets every child add to it, then passes the result to the parent. */
  method FillInCategoryDeepCounters(buffer: array<Category>, category: Pointer, ghost par: seq<int>,
                                    ghost bytes: seq<int>, ghost allocations: seq<int>)
    requires Ready(buffer[..], par, bytes, allocations)
    requires 0 < category <= |par|
    modifies buffer
    ensures Settled(old(buffer[..]), buffer[..], par, bytes, allocations, category - 1)
    decreases |par| - category, 0
  {
    ghost var before, v := buffer[..], category - 1;
    var childCursor := StartFromShallow(buffer, category, par, bytes, allocations);
    while childCursor != 0
      invariant OnChild(par, v, childCursor)
      invariant Summing(before, buffer[..], par, bytes, allocations, v, Stand(childCursor, |par|))
      decreases |par| - Stand(childCursor, |par|)
    {
      childCursor := FillInChild(buffer, childCursor, before, par, bytes, allocations);
    }
    PassToParent(buffer, category, before, par, bytes, allocations);
  }

  /** One turn of the child loop: settles the child and moves to its next sibling. */
  method FillInChild(buffer: array<Category>, childCursor: Pointer, ghost before: seq<Category>,
                     ghost par: seq<int>, ghost bytes: seq<int>, ghost allocations: seq<int>)
    returns (next: Pointer)
    requires Ready(before, par, bytes, allocations) && 0 < childCursor <= |par| && par[childCursor - 1] >= 0
    requires Summing(before, buffer[..], par, bytes, allocations, par[childCursor - 1], childCursor - 1)
    modifies buffer
    ensures OnChild(par, par[childCursor - 1], next) && childCursor - 1 < Stand(next, |par|)
    ensures Summing(before, buffer[..], par, bytes, allocations, par[childCursor - 1], Stand(next, |par|))
    decreases |par| - childCursor, 1
  {
    ghost var mid, c := buffer[..], childCursor - 1;
    ReadyKept(before, mid, par, bytes, allocations, par[c], c);
    FillInCategoryDeepCounters(buffer, childCursor, par, bytes, allocations);
    ChildPassed(before, mid, buffer[..], par, bytes, allocations, par[c], c);
    next := buffer[childCursor - 1].nextSibling;
  }

  // ---- the whole snapshot ----

  /** The forest below the roots before `k` is settled, the rest is as it was. */
  ghost predicate RootsDone(before: seq<Category>, now: seq<Category>, par: seq<int>, bytes: seq<int>,
                            allocations: seq<int>, k: int)
    requires IsForest(par) && |bytes| == |allocations| == |par| <= |before|
  {
    && |now| == |before|
    && (forall i :: 0 <= i < |before| ==> SameButDeep(now[i], before[i]))
    && (forall i :: |par| <= i < |before| ==> now[i] == before[i])
    && (forall i :: i in Below(par, -1, k) ==> DeepDone(now[i], par, bytes, allocations, i))
  }

  lemma RootStep(before: seq<Category>, mid: seq<Category>, after: seq<Category>, par: seq<int>, bytes: seq<int>,
                 allocations: seq<int>, r: int)
    requires IsForest(par) && |bytes| == |allocations| == |par| <= |before| && 0 <= r < |par| && par[r] == -1
    requires RootsDone(before, mid, par, bytes, allocations, r)
    requires Settled(mid, after, par, bytes, allocations, r)
    ensures RootsDone(before, after, par, bytes, allocations, r + 1)
  {
    BelowStep(par, -1, r);
    forall i | 0 <= i < |before|
      ensures SameButDeep(after[i], before[i])
    {
      assert SameButDeep(mid[i], before[i]) && SameButDeep(after[i], mid[i]);
    }
  }

  lemma {:induction false} AllBelowRoots(par: seq<int>)
    requires IsForest(par)
    ensures forall j :: j in Below(par, -1, |par|) <==> 0 <= j < |par|
  {
    SubtreeSplit(par, -1);
    forall j | 0 <= j < |par|
      ensures Descends(par, j, -1)
    {
      EverythingDescends(par, j);
    }
  }

  /** Sums every tree of the forest, root by root. */
  method FillInAllDeepCounters(buffer: array<Category>, written: nat, ghost par: seq<int>, ghost bytes: seq<int>,
                               ghost allocations: seq<int>)
    requires Ready(buffer[..], par, bytes, allocations) && written == |par|
    modifies buffer
    ensures RootsDone(old(buffer[..]), buffer[..], par, bytes, allocations, written)
  {
    ghost var before := buffer[..];
    for i := 0 to written
      invariant RootsDone(before, buffer[..], par, bytes, allocations, i)
    {
      ghost var mid := buffer[..];
      LinksKept(before, mid, par, bytes, allocations);
      if buffer[i].parent == 0 {
        FillInCategoryDeepCounters(buffer, i + 1, par, bytes, allocations);
        RootStep(before, mid, buffer[..], par, bytes, allocations, i);
      } else {
        BelowStep(par, -1, i);
      }
    }
  }

  /** What a caller of the snapshot gets in its first `n` records. */
  ghost predicate IsSnapshot(cats: seq<Category>, walk: seq<Visit>, n: nat)
    requires WellFormed(walk) && n <= |walk|
  {
    var par, bytes, allocations := Parents(walk, n), ShallowBytes(walk, n), ShallowAllocations(walk, n);
    && Linked(cats, par)
    && ShallowAre(cats, bytes, allocations)
    && (forall i :: 0 <= i < n ==> cats[i].name == walk[i].name)
    && (forall i :: 0 <= i < n ==> DeepDone(cats[i], par, bytes, allocations, i))
  }

  lemma SnapshotComplete(recorded: seq<Category>, threaded: seq<Category>, summed: seq<Category>, walk: seq<Visit>,
                         n: nat)
    requires WellFormed(walk) && n <= |walk| && n <= |recorded|
    requires forall i :: 0 <= i < n ==> recorded[i] == Recorded(walk, i)
    requires AllThreaded(recorded, threaded, Parents(walk, n), n)
    requires RootsDone(threaded, summed, Parents(walk, n), ShallowBytes(walk, n), ShallowAllocations(walk, n), n)
    ensures IsSnapshot(summed, walk, n)
  {
    var par := Parents(walk, n);
    ThreadedReady(recorded, threaded, walk, n);
    AllBelowRoots(par);
    LinksKept(threaded, summed, par, ShallowBytes(walk, n), ShallowAllocations(walk, n));
    forall i | 0 <= i < n
      ensures summed[i].name == walk[i].name
    {
      assert SameButDeep(summed[i], threaded[i]);
      assert threaded[i] == Threaded(recorded[i], par, i, n);
    }
  }

  lemma ThreadedReady(recorded: seq<Category>, threaded: seq<Category>, walk: seq<Visit>, n: nat)
    requires WellFormed(walk) && n <= |walk| && n <= |recorded|
    requires forall i :: 0 <= i < n ==> recorded[i] == Recorded(walk, i)
    requires AllThreaded(recorded, threaded, Parents(walk, n), n)
    ensures Ready(threaded, Parents(walk, n), ShallowBytes(walk, n), ShallowAllocations(walk, n))
  {
    hide NextChild, LastChild, Position, Int64, WellFormed;
    var par := Parents(walk, n);
    forall i | 0 <= i < n
      ensures threaded[i] == Threaded(recorded[i], par, i, n) && recorded[i].parent == par[i] + 1
      ensures Int64(Int64(walk[i].liveBytes)) == Int64(walk[i].liveBytes)
      ensures Int64(Int64(walk[i].liveAllocations)) == Int64(walk[i].liveAllocations)
    {
      Int64Absorbs(walk[i].liveBytes, 0);
      Int64Absorbs(walk[i].liveAllocations, 0);
    }
  }

  lemma RecordedUnlinked(recorded: seq<Category>, walk: seq<Visit>, n: nat)
    requires WellFormed(walk) && n <= |walk| && n <= |recorded|
    requires forall i :: 0 <= i < n ==> recorded[i] == Recorded(walk, i)
    ensures Unlinked(recorded, Parents(walk, n))
  {
    hide WellFormed, Int64;
  }

  /** Records, threads and sums the walk in a zeroed buffer. */
  method Snapshot(walk: seq<Visit>, maxCategories: int, buffer: array<Category>, mapping: array<Pointer>)
    returns (written: nat, overflow: bool)
    requires WellFormed(walk) && maxCategories <= buffer.Length
    requires mapping.Length == MappingSize(Codes(walk))
    requires forall i :: 0 <= i < maxCategories ==> buffer[i] == ZEROED
    modifies buffer, mapping
    ensures written == Min(|walk|, Max(maxCategories, 0)) && (overflow <==> written < |walk|)
    ensures IsSnapshot(buffer[..], walk, written)
    ensures forall i :: written <= i < buffer.Length ==> buffer[i] == old(buffer[i])
  {
    hide WellFormed, IsSnapshot, RootsDone, Recorded, Threaded, Linked, Unlinked, Ready;
    ghost var start := buffer[..];
    var state := new WalkState(buffer, maxCategories, mapping);
    WriteCategories(walk, state);
    written, overflow := state.written, state.overflow;
    ghost var recorded, par := buffer[..], Parents(walk, written);
    RecordedUnlinked(recorded, walk, written);
    FillInChildAndSiblingCategories(buffer, written, par);
    ghost var threaded := buffer[..];
    ThreadedReady(recorded, threaded, walk, written);
    FillInAllDeepCounters(buffer, written, par, ShallowBytes(walk, written), ShallowAllocations(walk, written));
    SnapshotComplete(recorded, threaded, buffer[..], walk, written);
    forall i | written <= i < buffer.Length
      ensures buffer[..][i] == start[i]
    {
      assert buffer[..][i] == threaded[i] == recorded[i];
    }
  }

  /** The tooling interface call: argument checks, the walks, the error codes. A NULL output pointer is a
      flag that is false; an output nobody asked for has no meaning. */
  method GetMemoryCategories(attached: bool, maxCategories: int, buffer: array?<Category>, wantsWritten: bool,
                             wantsTotal: bool, walk: seq<Visit>, allocationSucceeds: bool)
    returns (rc: ErrorCode, written: nat, total: nat)
    requires WellFormed(walk)
    requires buffer != null ==> maxCategories <= buffer.Length
    modifies buffer
    ensures rc == ThreadNotAttached <==> !attached
    ensures rc == IllegalArgument <==>
            (attached && ((maxCategories > 0 && (buffer == null || !wantsWritten))
                          || (buffer == null && !wantsWritten && !wantsTotal)))
    ensures rc == Internal <==> attached && rc != IllegalArgument && buffer != null && !allocationSucceeds
    ensures rc != NotAvailable
    ensures rc in {ErrorNone, OutOfNativeMemory} ==>
      && total == |walk|
      && written == (if buffer == null then 0 else Min(|walk|, Max(maxCategories, 0)))
      && (rc == OutOfNativeMemory <==> buffer != null && written < total)
      && (buffer != null ==> IsSnapshot(buffer[..], walk, written))
    ensures rc !in {ErrorNone, OutOfNativeMemory} && buffer != null ==> buffer[..] == old(buffer[..])
    ensures buffer != null ==> forall i :: Max(maxCategories, 0) <= i < buffer.Length ==> buffer[i] == old(buffer[i])
  {
    hide IsSnapshot, WellFormed, MappingSize;
    written, total := 0, 0;
    if !attached {
      return ThreadNotAttached, written, total;
    }
    rc := NotAvailable;
    var max := if maxCategories < 0 then 0 else maxCategories;
    if max > 0 && buffer == null {
      return IllegalArgument, written, total;
    }
    if max > 0 && buffer != null && !wantsWritten {
      return IllegalArgument, written, total;
    }
    if buffer == null && !wantsWritten && !wantsTotal {
      return IllegalArgument, written, total;
    }
    for i := 0 to |walk|
      invariant total == i
    {
      total := total + 1;
    }
    if buffer != null {
      var size := CountSlots(Codes(walk));
      if !allocationSucceeds {
        return Internal, written, total;
      }
      var mapping := new Pointer[size](_ => 0);
      forall i | 0 <= i < max {
        buffer[i] := ZEROED;
      }
      var overflow;
      written, overflow := Snapshot(walk, maxCategories, buffer, mapping);
      rc := if overflow then OutOfNativeMemory else ErrorNone;
    }
    if wantsWritten && rc == NotAvailable {
      rc := ErrorNone;
    }
    if wantsTotal && rc == NotAvailable {
      rc := ErrorNone;
    }
  }
}

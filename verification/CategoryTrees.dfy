/**
 The snapshot against the registered trees of categories: one record for every node of the trees, with its own
 counters, and with deep counters that are the sums over its tree.
 */
module CategoryTrees {
  import opened Words
  import opened CategoryCodes
  import opened Forests
  import opened MemoryCategories
  import opened CategoryLists

  // ---- the trees ----

  ghost predicate InForest(trees: seq<Tree>, t: Tree) {
    trees != [] && (trees[0] == t || InForest(trees[0].children, t) || InForest(trees[1..], t))
  }

  ghost function NodeCount(trees: seq<Tree>): nat {
    if trees == [] then 0 else 1 + NodeCount(trees[0].children) + NodeCount(trees[1..])
  }

  function Own(t: Tree, allocations: bool): int {
    if allocations then t.liveAllocations else t.liveBytes
  }

  /** All that the nodes of the trees count, each for itself. */
  ghost function TreeTotal(trees: seq<Tree>, allocations: bool): int {
    if trees == [] then 0
    else Own(trees[0], allocations) + TreeTotal(trees[0].children, allocations) + TreeTotal(trees[1..], allocations)
  }

  lemma {:induction false} InForestIsReached(trees: seq<Tree>, k: nat)
    requires k < |trees|
    ensures InForest(trees, trees[k])
  {
    if k > 0 {
      InForestIsReached(trees[1..], k - 1);
    }
  }

  /** The trees of a forest include their subtrees. */
  lemma {:induction false} InForestBelow(trees: seq<Tree>, t: Tree, c: Tree)
    requires InForest(trees, t) && InForest(t.children, c)
    ensures InForest(trees, c)
    decreases trees
  {
    if trees[0] != t {
      if InForest(trees[0].children, t) {
        InForestBelow(trees[0].children, t, c);
      } else {
        InForestBelow(trees[1..], t, c);
      }
    }
  }

  // ---- where a tree lies in the walk ----

  ghost predicate LiesAt(walk: seq<Visit>, d: nat, part: seq<Visit>) {
    d + |part| <= |walk| && forall k :: 0 <= k < |part| ==> walk[d + k] == part[k]
  }

  lemma PartLies(walk: seq<Visit>, d: nat, part: seq<Visit>, a: nat, b: nat)
    requires LiesAt(walk, d, part) && a <= b <= |part|
    ensures LiesAt(walk, d + a, part[a..b])
  {
    forall k | 0 <= k < b - a
      ensures walk[d + a + k] == part[a..b][k]
    {
      assert walk[d + (a + k)] == part[a + k];
    }
  }

  lemma PartAt(walk: seq<Visit>, d: nat, part: seq<Visit>, k: nat)
    requires LiesAt(walk, d, part) && k < |part|
    ensures walk[d + k] == part[k]
  {
  }

  ghost predicate Distinct(walk: seq<Visit>) {
    forall i, j :: 0 <= i < j < |walk| ==> walk[i].code != walk[j].code
  }

  /** Nothing outside the stretch hangs below anything inside. */
  ghost predicate Enclosed(walk: seq<Visit>, d: nat, e: nat) {
    forall i, j :: 0 <= j < |walk| && !(d <= j < e) && !walk[j].isRoot && d <= i < e && i < |walk| ==>
      walk[i].code != walk[j].parentCode
  }

  /** Everything inside the stretch hangs below something earlier inside, or below `parent`, or is a root; without
      roots nothing is one. */
  ghost predicate HangsInside(walk: seq<Visit>, d: nat, e: nat, roots: bool, parent: Code)
    requires e <= |walk|
  {
    forall j :: d <= j < e ==>
      && (roots || !walk[j].isRoot)
      && ((if roots then walk[j].isRoot else walk[j].parentCode == parent)
          || exists i :: d <= i < j && walk[i].code == walk[j].parentCode)
  }

  lemma {:induction false} NoRoots(trees: seq<Tree>, parent: Code, i: nat)
    requires i < |WalkTrees(trees, false, parent)|
    ensures !WalkTrees(trees, false, parent)[i].isRoot
  {
    var inner := WalkTrees(trees[0].children, false, trees[0].code);
    if 0 < i <= |inner| {
      NoRoots(trees[0].children, trees[0].code, i - 1);
    } else if i > 0 {
      NoRoots(trees[1..], parent, i - 1 - |inner|);
    }
  }

  lemma StretchHangs(walk: seq<Visit>, d: nat, trees: seq<Tree>, roots: bool, parent: Code)
    requires LiesAt(walk, d, WalkTrees(trees, roots, parent))
    ensures HangsInside(walk, d, d + |WalkTrees(trees, roots, parent)|, roots, parent)
  {
    hide WalkTrees;
    var part := WalkTrees(trees, roots, parent);
    WalkAnchored(trees, roots, parent, part);
    forall j | d <= j < d + |part|
      ensures roots || !walk[j].isRoot
      ensures || (if roots then walk[j].isRoot else walk[j].parentCode == parent)
              || exists i :: d <= i < j && walk[i].code == walk[j].parentCode
    {
      if !roots {
        NoRoots(trees, parent, j - d);
      }
      PartAt(walk, d, part, j - d);
      assert Anchored(part, j - d, roots, parent);
      if exists k :: 0 <= k < j - d && part[k].code == part[j - d].parentCode {
        var k :| 0 <= k < j - d && part[k].code == part[j - d].parentCode;
        PartAt(walk, d, part, k);
        assert walk[d + k].code == walk[j].parentCode;
      }
    }
  }

  /** The code above a stretch is that of none of its nodes. */
  ghost predicate Apart(walk: seq<Visit>, d: nat, e: nat, roots: bool, parent: Code)
    requires e <= |walk|
  {
    !roots ==> forall i :: d <= i < e ==> walk[i].code != parent
  }

  /** A stretch that is enclosed falls into parts that are. */
  lemma CutEnclosed(walk: seq<Visit>, d: nat, m: nat, e: nat, roots: bool, parent: Code)
    requires Distinct(walk) && d <= m <= e <= |walk| && Enclosed(walk, d, e) && Apart(walk, d, e, roots, parent)
    requires HangsInside(walk, m, e, roots, parent)
    ensures Enclosed(walk, d, m)
  {
  }

  lemma RestEnclosed(walk: seq<Visit>, d: nat, m: nat, e: nat, roots: bool, parent: Code)
    requires Distinct(walk) && d <= m <= e <= |walk| && Enclosed(walk, d, e) && Apart(walk, d, e, roots, parent)
    requires HangsInside(walk, d, m, roots, parent)
    ensures Enclosed(walk, m, e)
  {
  }

  lemma InnerEnclosed(walk: seq<Visit>, d: nat, m: nat, roots: bool, parent: Code)
    requires Distinct(walk) && d < m <= |walk| && Enclosed(walk, d, m) && Apart(walk, d, m, roots, parent)
    requires if roots then walk[d].isRoot else walk[d].parentCode == parent
    ensures Enclosed(walk, d + 1, m) && Apart(walk, d + 1, m, false, walk[d].code)
  {
  }

  /** Node `t` was visited at `i`, and the walk of its children follows. */
  ghost predicate VisitedAt(walk: seq<Visit>, i: nat, t: Tree) {
    && i < |walk| && walk[i].code == t.code && walk[i].name == t.name
    && walk[i].liveBytes == t.liveBytes && walk[i].liveAllocations == t.liveAllocations
    && LiesAt(walk, i + 1, WalkTrees(t.children, false, t.code))
  }

  /** The first visit of the walk over some trees is that of the first tree. */
  lemma FirstVisit(walk: seq<Visit>, d: nat, trees: seq<Tree>, roots: bool, parent: Code)
    requires trees != [] && LiesAt(walk, d, WalkTrees(trees, roots, parent))
    ensures VisitedAt(walk, d, trees[0])
    ensures if roots then walk[d].isRoot else !walk[d].isRoot && walk[d].parentCode == parent
    ensures var m := d + 1 + |WalkTrees(trees[0].children, false, trees[0].code)|;
            && LiesAt(walk, m, WalkTrees(trees[1..], roots, parent))
            && m + |WalkTrees(trees[1..], roots, parent)| == d + |WalkTrees(trees, roots, parent)|
  {
    var t, part := trees[0], WalkTrees(trees, roots, parent);
    var inner, rest := WalkTrees(t.children, false, t.code), WalkTrees(trees[1..], roots, parent);
    WalkUnfold(trees, roots, parent);
    PartAt(walk, d, part, 0);
    PartLies(walk, d, part, 1, 1 + |inner|);
    PartLies(walk, d, part, 1 + |inner|, |part|);
    assert part[1 + |inner|..|part|] == rest;
  }

  /** Every node of the trees has its place in the walk, with its subtree enclosed behind it. */
  lemma {:induction false} NodeIsVisited(walk: seq<Visit>, d: nat, trees: seq<Tree>, roots: bool, parent: Code, t: Tree)
    returns (i: nat)
    requires Distinct(walk) && InForest(trees, t) && LiesAt(walk, d, WalkTrees(trees, roots, parent))
    requires var e := d + |WalkTrees(trees, roots, parent)|;
             Enclosed(walk, d, e) && Apart(walk, d, e, roots, parent)
    ensures VisitedAt(walk, i, t)
    ensures Enclosed(walk, i, i + 1 + |WalkTrees(t.children, false, t.code)|)
    decreases trees
  {
    hide WalkTrees, Enclosed, HangsInside, Distinct, LiesAt;
    var first := trees[0];
    var inner, rest := WalkTrees(first.children, false, first.code), WalkTrees(trees[1..], roots, parent);
    var m, e := d + 1 + |inner|, d + |WalkTrees(trees, roots, parent)|;
    FirstVisit(walk, d, trees, roots, parent);
    LiesInside(walk, m, rest);
    StretchHangs(walk, m, trees[1..], roots, parent);
    CutEnclosed(walk, d, m, e, roots, parent);
    if first == t {
      i := d;
    } else if InForest(first.children, t) {
      InnerEnclosed(walk, d, m, roots, parent);
      i := NodeIsVisited(walk, d + 1, first.children, false, first.code, t);
    } else {
      FirstHangs(walk, d, first, roots, parent);
      RestEnclosed(walk, d, m, e, roots, parent);
      i := NodeIsVisited(walk, m, trees[1..], roots, parent, t);
    }
  }

  lemma LiesInside(walk: seq<Visit>, d: nat, part: seq<Visit>)
    requires LiesAt(walk, d, part)
    ensures d + |part| <= |walk|
  {
  }

  lemma FirstHangs(walk: seq<Visit>, d: nat, t: Tree, roots: bool, parent: Code)
    requires VisitedAt(walk, d, t)
    requires if roots then walk[d].isRoot else !walk[d].isRoot && walk[d].parentCode == parent
    ensures HangsInside(walk, d, d + 1 + |WalkTrees(t.children, false, t.code)|, roots, parent)
  {
    hide WalkTrees;
    StretchHangs(walk, d + 1, t.children, false, t.code);
  }

  // ---- the subtree of a node is its stretch of the walk ----

  lemma {:induction false} InsideDescends(walk: seq<Visit>, i: nat, e: nat, j: nat)
    requires WellFormed(walk) && i < e <= |walk| && i <= j < e && HangsInside(walk, i + 1, e, false, walk[i].code)
    ensures Descends(Parents(walk, |walk|), j, i)
    decreases j
  {
    hide WellFormed, HangsInside;
    if i < j {
      ParentInside(walk, i, e, j);
      InsideDescends(walk, i, e, ParentOf(walk, j));
    }
  }

  lemma ParentInside(walk: seq<Visit>, i: nat, e: nat, j: nat)
    requires WellFormed(walk) && i < j < e <= |walk| && HangsInside(walk, i + 1, e, false, walk[i].code)
    ensures i <= ParentOf(walk, j) < j
  {
    hide Position;
    var k :| i <= k < j && walk[k].code == walk[j].parentCode;
    assert walk[ParentOf(walk, j)].code == walk[k].code;
  }

  lemma {:induction false} OutsideDoesNot(walk: seq<Visit>, i: nat, e: nat, j: int)
    requires WellFormed(walk) && i < e <= |walk| && -1 <= j < |walk| && !(i <= j < e) && Enclosed(walk, i, e)
    ensures !Descends(Parents(walk, |walk|), j, i)
    decreases j + 1
  {
    hide WellFormed, Enclosed;
    if j >= 0 {
      ParentOutside(walk, i, e, j);
      OutsideDoesNot(walk, i, e, ParentOf(walk, j));
    }
  }

  lemma ParentOutside(walk: seq<Visit>, i: nat, e: nat, j: nat)
    requires WellFormed(walk) && i < e <= |walk| && j < |walk| && !(i <= j < e) && Enclosed(walk, i, e)
    ensures !(i <= ParentOf(walk, j) < e)
  {
    hide Position;
  }

  lemma SubtreeIsStretch(walk: seq<Visit>, i: nat, e: nat)
    requires WellFormed(walk) && i < e <= |walk| && Enclosed(walk, i, e)
    requires HangsInside(walk, i + 1, e, false, walk[i].code)
    ensures forall j :: 0 <= j < |walk| ==> (j in Subtree(Parents(walk, |walk|), i) <==> i <= j < e)
  {
    hide WellFormed, Enclosed, HangsInside, Descends;
    forall j | 0 <= j < |walk|
      ensures Descends(Parents(walk, |walk|), j, i) <==> i <= j < e
    {
      if i <= j < e {
        InsideDescends(walk, i, e, j);
      } else {
        OutsideDoesNot(walk, i, e, j);
      }
    }
  }

  // ---- sums ----

  /** The sum of `w` from `i` on, up to `k`. */
  ghost function Between(w: seq<int>, i: nat, k: nat): int
    requires k <= |w|
  {
    if k <= i then 0 else Between(w, i, k - 1) + w[k - 1]
  }

  lemma {:induction false} SumOfStretch(w: seq<int>, s: set<int>, i: nat, e: nat, n: nat)
    requires i <= e <= |w| && n <= |w| && forall j :: 0 <= j < n ==> (j in s <==> i <= j < e)
    ensures SumIn(w, s, n) == Between(w, i, if n <= e then n else e)
  {
    if n > 0 {
      SumOfStretch(w, s, i, e, n - 1);
    }
  }

  function Live(v: Visit, allocations: bool): int {
    if allocations then v.liveAllocations else v.liveBytes
  }

  ghost function LiveTotal(walk: seq<Visit>, allocations: bool): int {
    if walk == [] then 0 else LiveTotal(walk[..|walk| - 1], allocations) + Live(walk[|walk| - 1], allocations)
  }

  lemma {:induction false} LiveOfBoth(a: seq<Visit>, b: seq<Visit>, allocations: bool)
    ensures LiveTotal(a + b, allocations) == LiveTotal(a, allocations) + LiveTotal(b, allocations)
  {
    if b == [] {
      assert a + b == a;
    } else {
      LiveOfBoth(a, b[..|b| - 1], allocations);
      assert (a + b)[..|a + b| - 1] == a + b[..|b| - 1];
    }
  }

  lemma LiveOfOne(v: Visit, allocations: bool)
    ensures LiveTotal([v], allocations) == Live(v, allocations)
  {
    assert [v][..0] == [];
  }

  /** The walk visits every node once with what it counts. */
  lemma {:induction false} WalkCountsTrees(trees: seq<Tree>, roots: bool, parent: Code, allocations: bool)
    ensures LiveTotal(WalkTrees(trees, roots, parent), allocations) == TreeTotal(trees, allocations)
    ensures |WalkTrees(trees, roots, parent)| == NodeCount(trees)
  {
    if trees != [] {
      var t := trees[0];
      var inner, rest := WalkTrees(t.children, false, t.code), WalkTrees(trees[1..], roots, parent);
      var first := WalkTrees(trees, roots, parent)[0];
      WalkCountsTrees(t.children, false, t.code, allocations);
      WalkCountsTrees(trees[1..], roots, parent, allocations);
      hide LiveTotal;
      assert WalkTrees(trees, roots, parent) == [first] + inner + rest;
      LiveOfBoth([first] + inner, rest, allocations);
      LiveOfBoth([first], inner, allocations);
      LiveOfOne(first, allocations);
    }
  }

  /** Adding up wrapped counters or the counters themselves is the same, once wrapped. */
  lemma {:induction false} WrappedTotal(walk: seq<Visit>, w: seq<int>, i: nat, part: seq<Visit>, n: nat,
                                        allocations: bool)
    requires LiesAt(walk, i, part) && n <= |part|
    requires |w| == |walk| && forall j :: 0 <= j < |w| ==> w[j] == Int64(Live(walk[j], allocations))
    ensures Int64(Between(w, i, i + n)) == Int64(LiveTotal(part[..n], allocations))
  {
    hide Int64, Live;
    if n > 0 {
      WrappedTotal(walk, w, i, part, n - 1, allocations);
      assert part[..n][..n - 1] == part[..n - 1];
      assert walk[i + (n - 1)] == part[n - 1];
      Int64Sum(Between(w, i, i + n - 1), w[i + n - 1], LiveTotal(part[..n - 1], allocations),
               Live(part[n - 1], allocations));
    }
  }

  lemma Int64Sum(a: int, b: int, c: int, d: int)
    requires Int64(a) == Int64(c) && b == Int64(d)
    ensures Int64(a + b) == Int64(c + d)
  {
    hide Int64;
    Int64Absorbs(a, b);
    Int64Absorbs(c, b);
    Int64Absorbs(d, c);
  }

  /** What the subtree of a node adds up to is what its tree does. */
  lemma DeepIsTreeTotal(walk: seq<Visit>, i: nat, t: Tree, w: seq<int>, allocations: bool)
    requires WellFormed(walk) && VisitedAt(walk, i, t)
    requires Enclosed(walk, i, i + 1 + |WalkTrees(t.children, false, t.code)|)
    requires |w| == |walk| && forall j :: 0 <= j < |w| ==> w[j] == Int64(Live(walk[j], allocations))
    ensures Int64(SumIn(w, Subtree(Parents(walk, |walk|), i), |walk|)) == Int64(TreeTotal([t], allocations))
  {
    hide WellFormed, WalkTrees, Enclosed, HangsInside, Live, Int64, Between, LiveTotal, SumIn, Subtree, LiesAt;
    var inner := WalkTrees(t.children, false, t.code);
    var part := [walk[i]] + inner;
    StretchLies(walk, i, inner);
    StretchHangs(walk, i + 1, t.children, false, t.code);
    SubtreeIsStretch(walk, i, i + |part|);
    SumOfStretch(w, Subtree(Parents(walk, |walk|), i), i, i + |part|, |walk|);
    WrappedTotal(walk, w, i, part, |part|, allocations);
    assert part[..|part|] == part;
    VisitFields(walk, i, t);
    StretchTotal(walk[i], inner, t, allocations);
  }

  lemma StretchLies(walk: seq<Visit>, i: nat, inner: seq<Visit>)
    requires i < |walk| && LiesAt(walk, i + 1, inner)
    ensures LiesAt(walk, i, [walk[i]] + inner) && i + |[walk[i]] + inner| <= |walk|
  {
    var part := [walk[i]] + inner;
    forall k | 0 <= k < |part|
      ensures walk[i + k] == part[k]
    {
      if k > 0 {
        assert walk[i + 1 + (k - 1)] == inner[k - 1];
      }
    }
  }

  lemma StretchTotal(v: Visit, inner: seq<Visit>, t: Tree, allocations: bool)
    requires inner == WalkTrees(t.children, false, t.code) && Live(v, allocations) == Own(t, allocations)
    ensures LiveTotal([v] + inner, allocations) == TreeTotal([t], allocations)
  {
    LiveOfBoth([v], inner, allocations);
    LiveOfOne(v, allocations);
    WalkCountsTrees(t.children, false, t.code, allocations);
    assert [t][1..] == [];
  }

  // ---- the snapshot of the trees ----

  /** Slot `i` holds the record of node `t`: its name, its own counters, and the sums over its tree. */
  ghost predicate IsRecordOf(c: Category, t: Tree) {
    && c.name == t.name
    && c.liveBytesShallow == Int64(t.liveBytes) && c.liveAllocationsShallow == Int64(t.liveAllocations)
    && c.liveBytesDeep == Int64(TreeTotal([t], false)) && c.liveAllocationsDeep == Int64(TreeTotal([t], true))
  }

  /** A complete snapshot of category trees with distinct codes has as many records as the trees have nodes, and one of
      them, found by the code of the node, for every node: with the name and the counters of the node and with deep
      counters that are the sums over its tree, modulo the word. */
  lemma SnapshotOfTrees(trees: seq<Tree>, cats: seq<Category>, t: Tree) returns (i: nat)
    requires var walk := WalkTrees(trees, true, 0);
             && Distinct(walk) && (forall i :: 0 <= i < |walk| ==> walk[i].code != LANGUAGE_CATEGORY_LIMIT)
             && WellFormed(walk) && IsSnapshot(cats, walk, |walk|)
    requires InForest(trees, t)
    ensures |WalkTrees(trees, true, 0)| == NodeCount(trees)
    ensures i < |WalkTrees(trees, true, 0)| <= |cats|
    ensures VisitedAt(WalkTrees(trees, true, 0), i, t) && IsRecordOf(cats[i], t)
  {
    hide WellFormed, WalkTrees, Enclosed, Int64, VisitedAt, TreeTotal, SumIn, Subtree, IsSnapshot, ShallowBytes,
      ShallowAllocations, LiesAt, Apart, Live, Own;
    var walk := WalkTrees(trees, true, 0);
    WalkCountsTrees(trees, true, 0, false);
    WholeWalk(walk);
    i := NodeIsVisited(walk, 0, trees, true, 0, t);
    VisitFields(walk, i, t);
    SnapshotRecord(cats, walk, i);
    ShallowFields(walk, i);
    DeepIsTreeTotal(walk, i, t, ShallowBytes(walk, |walk|), false);
    DeepIsTreeTotal(walk, i, t, ShallowAllocations(walk, |walk|), true);
  }

  /** What a complete snapshot says about one of its records. */
  lemma SnapshotRecord(cats: seq<Category>, walk: seq<Visit>, i: nat)
    requires WellFormed(walk) && IsSnapshot(cats, walk, |walk|) && i < |walk|
    ensures i < |walk| <= |cats| && cats[i].name == walk[i].name
    ensures cats[i].liveBytesShallow == Int64(walk[i].liveBytes)
    ensures cats[i].liveAllocationsShallow == Int64(walk[i].liveAllocations)
    ensures var par := Parents(walk, |walk|);
      && cats[i].liveBytesDeep == Int64(SumIn(ShallowBytes(walk, |walk|), Subtree(par, i), |walk|))
      && cats[i].liveAllocationsDeep == Int64(SumIn(ShallowAllocations(walk, |walk|), Subtree(par, i), |walk|))
  {
    hide WellFormed, Linked, SumIn, Subtree, Int64;
    assert DeepDone(cats[i], Parents(walk, |walk|), ShallowBytes(walk, |walk|), ShallowAllocations(walk, |walk|), i);
  }

  lemma WholeWalk(walk: seq<Visit>)
    ensures LiesAt(walk, 0, walk) && Enclosed(walk, 0, |walk|) && Apart(walk, 0, |walk|, true, 0)
  {
  }

  lemma VisitFields(walk: seq<Visit>, i: nat, t: Tree)
    requires VisitedAt(walk, i, t)
    ensures i < |walk| && walk[i].name == t.name
    ensures walk[i].liveBytes == t.liveBytes && walk[i].liveAllocations == t.liveAllocations
    ensures forall allocations :: Live(walk[i], allocations) == Own(t, allocations)
  {
  }

  lemma ShallowFields(walk: seq<Visit>, i: nat)
    requires i < |walk|
    ensures ShallowBytes(walk, |walk|)[i] == Int64(walk[i].liveBytes)
    ensures ShallowAllocations(walk, |walk|)[i] == Int64(walk[i].liveAllocations)
    ensures forall j :: 0 <= j < |walk| ==> ShallowBytes(walk, |walk|)[j] == Int64(Live(walk[j], false))
    ensures forall j :: 0 <= j < |walk| ==> ShallowAllocations(walk, |walk|)[j] == Int64(Live(walk[j], true))
  {
    hide Int64;
  }

  /** The record of a child names the record of its parent. */
  lemma ParentsOfTrees(trees: seq<Tree>, cats: seq<Category>, i: nat, t: Tree, j: nat, c: Tree)
    requires var walk := WalkTrees(trees, true, 0);
             WellFormed(walk) && IsSnapshot(cats, walk, |walk|) && VisitedAt(walk, i, t) && VisitedAt(walk, j, c)
    requires c in t.children
    ensures j < |cats| && cats[j].parent == i + 1
  {
    hide WellFormed, IsSnapshot, WalkTrees, LiesAt;
    var walk := WalkTrees(trees, true, 0);
    var k: nat :| k < |t.children| && t.children[k] == c;
    var p := ChildIsVisited(walk, i + 1, t.children, t.code, k);
    SameCodeSamePlace(walk, p, j);
    ParentPlace(walk, j, i);
    ParentRecorded(cats, walk, j);
  }

  lemma SameCodeSamePlace(walk: seq<Visit>, i: nat, j: nat)
    requires WellFormed(walk) && i < |walk| && j < |walk| && walk[i].code == walk[j].code
    ensures i == j
  {
    hide Position;
  }

  lemma ParentPlace(walk: seq<Visit>, j: nat, i: nat)
    requires WellFormed(walk) && i < |walk| && j < |walk| && !walk[j].isRoot && walk[j].parentCode == walk[i].code
    ensures ParentOf(walk, j) == i
  {
    hide Position;
    SameCodeSamePlace(walk, ParentOf(walk, j), i);
  }

  lemma ParentRecorded(cats: seq<Category>, walk: seq<Visit>, j: nat)
    requires WellFormed(walk) && IsSnapshot(cats, walk, |walk|) && j < |walk|
    ensures j < |cats| && cats[j].parent == ParentOf(walk, j) + 1
  {
    hide WellFormed, NextChild, DeepDone, ShallowAre;
  }

  lemma {:induction false} ChildIsVisited(walk: seq<Visit>, d: nat, trees: seq<Tree>, parent: Code, k: nat)
    returns (p: nat)
    requires LiesAt(walk, d, WalkTrees(trees, false, parent)) && k < |trees|
    ensures p < |walk| && walk[p].code == trees[k].code && !walk[p].isRoot && walk[p].parentCode == parent
    decreases k
  {
    hide WalkTrees;
    FirstVisit(walk, d, trees, false, parent);
    if k == 0 {
      p := d;
    } else {
      var m := d + 1 + |WalkTrees(trees[0].children, false, trees[0].code)|;
      p := ChildIsVisited(walk, m, trees[1..], parent, k - 1);
    }
  }
}

/**
 What a reader of a snapshot can rely on: following the pointers visits what the parent relation says,
 each record once, and the deep counters of the roots account for every byte.
 */
module CategoryLists {
  import opened Words
  import opened CategoryCodes
  import opened Forests
  import opened MemoryCategories

  // ---- following pointers ----

  /** Every child and sibling pointer leads further into the buffer, so following pointers ends. */
  ghost predicate Forward(cats: seq<Category>, n: nat) {
    && n <= |cats|
    && (forall i :: 0 <= i < n ==> cats[i].firstChild == 0 || i + 1 < cats[i].firstChild <= n)
    && (forall i :: 0 <= i < n ==> cats[i].nextSibling == 0 || i + 1 < cats[i].nextSibling <= n)
  }

  /** The links of a snapshot, said by what each pointer names. */
  ghost predicate Named(cats: seq<Category>, par: seq<int>) {
    && |par| <= |cats| && IsForest(par)
    && (forall i :: 0 <= i < |par| ==> cats[i].parent == par[i] + 1)
    && (forall i {:trigger NamesNext(par, i, 0, cats[i].firstChild)} :: 0 <= i < |par| ==>
         NamesNext(par, i, 0, cats[i].firstChild))
    && (forall i {:trigger NamesNext(par, par[i], i + 1, cats[i].nextSibling)} ::
          0 <= i < |par| && par[i] >= 0 ==> NamesNext(par, par[i], i + 1, cats[i].nextSibling))
    && (forall i :: 0 <= i < |par| && par[i] == -1 ==> cats[i].nextSibling == 0)
  }

  lemma LinksName(cats: seq<Category>, par: seq<int>)
    requires Linked(cats, par)
    ensures Named(cats, par) && Forward(cats, |par|)
  {
    forall i | 0 <= i < |par|
      ensures NamesNext(par, i, 0, cats[i].firstChild)
      ensures par[i] >= 0 ==> NamesNext(par, par[i], i + 1, cats[i].nextSibling)
    {
      FirstChildNamed(cats, par, i);
      if par[i] >= 0 {
        NextSiblingNamed(cats, par, i);
      }
    }
  }

  /** The slots on the sibling chain that starts at `p`. */
  ghost function Chain(cats: seq<Category>, n: nat, p: Pointer): seq<int>
    requires Forward(cats, n) && 0 <= p <= n
    decreases n - Stand(p, n)
  {
    if p == 0 then [] else [p - 1] + Chain(cats, n, cats[p - 1].nextSibling)
  }

  /** The slots reached from `p` through first children and next siblings. */
  ghost function Reached(cats: seq<Category>, n: nat, p: Pointer): seq<int>
    requires Forward(cats, n) && 0 <= p <= n
    decreases n - Stand(p, n)
  {
    if p == 0 then []
    else [p - 1] + Reached(cats, n, cats[p - 1].firstChild) + Reached(cats, n, cats[p - 1].nextSibling)
  }

  /** The slots reached from the roots before `k`. */
  ghost function ReachedFromRoots(cats: seq<Category>, n: nat, k: nat): seq<int>
    requires Forward(cats, n) && k <= n
  {
    if k == 0 then []
    else ReachedFromRoots(cats, n, k - 1) + (if cats[k - 1].parent == 0 then Reached(cats, n, k) else [])
  }

  lemma {:induction false} ChildrenSkip(par: seq<int>, v: int, a: nat, b: nat)
    requires a <= b <= |par| && forall i :: a <= i < b ==> par[i] != v
    ensures ChildrenFrom(par, v, a) == ChildrenFrom(par, v, b)
    decreases b - a
  {
    if a < b {
      ChildrenSkip(par, v, a + 1, b);
    }
  }

  /** One step along the chain and along the list of children. */
  lemma OneLink(cats: seq<Category>, par: seq<int>, v: int, p: Pointer)
    requires Forward(cats, |par|) && 0 <= p <= |par| && (p != 0 ==> par[p - 1] == v)
    ensures Chain(cats, |par|, p) == if p == 0 then [] else [p - 1] + Chain(cats, |par|, cats[p - 1].nextSibling)
    ensures ChildrenFrom(par, v, Stand(p, |par|)) == if p == 0 then [] else [p - 1] + ChildrenFrom(par, v, p)
  {
  }

  lemma {:induction false} ChainFrom(cats: seq<Category>, par: seq<int>, v: int, k: nat, p: Pointer)
    requires Named(cats, par) && Forward(cats, |par|) && 0 <= v < |par| && NamesNext(par, v, k, p)
    ensures Chain(cats, |par|, p) == ChildrenFrom(par, v, k)
    decreases |par| - Stand(p, |par|)
  {
    hide Chain, ChildrenFrom, Descends;
    ChildrenSkip(par, v, k, Stand(p, |par|));
    OneLink(cats, par, v, p);
    if p != 0 {
      var c := p - 1;
      assert NamesNext(par, par[c], c + 1, cats[c].nextSibling);
      ChainFrom(cats, par, v, p, cats[c].nextSibling);
    }
  }

  /** The child list of a record is exactly its children, each once, in walk order. */
  lemma ChildListIsChildren(cats: seq<Category>, par: seq<int>, v: int)
    requires Linked(cats, par) && 0 <= v < |par|
    ensures Forward(cats, |par|)
    ensures Chain(cats, |par|, cats[v].firstChild) == ChildrenFrom(par, v, 0)
  {
    LinksName(cats, par);
    assert NamesNext(par, v, 0, cats[v].firstChild);
    ChainFrom(cats, par, v, 0, cats[v].firstChild);
  }

  /** The multiset form of passing one child. */
  lemma BelowStepCounted(par: seq<int>, v: int, c: int)
    requires IsForest(par) && 0 <= c < |par|
    ensures multiset(Below(par, v, c + 1))
        == multiset(Below(par, v, c)) + (if par[c] == v then multiset(Subtree(par, c)) else multiset{})
    ensures par[c] == v ==>
      multiset(Below(par, v, |par|) - Below(par, v, c))
        == multiset(Subtree(par, c)) + multiset(Below(par, v, |par|) - Below(par, v, c + 1))
  {
    BelowStep(par, v, c);
    if par[c] == v {
      assert Below(par, v, c + 1) <= Below(par, v, |par|);
      assert Below(par, v, |par|) - Below(par, v, c) == Subtree(par, c) + (Below(par, v, |par|) - Below(par, v, c + 1));
    }
  }

  lemma ReachedNull(cats: seq<Category>, n: nat)
    requires Forward(cats, n)
    ensures Reached(cats, n, 0) == []
  {
  }

  lemma ReachedUnfold(cats: seq<Category>, n: nat, p: Pointer)
    requires Forward(cats, n) && 0 < p <= n
    ensures multiset(Reached(cats, n, p))
         == multiset([p - 1] + Reached(cats, n, cats[p - 1].firstChild))
           + multiset(Reached(cats, n, cats[p - 1].nextSibling))
  {
  }

  lemma {:induction false} ReachedBelow(cats: seq<Category>, par: seq<int>, v: int, k: nat, p: Pointer)
    requires Named(cats, par) && Forward(cats, |par|) && 0 <= v < |par| && NamesNext(par, v, k, p)
    ensures multiset(Reached(cats, |par|, p)) == multiset(Below(par, v, |par|) - Below(par, v, k))
    decreases |par| - Stand(p, |par|), 1
  {
    hide Below, Subtree, Descends, ViaChild, Reached;
    BelowSkip(par, v, k, Stand(p, |par|));
    if p == 0 {
      ReachedNull(cats, |par|);
    } else {
      var c := p - 1;
      assert NamesNext(par, par[c], c + 1, cats[c].nextSibling);
      ReachedBelow(cats, par, v, p, cats[c].nextSibling);
      ReachedSubtree(cats, par, c);
      BelowStepCounted(par, v, c);
      ReachedUnfold(cats, |par|, p);
    }
  }

  /** From a record and its first child, exactly its subtree is reached, each record once. */
  lemma {:induction false} ReachedSubtree(cats: seq<Category>, par: seq<int>, v: int)
    requires Named(cats, par) && Forward(cats, |par|) && 0 <= v < |par|
    ensures multiset([v] + Reached(cats, |par|, cats[v].firstChild)) == multiset(Subtree(par, v))
    decreases |par| - v, 0
  {
    assert NamesNext(par, v, 0, cats[v].firstChild);
    ReachedBelow(cats, par, v, 0, cats[v].firstChild);
    assert Below(par, v, 0) == {};
    assert Below(par, v, |par|) - {} == Below(par, v, |par|);
    SubtreeSplit(par, v);
  }

  lemma ReachedRoot(cats: seq<Category>, par: seq<int>, r: int)
    requires Named(cats, par) && Forward(cats, |par|) && 0 <= r < |par| && par[r] == -1
    ensures multiset(Reached(cats, |par|, r + 1)) == multiset(Subtree(par, r))
  {
    ReachedSubtree(cats, par, r);
    ReachedUnfold(cats, |par|, r + 1);
  }

  /** The roots before `k` are each followed to exactly their subtrees. */
  ghost predicate RootsReached(cats: seq<Category>, par: seq<int>)
    requires Forward(cats, |par|) && IsForest(par)
  {
    forall r :: 0 <= r < |par| ==>
      if cats[r].parent == 0
      then par[r] == -1 && multiset(Reached(cats, |par|, r + 1)) == multiset(Subtree(par, r))
      else par[r] != -1
  }

  lemma FromRootsUnfold(cats: seq<Category>, par: seq<int>, k: nat)
    requires IsForest(par) && Forward(cats, |par|) && RootsReached(cats, par) && 0 < k <= |par|
    ensures multiset(ReachedFromRoots(cats, |par|, k))
         == multiset(ReachedFromRoots(cats, |par|, k - 1))
           + (if par[k - 1] == -1 then multiset(Subtree(par, k - 1)) else multiset{})
  {
    hide Reached, Subtree, RootsReached;
    RootIsReached(cats, par, k - 1);
  }

  lemma RootIsReached(cats: seq<Category>, par: seq<int>, r: nat)
    requires IsForest(par) && Forward(cats, |par|) && RootsReached(cats, par) && r < |par| <= |cats|
    ensures if cats[r].parent == 0
            then par[r] == -1 && multiset(Reached(cats, |par|, r + 1)) == multiset(Subtree(par, r))
            else par[r] != -1
  {
    hide Reached, Subtree;
  }

  lemma {:induction false} RootsReach(cats: seq<Category>, par: seq<int>, k: nat)
    requires IsForest(par) && Forward(cats, |par|) && RootsReached(cats, par) && k <= |par|
    ensures multiset(ReachedFromRoots(cats, |par|, k)) == multiset(Below(par, -1, k))
  {
    hide Below, Subtree, Reached, ReachedFromRoots, Forward, IsForest, RootsReached;
    if k == 0 {
      NoRootsReach(cats, par);
    } else {
      RootsReach(cats, par, k - 1);
      BelowStepCounted(par, -1, k - 1);
      FromRootsUnfold(cats, par, k);
    }
  }

  lemma NoRootsReach(cats: seq<Category>, par: seq<int>)
    requires IsForest(par) && Forward(cats, |par|)
    ensures multiset(ReachedFromRoots(cats, |par|, 0)) == multiset(Below(par, -1, 0))
  {
    assert Below(par, -1, 0) == {};
  }

  /** Every written record is reached from the roots, exactly once. */
  lemma EveryRecordReachedOnce(cats: seq<Category>, walk: seq<Visit>, n: nat)
    requires WellFormed(walk) && n <= |walk| && IsSnapshot(cats, walk, n)
    ensures Forward(cats, n)
    ensures forall i :: 0 <= i < n ==> multiset(ReachedFromRoots(cats, n, n))[i] == 1
    ensures |ReachedFromRoots(cats, n, n)| == n
  {
    var par := Parents(walk, n);
    LinksName(cats, par);
    forall r | 0 <= r < n && par[r] == -1
      ensures multiset(Reached(cats, n, r + 1)) == multiset(Subtree(par, r))
    {
      ReachedRoot(cats, par, r);
    }
    RootsReach(cats, par, n);
    AllBelowRoots(par);
    var all := Below(par, -1, n);
    assert |multiset(ReachedFromRoots(cats, n, n))| == |ReachedFromRoots(cats, n, n)|;
    IntervalSize(all, n);
  }

  lemma {:induction false} IntervalSize(s: set<int>, n: nat)
    requires forall j :: j in s <==> 0 <= j < n
    ensures |s| == n
  {
    if n == 0 {
      assert forall j :: j !in s;
      assert |s| == 0;
    } else {
      IntervalSize(s - {n - 1}, n - 1);
    }
  }

  // ---- conservation ----

  function Deep(c: Category, allocations: bool): int {
    if allocations then c.liveAllocationsDeep else c.liveBytesDeep
  }

  /** What a reader gets by adding up the deep counters of the roots before `k`. */
  function RootTotal(cats: seq<Category>, allocations: bool, k: nat): int
    requires k <= |cats|
  {
    if k == 0 then 0
    else RootTotal(cats, allocations, k - 1) + (if cats[k - 1].parent == 0 then Deep(cats[k - 1], allocations) else 0)
  }

  lemma Int64Sums(total: int, below: int, sub: int)
    requires Int64(total) == Int64(below)
    ensures Int64(total + Int64(sub)) == Int64(below + sub)
  {
    Int64Absorbs(sub, total);
    Int64Absorbs(total, sub);
    Int64Absorbs(below, sub);
  }

  lemma {:induction false} RootTotalBelow(cats: seq<Category>, par: seq<int>, bytes: seq<int>, counts: seq<int>,
                                          allocations: bool, k: nat)
    requires Named(cats, par) && |bytes| == |counts| == |par| && k <= |par|
    requires forall i :: 0 <= i < |par| ==> DeepDone(cats[i], par, bytes, counts, i)
    ensures Int64(RootTotal(cats, allocations, k))
        == Int64(SumIn(if allocations then counts else bytes, Below(par, -1, k), |par|))
  {
    var w := if allocations then counts else bytes;
    if k == 0 {
      assert Below(par, -1, 0) == {};
      SumNone(w, |par|);
    } else {
      RootTotalBelow(cats, par, bytes, counts, allocations, k - 1);
      BelowStep(par, -1, k - 1);
      if par[k - 1] == -1 {
        SumUnion(w, Below(par, -1, k - 1), Subtree(par, k - 1), |par|);
        assert DeepDone(cats[k - 1], par, bytes, counts, k - 1);
        Int64Sums(RootTotal(cats, allocations, k - 1), SumIn(w, Below(par, -1, k - 1), |par|),
          SumIn(w, Subtree(par, k - 1), |par|));
      }
    }
  }

  /** The deep counters of the roots add up to all shallow counters. */
  lemma RootsAccountForAll(cats: seq<Category>, walk: seq<Visit>, n: nat, allocations: bool)
    requires WellFormed(walk) && n <= |walk| && IsSnapshot(cats, walk, n)
    ensures var w := if allocations then ShallowAllocations(walk, n) else ShallowBytes(walk, n);
            Int64(RootTotal(cats, allocations, n)) == Int64(Total(w))
  {
    hide RootTotal, Below, SumIn, Total, Int64, WellFormed;
    var par := Parents(walk, n);
    LinksName(cats, par);
    RootTotalBelow(cats, par, ShallowBytes(walk, n), ShallowAllocations(walk, n), allocations, n);
    AllBelowRoots(par);
    var w := if allocations then ShallowAllocations(walk, n) else ShallowBytes(walk, n);
    SumOfAll(w, Below(par, -1, n), n);
    assert w[..n] == w;
  }

  // ---- where well-formed walks come from ----

  /** The registered categories: each names its children. */
  datatype Tree = Tree(code: Code, name: string, liveBytes: int, liveAllocations: int, children: seq<Tree>)

  /** The recursive walk over `trees`, which hang below `parent` unless they are roots. */
  function WalkTrees(trees: seq<Tree>, roots: bool, parent: Code): seq<Visit> {
    if trees == [] then []
    else
      var t := trees[0];
      [Visit(t.code, t.name, t.liveBytes, t.liveAllocations, roots, if roots then 0 else parent)]
      + WalkTrees(t.children, false, t.code)
      + WalkTrees(trees[1..], roots, parent)
  }

  /** Visit `i` is a root, or its parent is `parent` or was visited before. */
  ghost predicate Anchored(walk: seq<Visit>, i: nat, roots: bool, parent: Code)
    requires i < |walk|
  {
    || (if roots then walk[i].isRoot else !walk[i].isRoot && walk[i].parentCode == parent)
    || exists j :: 0 <= j < i && walk[j].code == walk[i].parentCode
  }

  /** A visit keeps what anchors it when the walk is continued at either end. */
  lemma AnchoredInside(inner: seq<Visit>, walk: seq<Visit>, d: nat, i: nat, code: Code, roots: bool, parent: Code)
    requires i < |inner| && 0 < d && d + |inner| <= |walk| && walk[d..d + |inner|] == inner
    requires walk[0].code == code && Anchored(inner, i, false, code)
    ensures Anchored(walk, d + i, roots, parent)
  {
    assert forall j :: 0 <= j < |inner| ==> walk[d + j] == inner[j];
    if inner[i].parentCode != code {
      var j :| 0 <= j < i && inner[j].code == inner[i].parentCode;
      assert walk[d + j].code == walk[d + i].parentCode;
    }
  }

  lemma AnchoredAfter(rest: seq<Visit>, walk: seq<Visit>, d: nat, i: nat, roots: bool, parent: Code)
    requires i < |rest| && d + |rest| <= |walk| && walk[d..d + |rest|] == rest
    requires Anchored(rest, i, roots, parent)
    ensures Anchored(walk, d + i, roots, parent)
  {
    assert forall j :: 0 <= j < |rest| ==> walk[d + j] == rest[j];
    if exists j :: 0 <= j < i && rest[j].code == rest[i].parentCode {
      var j :| 0 <= j < i && rest[j].code == rest[i].parentCode;
      assert walk[d + j].code == walk[d + i].parentCode;
    }
  }

  lemma {:induction false} WalkAnchored(trees: seq<Tree>, roots: bool, parent: Code, walk: seq<Visit>)
    requires walk == WalkTrees(trees, roots, parent)
    ensures forall i :: 0 <= i < |walk| ==> Anchored(walk, i, roots, parent)
  {
    hide WalkTrees, Anchored;
    if trees == [] {
      EmptyWalk(roots, parent);
    } else {
      var t := trees[0];
      var inner, rest := WalkTrees(t.children, false, t.code), WalkTrees(trees[1..], roots, parent);
      var d := 1 + |inner|;
      WalkUnfold(trees, roots, parent);
      WalkAnchored(t.children, false, t.code, inner);
      WalkAnchored(trees[1..], roots, parent, rest);
      forall i | 0 <= i < |walk|
        ensures Anchored(walk, i, roots, parent)
      {
        if i == 0 {
          FirstAnchored(walk, roots, parent);
        } else if i < d {
          AnchoredInside(inner, walk, 1, i - 1, t.code, roots, parent);
        } else {
          AnchoredAfter(rest, walk, d, i - d, roots, parent);
        }
      }
    }
  }

  lemma EmptyWalk(roots: bool, parent: Code)
    ensures WalkTrees([], roots, parent) == []
  {
  }

  /** The walk of the first tree, then of the others. */
  lemma WalkUnfold(trees: seq<Tree>, roots: bool, parent: Code)
    requires trees != []
    ensures var t, walk := trees[0], WalkTrees(trees, roots, parent);
            var inner, rest := WalkTrees(t.children, false, t.code), WalkTrees(trees[1..], roots, parent);
      && |walk| == 1 + |inner| + |rest| && walk[1..1 + |inner|] == inner
           && walk[1 + |inner|..1 + |inner| + |rest|] == rest
      && walk[0].code == t.code && (if roots then walk[0].isRoot else !walk[0].isRoot && walk[0].parentCode == parent)
  {
  }

  lemma FirstAnchored(walk: seq<Visit>, roots: bool, parent: Code)
    requires walk != [] && (if roots then walk[0].isRoot else !walk[0].isRoot && walk[0].parentCode == parent)
    ensures Anchored(walk, 0, roots, parent)
  {
  }

  lemma {:induction false} PositionFound(walk: seq<Visit>, code: Code, n: nat, j: nat)
    requires j < n <= |walk| && walk[j].code == code
    ensures Position(walk, code, n) != -1
  {
    if walk[n - 1].code != code {
      PositionFound(walk, code, n - 1, j);
    }
  }

  /** The depth-first walk over category trees with distinct codes is well formed, so every result above
      applies to it. */
  lemma TreeWalkIsWellFormed(trees: seq<Tree>)
    requires var walk := WalkTrees(trees, true, 0);
             && (forall i, j :: 0 <= i < j < |walk| ==> walk[i].code != walk[j].code)
             && (forall i :: 0 <= i < |walk| ==> walk[i].code != LANGUAGE_CATEGORY_LIMIT)
    ensures WellFormed(WalkTrees(trees, true, 0))
  {
    var walk := WalkTrees(trees, true, 0);
    WalkAnchored(trees, true, 0, walk);
    forall i | 0 <= i < |walk| && !walk[i].isRoot
      ensures Position(walk, walk[i].parentCode, i) != -1
    {
      assert Anchored(walk, i, true, 0);
      var j :| 0 <= j < i && walk[j].code == walk[i].parentCode;
      PositionFound(walk, walk[i].parentCode, i, j);
    }
  }
}

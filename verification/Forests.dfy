/**
 Forests given by a parent table in which every parent comes before its children: `par[j]` is the
 index of the parent of `j`, or -1 for a root. These are the reference notions (subtree, sum over a
 subtree, next child) that the pointer-level code is compared with.
 */
module Forests {

  ghost predicate IsForest(par: seq<int>) {
    forall i :: 0 <= i < |par| ==> -1 <= par[i] < i
  }

  /** `j` lies in the subtree of `v`; everything lies below -1, the virtual root of the roots. */
  ghost predicate Descends(par: seq<int>, j: int, v: int)
    requires IsForest(par) && -1 <= j < |par|
    decreases j + 1
  {
    j == v || (j >= 0 && Descends(par, par[j], v))
  }

  ghost function Subtree(par: seq<int>, v: int): set<int>
    requires IsForest(par)
  {
    set j | 0 <= j < |par| && Descends(par, j, v)
  }

  ghost predicate ViaChild(par: seq<int>, j: int, v: int, k: int)
    requires IsForest(par) && 0 <= j < |par|
  {
    exists c :: 0 <= c < k && c < |par| && par[c] == v && Descends(par, j, c)
  }

  /** What is reached from `v` through its children with an index below `k`. */
  ghost function Below(par: seq<int>, v: int, k: int): set<int>
    requires IsForest(par)
  {
    set j | 0 <= j < |par| && ViaChild(par, j, v, k)
  }

  /** The sum of `w` over the members of `s` below `n`. */
  ghost function SumIn(w: seq<int>, s: set<int>, n: nat): int
    requires n <= |w|
  {
    if n == 0 then 0 else SumIn(w, s, n - 1) + (if n - 1 in s then w[n - 1] else 0)
  }

  /** The least child of `v` in `[from, n)`, or -1. */
  ghost function NextChild(par: seq<int>, v: int, from: nat, n: nat): (c: int)
    requires n <= |par|
    ensures c == -1 || from <= c < n
  {
    if n <= from then -1
    else
      var c := NextChild(par, v, from, n - 1);
      if c != -1 then c else if par[n - 1] == v then n - 1 else -1
  }

  /** The greatest child of `v` below `n`, or -1. */
  ghost function LastChild(par: seq<int>, v: int, n: nat): (c: int)
    requires n <= |par|
    ensures c == -1 || 0 <= c < n
  {
    if n == 0 then -1
    else if par[n - 1] == v then n - 1
    else LastChild(par, v, n - 1)
  }

  /** The next child is a child, and none lies before it. */
  lemma {:induction false} NextChildIsNext(par: seq<int>, v: int, from: nat, n: nat)
    requires n <= |par|
    ensures NextChild(par, v, from, n) != -1 ==> par[NextChild(par, v, from, n)] == v
    ensures forall k :: from <= k < (if NextChild(par, v, from, n) == -1 then n else NextChild(par, v, from, n)) ==>
        par[k] != v
  {
    if n > from {
      NextChildIsNext(par, v, from, n - 1);
    }
  }

  lemma {:induction false} LastChildIsChild(par: seq<int>, v: int, n: nat)
    requires n <= |par|
    ensures LastChild(par, v, n) != -1 ==> par[LastChild(par, v, n)] == v
  {
    if n > 0 {
      LastChildIsChild(par, v, n - 1);
    }
  }

  /** A child has no later sibling exactly when it is the last one. */
  lemma {:induction false} NoNextIffLast(par: seq<int>, j: int, n: nat)
    requires n <= |par| && 0 <= j < n
    ensures NextChild(par, par[j], j + 1, n) == -1 <==> LastChild(par, par[j], n) == j
  {
    if n > j + 1 {
      NoNextIffLast(par, j, n - 1);
    }
  }

  /** There is a first child exactly when there is a last one. */
  lemma {:induction false} NoFirstIffNoLast(par: seq<int>, v: int, n: nat)
    requires n <= |par|
    ensures NextChild(par, v, 0, n) == -1 <==> LastChild(par, v, n) == -1
  {
    if n > 0 {
      NoFirstIffNoLast(par, v, n - 1);
    }
  }

  /** The children of `v` from `k` on, in increasing order. */
  ghost function ChildrenFrom(par: seq<int>, v: int, k: nat): seq<int>
    decreases |par| - k
  {
    if k >= |par| then []
    else (if par[k] == v then [k] else []) + ChildrenFrom(par, v, k + 1)
  }

  lemma DescendsUpward(par: seq<int>, j: int, v: int)
    requires IsForest(par) && -1 <= j < |par| && Descends(par, j, v)
    ensures v <= j
    decreases j + 1
  {
    if j != v {
      DescendsUpward(par, par[j], v);
    }
  }

  /** The ancestors of one node form a chain. */
  lemma {:induction false} AncestorsCompare(par: seq<int>, j: int, c: int, d: int)
    requires IsForest(par) && -1 <= j < |par|
    requires Descends(par, j, c) && Descends(par, j, d)
    requires -1 <= c < |par| && -1 <= d < |par|
    ensures Descends(par, c, d) || Descends(par, d, c)
    decreases j + 1
  {
    if j != c && j != d {
      AncestorsCompare(par, par[j], c, d);
    }
  }

  /** Two children of one node reach nothing in common. */
  lemma SiblingsDisjoint(par: seq<int>, c: int, d: int)
    requires IsForest(par) && 0 <= c < d < |par| && par[c] == par[d]
    ensures Subtree(par, c) !! Subtree(par, d)
  {
    forall j | j in Subtree(par, c) && j in Subtree(par, d)
      ensures false
    {
      AncestorsCompare(par, j, c, d);
      if Descends(par, c, d) {
        DescendsUpward(par, c, d);
      } else {
        DescendsUpward(par, par[d], c);
      }
    }
  }

  lemma {:induction false} DescendsTransitive(par: seq<int>, j: int, c: int, v: int)
    requires IsForest(par) && -1 <= j < |par| && -1 <= c < |par|
    requires Descends(par, j, c) && Descends(par, c, v)
    ensures Descends(par, j, v)
    decreases j + 1
  {
    if j != c {
      DescendsTransitive(par, par[j], c, v);
    }
  }

  /** Which child of `v` leads down to `j`. */
  lemma {:induction false} ChildToward(par: seq<int>, j: int, v: int) returns (c: int)
    requires IsForest(par) && 0 <= j < |par| && j != v && Descends(par, j, v)
    ensures 0 <= c < |par| && par[c] == v && Descends(par, j, c)
    decreases j
  {
    if par[j] == v {
      c := j;
    } else {
      c := ChildToward(par, par[j], v);
    }
  }

  /** A subtree is its top node and what its children reach. */
  lemma SubtreeSplit(par: seq<int>, v: int)
    requires IsForest(par) && -1 <= v < |par|
    ensures Subtree(par, v) == Below(par, v, |par|) + (if v >= 0 then {v} else {})
    ensures v !in Below(par, v, |par|)
  {
    forall j | j in Subtree(par, v) && j != v
      ensures j in Below(par, v, |par|)
    {
      var c := ChildToward(par, j, v);
    }
    forall j | j in Below(par, v, |par|)
      ensures j in Subtree(par, v) && j != v
    {
      var c :| 0 <= c < |par| && par[c] == v && Descends(par, j, c);
      assert Descends(par, c, v);
      DescendsTransitive(par, j, c, v);
      DescendsUpward(par, j, c);
    }
  }

  /** Passing over an index that is no child changes nothing; passing a child adds its subtree, disjointly. */
  lemma BelowStep(par: seq<int>, v: int, k: int)
    requires IsForest(par) && 0 <= k < |par|
    ensures par[k] != v ==> Below(par, v, k + 1) == Below(par, v, k)
    ensures par[k] == v ==> Below(par, v, k + 1) == Below(par, v, k) + Subtree(par, k)
    ensures par[k] == v ==> Below(par, v, k) !! Subtree(par, k)
  {
    if par[k] == v {
      forall j | j in Below(par, v, k) && j in Subtree(par, k)
        ensures false
      {
        var c :| 0 <= c < k && par[c] == v && Descends(par, j, c);
        SiblingsDisjoint(par, c, k);
      }
    }
  }

  lemma {:induction false} BelowSkip(par: seq<int>, v: int, a: int, b: int)
    requires IsForest(par) && 0 <= a <= b <= |par|
    requires forall k :: a <= k < b ==> par[k] != v
    ensures Below(par, v, a) == Below(par, v, b)
    decreases b - a
  {
    if a < b {
      BelowStep(par, v, b - 1);
      BelowSkip(par, v, a, b - 1);
    }
  }

  lemma {:induction false} SumUnion(w: seq<int>, s: set<int>, t: set<int>, n: nat)
    requires n <= |w| && s !! t
    ensures SumIn(w, s + t, n) == SumIn(w, s, n) + SumIn(w, t, n)
  {
    if n > 0 {
      SumUnion(w, s, t, n - 1);
    }
  }

  lemma {:induction false} SumOne(w: seq<int>, v: int, n: nat)
    requires n <= |w| && 0 <= v
    ensures SumIn(w, {v}, n) == if v < n then w[v] else 0
  {
    if n > 0 {
      SumOne(w, v, n - 1);
    }
  }

  lemma {:induction false} SumNone(w: seq<int>, n: nat)
    requires n <= |w|
    ensures SumIn(w, {}, n) == 0
  {
    if n > 0 {
      SumNone(w, n - 1);
    }
  }

  ghost function Total(w: seq<int>): int {
    if w == [] then 0 else Total(w[..|w| - 1]) + w[|w| - 1]
  }

  lemma {:induction false} SumOfAll(w: seq<int>, s: set<int>, n: nat)
    requires n <= |w| && forall j :: 0 <= j < n ==> j in s
    ensures SumIn(w, s, n) == Total(w[..n])
  {
    if n > 0 {
      SumOfAll(w, s, n - 1);
      assert w[..n][..n - 1] == w[..n - 1];
    }
  }

  lemma {:induction false} EverythingDescends(par: seq<int>, j: int)
    requires IsForest(par) && -1 <= j < |par|
    ensures Descends(par, j, -1)
    decreases j + 1
  {
    if j >= 0 {
      EverythingDescends(par, par[j]);
    }
  }
}

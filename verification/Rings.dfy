/** Intrusive circular doubly linked lists: the nodes carry the links, the list is a root pointer. */
module Rings {
  class Node<D> {
    var data: D
    var linkNext: Node?<D>
    var linkPrevious: Node?<D>

    constructor (data: D)
      ensures this.data == data && linkNext == null == linkPrevious
    {
      this.data := data;
      linkNext, linkPrevious := null, null;
    }
  }

  function Successor(k: nat, n: nat): nat {
    if k + 1 == n then 0 else k + 1
  }

  function Predecessor(k: nat, n: nat): nat {
    if k == 0 then if n == 0 then 0 else n - 1 else k - 1
  }

  /** The links of `nodes` go round in both directions. */
  ghost predicate IsRing<D>(nodes: seq<Node<D>>)
    reads nodes`linkNext, nodes`linkPrevious
  {
    && (forall i, j :: 0 <= i < j < |nodes| ==> nodes[i] != nodes[j])
    && (forall k {:trigger nodes[k].linkNext} :: 0 <= k < |nodes| ==> nodes[k].linkNext == nodes[Successor(k, |nodes|)])
    && (forall k {:trigger nodes[k].linkPrevious} :: 0 <= k < |nodes| ==>
         nodes[k].linkPrevious == nodes[Predecessor(k, |nodes|)])
  }

  function Inserted<T>(s: seq<T>, i: nat, x: T): (r: seq<T>)
    requires i <= |s|
    ensures |r| == |s| + 1
  {
    s[..i] + [x] + s[i..]
  }

  function Removed<T>(s: seq<T>, i: nat): (r: seq<T>)
    requires i < |s|
    ensures |r| == |s| - 1
  {
    s[..i] + s[i + 1..]
  }

  /** The same ring, read from its `i`-th node on. */
  function Rotation<T>(s: seq<T>, i: nat): (r: seq<T>)
    requires i <= |s|
    ensures |r| == |s|
  {
    s[i..] + s[..i]
  }

  lemma RotationAt<T>(s: seq<T>, i: nat, k: nat)
    requires i <= |s| && k < |s|
    ensures Rotation(s, i)[k] == s[if k < |s| - i then i + k else i + k - |s|]
  {
  }

  lemma FirstAfterInsertion<T>(s: seq<T>, i: nat, x: T)
    requires i <= |s|
    ensures Inserted(s, i, x)[0] == if i == 0 then x else s[0]
  {
  }

  lemma FirstAfterRemoval<T>(s: seq<T>, i: nat)
    requires i < |s|
    ensures Removed(s, i) == [] <==> |s| == 1
    ensures |s| > 1 ==> Removed(s, i)[0] == if i == 0 then s[1] else s[0]
  {
  }

  lemma RotationIsSame<T>(s: seq<T>, i: nat)
    requires i <= |s|
    ensures forall x :: x in Rotation(s, i) <==> x in s
    ensures forall k :: 0 <= k < |s| ==> Rotation(s, i)[k] in s
    ensures s != [] ==> Rotation(s, i)[0] == s[if i == |s| then 0 else i]
    ensures 0 < i ==> Rotation(s, i)[|s| - 1] == s[i - 1]
  {
    forall k | 0 <= k < |s|
      ensures Rotation(s, i)[k] in s
    {
      RotationAt(s, i, k);
    }
  }

  lemma RotationIsRing<D>(nodes: seq<Node<D>>, i: nat)
    requires i <= |nodes| && IsRing(nodes)
    ensures IsRing(Rotation(nodes, i))
  {
    var n, r := |nodes|, Rotation(nodes, i);
    forall k | 0 <= k < n
      ensures r[k].linkNext == r[Successor(k, n)] && r[k].linkPrevious == r[Predecessor(k, n)]
    {
      RotationAt(nodes, i, k);
      RotationAt(nodes, i, Successor(k, n));
      RotationAt(nodes, i, Predecessor(k, n));
    }
    forall j, k | 0 <= j < k < n
      ensures r[j] != r[k]
    {
      RotationAt(nodes, i, j);
      RotationAt(nodes, i, k);
    }
  }

  /** Inserting is appending to a rotation; removing is dropping the first of a rotation. */
  lemma RotationInserts<T>(s: seq<T>, i: nat, x: T)
    requires i <= |s|
    ensures Rotation(Rotation(s, i) + [x], |s| - i) == Inserted(s, i, x)
    ensures i < |s| ==> Rotation(Rotation(s, i)[1..], |s| - i - 1) == Removed(s, i)
  {
  }

  lemma InsertionRotates<D>(nodes: seq<Node<D>>, i: nat, element: Node<D>)
    requires i <= |nodes| && IsRing(Rotation(nodes, i) + [element])
    ensures IsRing(Inserted(nodes, i, element))
  {
    hide IsRing, Inserted, Rotation;
    RotationIsRing(Rotation(nodes, i) + [element], |nodes| - i);
    RotationInserts(nodes, i, element);
  }

  lemma RemovalRotates<D>(nodes: seq<Node<D>>, i: nat)
    requires i < |nodes| && IsRing(Rotation(nodes, i)[1..])
    ensures IsRing(Removed(nodes, i))
  {
    hide IsRing, Removed, Rotation;
    RotationIsRing(Rotation(nodes, i)[1..], |nodes| - i - 1);
    RotationInserts(nodes, i, nodes[i]);
  }

  lemma RingLinks<D>(nodes: seq<Node<D>>, k: nat)
    requires IsRing(nodes) && k < |nodes|
    ensures nodes[k].linkNext == nodes[Successor(k, |nodes|)] && nodes[k].linkPrevious == nodes[Predecessor(k, |nodes|)]
    ensures nodes[k].linkNext == nodes[k] <==> |nodes| == 1
    ensures nodes[k] == nodes[0] <==> k == 0
    ensures |nodes| > 1 ==> nodes[0].linkNext == nodes[1]
  {
  }

  // ---- the pointer writes, on the ring read from a convenient node on ----

  method LinkBefore<D>(before: Node<D>, element: Node<D>, ghost r: seq<Node<D>>)
    requires IsRing(r) && r != [] && r[0] == before && element !in r
    modifies r`linkNext, r`linkPrevious, element`linkNext, element`linkPrevious
    ensures IsRing(r + [element])
  {
    element.linkNext := before;
    element.linkPrevious := before.linkPrevious;
    before.linkPrevious.linkNext := element;
    before.linkPrevious := element;
  }

  method LinkAfter<D>(after: Node<D>, element: Node<D>, ghost r: seq<Node<D>>)
    requires IsRing(r) && r != [] && r[|r| - 1] == after && element !in r
    modifies r`linkNext, r`linkPrevious, element`linkNext, element`linkPrevious
    ensures IsRing(r + [element])
  {
    element.linkPrevious := after;
    element.linkNext := after.linkNext;
    after.linkNext.linkPrevious := element;
    after.linkNext := element;
  }

  method Unlink<D>(element: Node<D>, ghost r: seq<Node<D>>)
    requires IsRing(r) && r != [] && r[0] == element
    modifies r`linkNext, r`linkPrevious
    ensures IsRing(r[1..])
  {
    element.linkPrevious.linkNext := element.linkNext;
    element.linkNext.linkPrevious := element.linkPrevious;
  }

  class Ring<D> {
    var root: Node?<D>
    ghost var nodes: seq<Node<D>>

    ghost predicate Valid()
      reads this, nodes`linkNext, nodes`linkPrevious
    {
      root == (if nodes == [] then null else nodes[0]) && IsRing(nodes)
    }

    constructor ()
      ensures Valid() && nodes == []
    {
      root, nodes := null, [];
    }

    method AddAfter(after: Node<D>, element: Node<D>, ghost i: nat)
      requires Valid() && i < |nodes| && nodes[i] == after && element !in nodes
      modifies `nodes, nodes`linkNext, nodes`linkPrevious, element`linkNext, element`linkPrevious
      ensures Valid() && nodes == Inserted(old(nodes), i + 1, element)
    {
      hide IsRing, Rotation, Inserted, Removed, Successor, Predecessor;
      ghost var r := Rotation(nodes, i + 1);
      RotationIsRing(nodes, i + 1);
      RotationIsSame(nodes, i + 1);
      FirstAfterInsertion(nodes, i + 1, element);
      LinkAfter(after, element, r);
      InsertionRotates(nodes, i + 1, element);
      nodes := Inserted(nodes, i + 1, element);
    }

    method AddBefore(before: Node<D>, element: Node<D>, ghost i: nat)
      requires Valid() && i < |nodes| && nodes[i] == before && element !in nodes
      modifies this, nodes`linkNext, nodes`linkPrevious, element`linkNext, element`linkPrevious
      ensures Valid() && nodes == Inserted(old(nodes), i, element)
    {
      hide IsRing, Rotation, Inserted, Removed, Successor, Predecessor;
      ghost var r := Rotation(nodes, i);
      RotationIsSame(nodes, i);
      RotationIsRing(nodes, i);
      RingLinks(nodes, i);
      LinkBefore(before, element, r);
      InsertionRotates(nodes, i, element);
      FirstAfterInsertion(nodes, i, element);
      if before == root {
        root := element;
      }
      nodes := Inserted(nodes, i, element);
    }

    method AddFirst(element: Node<D>)
      requires Valid() && element !in nodes
      modifies this, nodes`linkNext, nodes`linkPrevious, element`linkNext, element`linkPrevious
      ensures Valid() && nodes == [element] + old(nodes)
    {
      if root == null {
        element.linkPrevious := element;
        element.linkNext := element;
        root := element;
        nodes := [element];
      } else {
        AddBefore(root, element, 0);
      }
    }

    method AddLast(element: Node<D>)
      requires Valid() && element !in nodes
      modifies this, nodes`linkNext, nodes`linkPrevious, element`linkNext, element`linkPrevious
      ensures Valid() && nodes == old(nodes) + [element]
    {
      if root == null {
        element.linkPrevious := element;
        element.linkNext := element;
        root := element;
        nodes := [element];
      } else {
        LinkBefore(root, element, nodes);
        nodes := nodes + [element];
      }
    }

    method Remove(element: Node<D>, ghost i: nat)
      requires Valid() && i < |nodes| && nodes[i] == element
      modifies this, nodes`linkNext, nodes`linkPrevious
      ensures Valid() && nodes == Removed(old(nodes), i)
    {
      hide IsRing, Rotation, Inserted, Removed, Successor, Predecessor;
      ghost var r := Rotation(nodes, i);
      RotationIsSame(nodes, i);
      RotationIsRing(nodes, i);
      RingLinks(nodes, i);
      FirstAfterRemoval(nodes, i);
      if element == root {
        if element.linkNext == element {
          root := null;
        } else {
          root := element.linkNext;
        }
      }
      Unlink(element, r);
      RemovalRotates(nodes, i);
      nodes := Removed(nodes, i);
    }

    method RemoveFirst() returns (element: Node<D>)
      requires Valid() && nodes != []
      modifies this, nodes`linkNext, nodes`linkPrevious
      ensures Valid() && [element] + nodes == old(nodes)
    {
      element := root;
      if element.linkNext == element {
        root := null;
      } else {
        root := element.linkNext;
        Unlink(element, nodes);
      }
      nodes := nodes[1..];
    }

    predicate IsEmpty()
      reads this
    {
      root == null
    }

    function StartDo(): Node?<D>
      reads this
    {
      root
    }

    function NextDo(element: Node<D>): Node?<D>
      reads this, element
    {
      if root == element.linkNext then null else element.linkNext
    }

    function ReverseStartDo(): Node?<D>
      reads this, root
    {
      if IsEmpty() then null else root.linkPrevious
    }

    function ReverseNextDo(element: Node<D>): Node?<D>
      reads this, element
    {
      if root == element then null else element.linkPrevious
    }

    /** A forward traversal visits every node once, in order, and stops. */
    method Visit() returns (visited: seq<Node<D>>)
      requires Valid()
      ensures visited == nodes
    {
      visited := [];
      var walk := StartDo();
      while walk != null
        invariant |visited| <= |nodes| && visited == nodes[..|visited|]
        invariant walk == if |visited| == |nodes| then null else nodes[|visited|]
        decreases |nodes| - |visited|
      {
        visited := visited + [walk];
        walk := NextDo(walk);
      }
    }

    /** A reverse traversal visits every node once, last first, and stops. */
    method VisitReverse() returns (visited: seq<Node<D>>)
      requires Valid()
      ensures |visited| == |nodes| && forall k :: 0 <= k < |nodes| ==> visited[k] == nodes[|nodes| - 1 - k]
    {
      visited := [];
      var walk := ReverseStartDo();
      while walk != null
        invariant |visited| <= |nodes| && forall k :: 0 <= k < |visited| ==> visited[k] == nodes[|nodes| - 1 - k]
        invariant walk == if |visited| == |nodes| then null else nodes[|nodes| - 1 - |visited|]
        decreases |nodes| - |visited|
      {
        visited := visited + [walk];
        walk := ReverseNextDo(walk);
      }
    }
  }
}

/** Intrusive doubly linked lists that end in NULL at both sides. */
module LinearLists {
  import opened Rings

  ghost predicate IsLine<D>(nodes: seq<Node<D>>)
    reads nodes`linkNext, nodes`linkPrevious
  {
    && (forall i, j :: 0 <= i < j < |nodes| ==> nodes[i] != nodes[j])
    && (forall k {:trigger nodes[k].linkNext} :: 0 <= k < |nodes| ==>
         nodes[k].linkNext == if k + 1 < |nodes| then nodes[k + 1] else null)
    && (forall k {:trigger nodes[k].linkPrevious} :: 0 <= k < |nodes| ==>
         nodes[k].linkPrevious == if k > 0 then nodes[k - 1] else null)
  }

  /** The links after `element` has been put at position `i` of the line. */
  ghost predicate LinkedIn<D>(nodes: seq<Node<D>>, i: nat, element: Node<D>)
    requires i <= |nodes|
    reads nodes`linkNext, nodes`linkPrevious, element`linkNext, element`linkPrevious
  {
    && (forall j, k :: 0 <= j < k < |nodes| ==> nodes[j] != nodes[k]) && element !in nodes
    && (forall k {:trigger nodes[k].linkNext} :: 0 <= k < |nodes| ==>
          nodes[k].linkNext == if k + 1 == i then element else if k + 1 < |nodes| then nodes[k + 1] else null)
    && (forall k {:trigger nodes[k].linkPrevious} :: 0 <= k < |nodes| ==>
          nodes[k].linkPrevious == if k == i then element else if k > 0 then nodes[k - 1] else null)
    && element.linkNext == (if i < |nodes| then nodes[i] else null)
    && element.linkPrevious == (if i > 0 then nodes[i - 1] else null)
  }

  lemma InsertedAt<T>(s: seq<T>, i: nat, x: T, k: nat)
    requires i <= |s| && k <= |s|
    ensures Inserted(s, i, x)[k] == if k < i then s[k] else if k == i then x else s[k - 1]
  {
  }

  lemma LinkedInIsLine<D>(nodes: seq<Node<D>>, i: nat, element: Node<D>)
    requires i <= |nodes| && LinkedIn(nodes, i, element)
    ensures IsLine(Inserted(nodes, i, element))
  {
    hide Inserted;
    var n, line := |nodes|, Inserted(nodes, i, element);
    assert |line| == n + 1;
    forall k {:trigger line[k].linkNext} {:trigger line[k].linkPrevious} | 0 <= k < |line|
      ensures line[k].linkNext == if k + 1 < |line| then line[k + 1] else null
      ensures line[k].linkPrevious == if k > 0 then line[k - 1] else null
    {
      InsertedAt(nodes, i, element, k);
      if k < n {
        InsertedAt(nodes, i, element, k + 1);
      }
      if k > 0 {
        InsertedAt(nodes, i, element, k - 1);
      }
    }
    forall j, k | 0 <= j < k < |line|
      ensures line[j] != line[k]
    {
      InsertedAt(nodes, i, element, j);
      InsertedAt(nodes, i, element, k);
    }
  }

  lemma FirstOfLine<D>(nodes: seq<Node<D>>, i: nat)
    requires IsLine(nodes) && i < |nodes|
    ensures nodes[i] == nodes[0] <==> i == 0
    ensures nodes[i].linkNext == null <==> i == |nodes| - 1
  {
  }

  class LinearList<D> {
    var root: Node?<D>
    ghost var nodes: seq<Node<D>>

    ghost predicate Valid()
      reads this, nodes`linkNext, nodes`linkPrevious
    {
      root == (if nodes == [] then null else nodes[0]) && IsLine(nodes)
    }

    constructor ()
      ensures Valid() && nodes == []
    {
      root, nodes := null, [];
    }

    method Add(element: Node<D>)
      requires Valid() && element !in nodes
      modifies this, nodes`linkNext, nodes`linkPrevious, element`linkNext, element`linkPrevious
      ensures Valid() && nodes == [element] + old(nodes)
    {
      if root == null {
        root := element;
        root.linkNext := null;
        root.linkPrevious := null;
        nodes := [element];
      } else {
        AddBefore(root, element, 0);
      }
    }

    method AddBefore(before: Node<D>, element: Node<D>, ghost i: nat)
      requires Valid() && i < |nodes| && nodes[i] == before && element !in nodes
      modifies this, nodes`linkNext, nodes`linkPrevious, element`linkNext, element`linkPrevious
      ensures Valid() && nodes == Inserted(old(nodes), i, element)
    {
      hide Inserted;
      FirstOfLine(nodes, i);
      FirstAfterInsertion(nodes, i, element);
      element.linkNext := before;
      if before == root {
        element.linkPrevious := null;
      } else {
        element.linkPrevious := before.linkPrevious;
        before.linkPrevious.linkNext := element;
      }
      before.linkPrevious := element;
      LinkedInIsLine(nodes, i, element);
      if before == root {
        root := element;
      }
      nodes := Inserted(nodes, i, element);
    }

    method AddAfter(after: Node<D>, element: Node<D>, ghost i: nat)
      requires Valid() && i < |nodes| && nodes[i] == after && element !in nodes
      modifies `nodes, nodes`linkNext, nodes`linkPrevious, element`linkNext, element`linkPrevious
      ensures Valid() && nodes == Inserted(old(nodes), i + 1, element)
    {
      hide Inserted;
      FirstOfLine(nodes, i);
      FirstAfterInsertion(nodes, i + 1, element);
      element.linkPrevious := after;
      if after.linkNext == null {
        element.linkNext := null;
      } else {
        element.linkNext := after.linkNext;
        after.linkNext.linkPrevious := element;
      }
      after.linkNext := element;
      LinkedInIsLine(nodes, i + 1, element);
      nodes := Inserted(nodes, i + 1, element);
    }

    method Remove(element: Node<D>, ghost i: nat)
      requires Valid() && i < |nodes| && nodes[i] == element
      modifies this, nodes`linkNext, nodes`linkPrevious
      ensures Valid() && nodes == Removed(old(nodes), i)
    {
      if element == root {
        root := element.linkNext;
      } else {
        element.linkPrevious.linkNext := element.linkNext;
      }
      if element.linkNext != null {
        element.linkNext.linkPrevious := element.linkPrevious;
      }
      nodes := Removed(nodes, i);
    }

    function StartDo(): Node?<D>
      reads this
    {
      root
    }

    function NextDo(element: Node<D>): Node?<D>
      reads element
    {
      element.linkNext
    }

    predicate IsTail(element: Node<D>)
      reads element
    {
      element.linkNext == null
    }

    /** A traversal visits every node once, in order, and stops; only the last is a tail. */
    method Visit() returns (visited: seq<Node<D>>)
      requires Valid()
      ensures visited == nodes
      ensures forall k :: 0 <= k < |nodes| ==> (IsTail(nodes[k]) <==> k == |nodes| - 1)
    {
      visited := [];
      var walk := StartDo();
      while walk != null
        invariant |visited| <= |nodes| && visited == nodes[..|visited|]
        invariant walk == if |visited| == |nodes| then null else nodes[|visited|]
        decreases |nodes| - |visited|
      {
        visited := visited + [walk];
        walk := NextDo(walk);
      }
    }
  }
}

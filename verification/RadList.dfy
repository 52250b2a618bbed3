/** The intrusive doubly linked list of radlist.c: two sentinels inside the list, links inside
    the nodes. `nodes` is the sequence the links stand for. */
module RadList {
  import opened Sequences

  class Node<T(0)> {
    var prevNode: Node?<T>
    var nextNode: Node?<T>
    const data: T

    constructor (data: T)
      ensures this.data == data
    {
      this.data := data;
      prevNode, nextNode := null, null;
    }
  }

  /** What the nodes carry, in order. */
  ghost function Items<T(0)>(nodes: seq<Node<T>>): (s: seq<T>)
    ensures |s| == |nodes| && forall i | 0 <= i < |s| :: s[i] == nodes[i].data
  {
    if nodes == [] then [] else [nodes[0].data] + Items(nodes[1..])
  }

  /** Each node of the chain is linked to the next, both ways. */
  ghost predicate Linked<T(0)>(c: seq<Node<T>>)
    reads c`nextNode, c`prevNode
  {
    forall i | 0 <= i < |c| - 1 :: c[i].nextNode == c[i + 1] && c[i + 1].prevNode == c[i]
  }

  lemma {:induction false} WithDistinct<T(0)>(c: seq<Node<T>>, k: nat, x: Node<T>)
    requires Distinct(c) && k <= |c| && x !in c
    ensures Distinct(With(c, k, x))
  {
    var c' := With(c, k, x);
    assert forall i | 0 <= i < |c'| :: c'[i] == if i < k then c[i] else if i == k then x else c[i - 1];
  }

  lemma {:induction false} WithoutDistinct<T(0)>(c: seq<Node<T>>, k: nat)
    requires Distinct(c) && k < |c|
    ensures Distinct(Without(c, k)) && c[k] !in Without(c, k)
  {
    var c' := Without(c, k);
    assert forall i | 0 <= i < |c'| :: c'[i] == if i < k then c[i] else c[i + 1];
  }

  /** A node more adds its item at the same place. */
  lemma {:induction false} ItemsWith<T(0)>(nodes: seq<Node<T>>, k: nat, node: Node<T>)
    requires k <= |nodes|
    ensures Items(With(nodes, k, node)) == With(Items(nodes), k, node.data)
  {
    var s := With(nodes, k, node);
    assert forall i | 0 <= i < |s| :: s[i] == if i < k then nodes[i] else if i == k then node else nodes[i - 1];
  }

  class List<T(0)> {
    const firstNode: Node<T>
    const lastNode: Node<T>
    var noNodes: int
    ghost var nodes: seq<Node<T>>

    /** The chain from sentinel to sentinel. */
    ghost function Chain(): (c: seq<Node<T>>)
      reads this`nodes
    {
      [firstNode] + nodes + [lastNode]
    }

    ghost predicate Valid()
      reads this`noNodes, this`nodes, Chain()`nextNode, Chain()`prevNode
    {
      noNodes == |nodes| && Distinct(Chain()) && Linked(Chain())
    }

    /** radListCreate. */
    constructor ()
      ensures Valid() && nodes == [] && fresh(firstNode) && fresh(lastNode)
    {
      var none: T := *;
      firstNode := new Node<T>(none);
      lastNode := new Node<T>(none);
      noNodes, nodes := 0, [];
      new;
      firstNode.nextNode, lastNode.prevNode := lastNode, firstNode;
    }

    /** radListReset: the list is empty; the nodes it held keep their links. */
    method Reset()
      requires firstNode != lastNode
      modifies this`noNodes, this`nodes, firstNode`nextNode, firstNode`prevNode, lastNode`nextNode, lastNode`prevNode
      ensures Valid() && nodes == []
    {
      firstNode.prevNode := null;
      firstNode.nextNode := lastNode;
      lastNode.prevNode := firstNode;
      lastNode.nextNode := null;
      noNodes := 0;
      nodes := [];
    }

    /** What the sentinels' links tell. */
    lemma Ends()
      requires Valid()
      ensures firstNode.nextNode == (if nodes == [] then lastNode else nodes[0])
      ensures lastNode.prevNode == (if nodes == [] then firstNode else nodes[|nodes| - 1])
      ensures firstNode != lastNode && firstNode !in nodes && lastNode !in nodes
    {
      ghost var c, n := Chain(), |nodes|;
      assert c[0] == firstNode && c[n + 1] == lastNode;
      assert forall i | 0 <= i < n :: c[i + 1] == nodes[i];
      assert c[1] == firstNode.nextNode && c[n] == lastNode.prevNode;
    }

    // ----- inserting -----

    /** The writes of radListInsertAfter, in front of node k of the chain. */
    method LinkAfter(afterThisNode: Node<T>, node: Node<T>, ghost next: Node<T>, ghost c: seq<Node<T>>, ghost k: nat)
      requires Linked(c) && Distinct(c) && 0 < k < |c| && c[k - 1] == afterThisNode && c[k] == next && node !in c
      modifies afterThisNode`nextNode, next`prevNode, node`nextNode, node`prevNode
      ensures Linked(With(c, k, node))
    {
      assert afterThisNode.nextNode == c[k];
      node.nextNode := afterThisNode.nextNode;
      node.prevNode := afterThisNode;
      afterThisNode.nextNode := node;
      node.nextNode.prevNode := node;
      ghost var c' := With(c, k, node);
      forall i | 0 <= i < |c'| - 1 ensures c'[i].nextNode == c'[i + 1] && c'[i + 1].prevNode == c'[i] {
        if i < k - 1 {
          assert c'[i] == c[i] && c'[i + 1] == c[i + 1];
        } else if k < i {
          assert c'[i] == c[i - 1] && c'[i + 1] == c[i];
        }
      }
    }

    /** The writes of radListInsertBefore, in front of node k of the chain. */
    method LinkBefore(beforeThisNode: Node<T>, node: Node<T>, ghost prev: Node<T>, ghost c: seq<Node<T>>, ghost k: nat)
      requires Linked(c) && Distinct(c) && 0 < k < |c| && c[k] == beforeThisNode && c[k - 1] == prev && node !in c
      modifies prev`nextNode, beforeThisNode`prevNode, node`nextNode, node`prevNode
      ensures Linked(With(c, k, node))
    {
      assert beforeThisNode.prevNode == c[k - 1] by { assert c[k - 1].nextNode == c[k - 1 + 1]; }
      node.prevNode := beforeThisNode.prevNode;
      node.nextNode := beforeThisNode;
      beforeThisNode.prevNode := node;
      node.prevNode.nextNode := node;
      ghost var c' := With(c, k, node);
      forall i | 0 <= i < |c'| - 1 ensures c'[i].nextNode == c'[i + 1] && c'[i + 1].prevNode == c'[i] {
        if i < k - 1 {
          assert c'[i] == c[i] && c'[i + 1] == c[i + 1];
        } else if k < i {
          assert c'[i] == c[i - 1] && c'[i + 1] == c[i];
        }
      }
    }

    /** radListInsertAfter, for the node at position k. */
    method InsertAfter(afterThisNode: Node<T>, node: Node<T>, ghost k: nat)
      requires Valid() && k < |nodes| && nodes[k] == afterThisNode && node !in Chain()
      modifies this`noNodes, this`nodes, Chain()`nextNode, Chain()`prevNode, node`nextNode, node`prevNode
      ensures Valid() && nodes == With(old(nodes), k + 1, node)
    {
      ghost var c := Chain();
      assert c[k + 1] == afterThisNode && c[k + 2] in c;
      LinkAfter(afterThisNode, node, c[k + 2], c, k + 2);
      noNodes := noNodes + 1;
      WithinEnds(firstNode, nodes, lastNode, k + 1, node);
      nodes := With(nodes, k + 1, node);
      WithDistinct(c, k + 2, node);
    }

    /** radListInsertBefore, for the node at position k. */
    method InsertBefore(beforeThisNode: Node<T>, node: Node<T>, ghost k: nat)
      requires Valid() && k < |nodes| && nodes[k] == beforeThisNode && node !in Chain()
      modifies this`noNodes, this`nodes, Chain()`nextNode, Chain()`prevNode, node`nextNode, node`prevNode
      ensures Valid() && nodes == With(old(nodes), k, node)
    {
      ghost var c := Chain();
      assert c[k + 1] == beforeThisNode && c[k] in c;
      LinkBefore(beforeThisNode, node, c[k], c, k + 1);
      noNodes := noNodes + 1;
      WithinEnds(firstNode, nodes, lastNode, k, node);
      nodes := With(nodes, k, node);
      WithDistinct(c, k + 1, node);
    }

    /** radListAddToFront. */
    method AddToFront(node: Node<T>)
      requires Valid() && node !in Chain()
      modifies this`noNodes, this`nodes, Chain()`nextNode, Chain()`prevNode, node`nextNode, node`prevNode
      ensures Valid() && nodes == With(old(nodes), 0, node)
    {
      ghost var c := Chain();
      assert c[0] == firstNode && c[1] in c;
      LinkAfter(firstNode, node, c[1], c, 1);
      noNodes := noNodes + 1;
      WithinEnds(firstNode, nodes, lastNode, 0, node);
      nodes := With(nodes, 0, node);
      WithDistinct(c, 1, node);
    }

    /** radListAddToEnd. */
    method AddToEnd(node: Node<T>)
      requires Valid() && node !in Chain()
      modifies this`noNodes, this`nodes, Chain()`nextNode, Chain()`prevNode, node`nextNode, node`prevNode
      ensures Valid() && nodes == With(old(nodes), |old(nodes)|, node)
    {
      ghost var c, n := Chain(), |nodes|;
      assert c[n + 1] == lastNode && c[n] in c;
      LinkBefore(lastNode, node, c[n], c, n + 1);
      noNodes := noNodes + 1;
      WithinEnds(firstNode, nodes, lastNode, n, node);
      nodes := With(nodes, n, node);
      WithDistinct(c, n + 1, node);
    }

    // ----- removing -----

    /** The writes of radListRemove, for node k of the chain. */
    method Unlink(node: Node<T>, ghost prev: Node<T>, ghost next: Node<T>, ghost c: seq<Node<T>>, ghost k: nat)
      requires Linked(c) && Distinct(c) && 0 < k < |c| - 1 && c[k] == node && c[k - 1] == prev && c[k + 1] == next
      modifies prev`nextNode, next`prevNode
      ensures Linked(Without(c, k))
    {
      assert node.nextNode == c[k + 1] && node.prevNode == c[k - 1] by { assert c[k - 1].nextNode == c[k - 1 + 1]; }
      node.nextNode.prevNode := node.prevNode;
      node.prevNode.nextNode := node.nextNode;
      ghost var c' := Without(c, k);
      forall i | 0 <= i < |c'| - 1 ensures c'[i].nextNode == c'[i + 1] && c'[i + 1].prevNode == c'[i] {
        if i < k - 1 {
          assert c'[i] == c[i] && c'[i + 1] == c[i + 1];
        } else if k - 1 < i {
          assert c'[i] == c[i + 1] && c'[i + 1] == c[i + 2];
        }
      }
    }

    /** radListRemove, for the node at position k. */
    method Remove(node: Node<T>, ghost k: nat)
      requires Valid() && k < |nodes| && nodes[k] == node
      modifies this`noNodes, this`nodes, Chain()`nextNode, Chain()`prevNode
      ensures Valid() && nodes == Without(old(nodes), k)
    {
      ghost var c := Chain();
      assert c[k + 1] == node && c[k] in c && c[k + 2] in c;
      Unlink(node, c[k], c[k + 2], c, k + 1);
      noNodes := noNodes - 1;
      WithoutInEnds(firstNode, nodes, lastNode, k);
      nodes := Without(nodes, k);
      WithoutDistinct(c, k + 1);
    }

    /** radListRemoveFirst; null from an empty list. */
    method RemoveFirst() returns (node: Node?<T>)
      requires Valid()
      modifies this`noNodes, this`nodes, Chain()`nextNode, Chain()`prevNode
      ensures Valid()
      ensures
        if old(nodes) == [] then node == null && nodes == []
        else node == old(nodes)[0] && nodes == old(nodes)[1..]
    {
      Ends();
      if firstNode.nextNode == lastNode {
        return null;
      }
      node := firstNode.nextNode;
      Remove(node, 0);
    }

    /** radListRemoveLast; null from an empty list. */
    method RemoveLast() returns (node: Node?<T>)
      requires Valid()
      modifies this`noNodes, this`nodes, Chain()`nextNode, Chain()`prevNode
      ensures Valid()
      ensures var was, n := old(nodes), |old(nodes)|;
        if was == [] then node == null && nodes == [] else node == was[n - 1] && nodes == was[..n - 1]
    {
      Ends();
      if lastNode.prevNode == firstNode {
        return null;
      }
      node := lastNode.prevNode;
      Remove(node, |nodes| - 1);
    }

    // ----- looking -----

    /** radListGetNumberOfNodes. */
    method GetNumberOfNodes() returns (n: int)
      requires Valid()
      ensures n == |nodes|
    {
      n := noNodes;
    }

    /** radListGetFirst. */
    method GetFirst() returns (node: Node?<T>)
      requires Valid()
      ensures node == if nodes == [] then null else nodes[0]
    {
      Ends();
      node := if firstNode.nextNode == lastNode then null else firstNode.nextNode;
    }

    /** radListGetLast. */
    method GetLast() returns (node: Node?<T>)
      requires Valid()
      ensures node == if nodes == [] then null else nodes[|nodes| - 1]
    {
      Ends();
      node := if lastNode.prevNode == firstNode then null else lastNode.prevNode;
    }

    /** radListGetNext, for the node at position k; null gets the first one. */
    method GetNext(afterThisNode: Node?<T>, ghost k: nat) returns (node: Node?<T>)
      requires Valid() && (afterThisNode != null ==> k < |nodes| && nodes[k] == afterThisNode)
      ensures var at := if afterThisNode == null then 0 else k + 1;
        node == if at < |nodes| then nodes[at] else null
    {
      if afterThisNode == null {
        node := GetFirst();
        return;
      }
      ghost var c := Chain();
      Ends();
      assert c[k + 1] == afterThisNode && c[k + 2] == afterThisNode.nextNode;
      node := if afterThisNode.nextNode == lastNode then null else afterThisNode.nextNode;
    }

    /** radListGetPrevious, for the node at position k; null gets the last one. */
    method GetPrevious(beforeThisNode: Node?<T>, ghost k: nat) returns (node: Node?<T>)
      requires Valid() && (beforeThisNode != null ==> k < |nodes| && nodes[k] == beforeThisNode)
      ensures var at := if beforeThisNode == null then |nodes| - 1 else k - 1;
        node == if 0 <= at then nodes[at] else null
    {
      if beforeThisNode == null {
        node := GetLast();
        return;
      }
      ghost var c := Chain();
      Ends();
      assert c[k + 1] == beforeThisNode && c[k] == beforeThisNode.prevNode;
      node := if beforeThisNode.prevNode == firstNode then null else beforeThisNode.prevNode;
    }
  }
}

/** The sorted list of radsortlist.c, on radlist. */
module RadSortList {
  import opened RadList
  import opened Sequences
  import opened StableSort

  class SortList<T(0)> {
    const list: List<T>
    const keyFunc: T -> int

    /** radSortListInit. */
    constructor (getKey: T -> int)
      ensures list.Valid() && list.nodes == [] && keyFunc == getKey
    {
      list := new List<T>();
      keyFunc := getKey;
    }

    /** The search of radSortListInsert: the first node with a greater key. */
    method FirstAbove(item: T) returns (node: Node?<T>, ghost k: nat)
      requires list.Valid()
      ensures k <= |list.nodes| && Place(Items(list.nodes), item, keyFunc, k)
      ensures forall i | 0 <= i < k :: keyFunc(list.nodes[i].data) <= keyFunc(item)
      ensures k < |list.nodes| ==> keyFunc(item) < keyFunc(list.nodes[k].data)
      ensures node == if k < |list.nodes| then list.nodes[k] else null
    {
      hide Distinct, Linked;
      ghost var nodes := list.nodes;
      k := 0;
      node := list.GetFirst();
      while node != null
        invariant k <= |nodes| && node == if k < |nodes| then nodes[k] else null
        invariant forall i | 0 <= i < k :: keyFunc(nodes[i].data) <= keyFunc(item)
        decreases |nodes| - k
      {
        if keyFunc(node.data) > keyFunc(item) {
          return;
        }
        node := list.GetNext(node, k);
        k := k + 1;
      }
    }

    /** radSortListInsert: behind equal keys, at position k. */
    method Insert(newNode: Node<T>) returns (ghost k: nat)
      requires list.Valid() && newNode !in list.Chain()
      modifies list`noNodes, list`nodes, list.Chain()`nextNode, list.Chain()`prevNode, newNode`nextNode,
        newNode`prevNode
      ensures list.Valid() && k <= |old(list.nodes)| && list.nodes == With(old(list.nodes), k, newNode)
      ensures forall i | 0 <= i < k :: keyFunc(old(list.nodes)[i].data) <= keyFunc(newNode.data)
      ensures k < |old(list.nodes)| ==> keyFunc(newNode.data) < keyFunc(old(list.nodes)[k].data)
      ensures Items(list.nodes) == InsertStable(old(Items(list.nodes)), newNode.data, keyFunc)
    {
      hide Distinct, Linked, InsertStable, Place;
      ghost var nodes := list.nodes;
      var node;
      node, k := FirstAbove(newNode.data);
      InsertStableAt(Items(nodes), newNode.data, keyFunc, k);
      ItemsWith(nodes, k, newNode);
      if node != null {
        list.InsertBefore(node, newNode, k);
      } else {
        list.AddToEnd(newNode);
      }
    }

    /** radSortListRemove: ERROR for a node that is not on the list. */
    method Remove(fnode: Node<T>) returns (ok: bool)
      requires list.Valid()
      modifies list`noNodes, list`nodes, list.Chain()`nextNode, list.Chain()`prevNode
      ensures list.Valid() && (ok <==> fnode in old(list.nodes))
      ensures !ok ==> list.nodes == old(list.nodes)
      ensures ok ==> exists k | 0 <= k < |old(list.nodes)| ::
        && old(list.nodes)[k] == fnode
        && list.nodes == Without(old(list.nodes), k)
    {
      ghost var nodes, k := list.nodes, 0;
      var node := list.GetFirst();
      while node != null
        invariant k <= |nodes| && node == if k < |nodes| then nodes[k] else null
        invariant fnode !in nodes[..k]
        invariant list.Valid() && list.nodes == nodes
        decreases |nodes| - k
      {
        if node == fnode {
          list.Remove(node, k);
          assert nodes[k] == fnode;
          return true;
        }
        node := list.GetNext(node, k);
        k := k + 1;
      }
      assert nodes[..k] == nodes;
      return false;
    }

    /** radSortListFind: the first node with the key, null if there is none. */
    method Find(key: int) returns (node: Node?<T>)
      requires list.Valid()
      ensures node == null ==> forall n | n in list.nodes :: keyFunc(n.data) != key
      ensures node != null ==> exists k | 0 <= k < |list.nodes| ::
        && node == list.nodes[k] && keyFunc(node.data) == key
        && forall i | 0 <= i < k :: keyFunc(list.nodes[i].data) != key
    {
      ghost var k := 0;
      node := list.GetFirst();
      while node != null
        invariant k <= |list.nodes| && node == if k < |list.nodes| then list.nodes[k] else null
        invariant forall i | 0 <= i < k :: keyFunc(list.nodes[i].data) != key
        decreases |list.nodes| - k
      {
        if keyFunc(node.data) == key {
          return;
        }
        node := list.GetNext(node, k);
        k := k + 1;
      }
    }
  }
}

/** The intrusive circular list: insertion at either side of a head, in rings of any length. */
module List {

  class ListHead {
    var prev: ListHead
    var next: ListHead

    /** list_init: a ring of one. */
    constructor ()
      ensures Ring([this])
    {
      prev, next := this, this;
    }
  }

  function After(i: nat, n: nat): nat { if i + 1 == n then 0 else i + 1 }

  /** The nodes, in next order, form one ring, doubly linked. */
  ghost predicate Ring(nodes: seq<ListHead>)
    reads nodes
  {
    |nodes| >= 1
    && (forall i, j :: 0 <= i < j < |nodes| ==> nodes[i] != nodes[j])
    && forall i :: 0 <= i < |nodes| ==>
         nodes[i].next == nodes[After(i, |nodes|)] && nodes[After(i, |nodes|)].prev == nodes[i]
  }

  /** __list_add, in the order of its four stores. */
  method ListAdd(node: ListHead, prev: ListHead, next: ListHead)
    requires node != prev && node != next
    modifies node, prev`next, next`prev
    ensures prev.next == node && node.next == next && node.prev == prev && next.prev == node
  {
    prev.next := node;
    node.next := next;
    node.prev := prev;
    next.prev := node;
  }

  /** list_add_tail puts the node directly behind the head. */
  method ListAddTail(node: ListHead, head: ListHead, ghost nodes: seq<ListHead>)
    requires Ring(nodes) && nodes[0] == head && node !in nodes
    modifies node, nodes
    ensures Ring([head, node] + nodes[1..])
  {
    assert head.next == nodes[After(0, |nodes|)];
    ListAdd(node, head, head.next);
    ghost var ring := [head, node] + nodes[1..];
    forall i | 0 <= i < |ring|
      ensures ring[i].next == ring[After(i, |ring|)] && ring[After(i, |ring|)].prev == ring[i]
    {
      if i >= 2 {
        assert ring[i] == nodes[i - 1];
        assert After(i - 1, |nodes|) == 0 || ring[i + 1] == nodes[i];
      }
    }
  }

  /** list_add_head puts the node directly before the head, at the far end of the ring. */
  method ListAddHead(node: ListHead, head: ListHead, ghost nodes: seq<ListHead>)
    requires Ring(nodes) && nodes[0] == head && node !in nodes
    modifies node, nodes
    ensures Ring(nodes + [node])
  {
    ghost var last := |nodes| - 1;
    assert nodes[After(last, |nodes|)].prev == nodes[last];
    ListAdd(node, head.prev, head);
    ghost var ring := nodes + [node];
    forall i | 0 <= i < |ring|
      ensures ring[i].next == ring[After(i, |ring|)] && ring[After(i, |ring|)].prev == ring[i]
    {
      if i < last {
        assert ring[i] == nodes[i] && ring[i + 1] == nodes[i + 1];
      }
    }
  }
}

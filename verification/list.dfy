/** The intrusive circular list with a sentinel of `kernel/lib/ds/list.cpp`, and the queue of
    `kernel/lib/ds/queue.cpp`. */
module Lists {

  class ListNode {
    var prev: ListNode?
    var next: ListNode?

    constructor ()
      ensures prev == null && next == null
    {
      prev, next := null, null;
    }
  }

  class List {
    /** m_head: part of the list object in the source. */
    const head: ListNode
    /** The members from front to back. */
    ghost var nodes: seq<ListNode>

    /** Position -1 and position |nodes| are the sentinel. */
    ghost function At(i: int): ListNode
      requires -1 <= i <= |nodes|
      reads this
    {
      if 0 <= i < |nodes| then nodes[i] else head
    }

    ghost predicate Valid()
      reads this, head, nodes
    {
      && head !in nodes
      && (forall i, j :: 0 <= i < j < |nodes| ==> nodes[i] != nodes[j])
      && (forall i {:trigger nodes[i].next} :: 0 <= i < |nodes| - 1 ==> nodes[i].next == nodes[i + 1])
      && (forall i {:trigger nodes[i].prev} :: 1 <= i < |nodes| ==> nodes[i].prev == nodes[i - 1])
      && (if nodes == [] then head.next == head && head.prev == head
          else
            && head.next == nodes[0] && nodes[0].prev == head
            && head.prev == nodes[|nodes| - 1] && nodes[|nodes| - 1].next == head)
    }

    constructor ()
      ensures Valid() && nodes == [] && fresh(head)
    {
      head := new ListNode();
      nodes := [];
      new;
      head.next := head;
      head.prev := head;
    }

    method Init()
      modifies this, head
      ensures Valid() && nodes == []
    {
      nodes := [];
      head.next := head;
      head.prev := head;
    }

    method IsEmpty() returns (empty: bool)
      requires Valid()
      ensures empty <==> nodes == []
    {
      empty := head.next == head;
    }

    /** Writes only the node, the sentinel and the old front. */
    method PushFront(node: ListNode?)
      requires Valid() && node != head && node !in nodes
      modifies this, node, head, head.next
      ensures Valid()
      ensures nodes == if node == null then old(nodes) else [node] + old(nodes)
    {
      if node == null {
        return;
      }
      node.prev := head;
      node.next := head.next;
      head.next.prev := node;
      head.next := node;
      nodes := [node] + nodes;
    }

    /** Writes only the node, the sentinel and the old back. */
    method PushBack(node: ListNode?)
      requires Valid() && node != head && node !in nodes
      modifies this, node, head, head.prev
      ensures Valid()
      ensures nodes == if node == null then old(nodes) else old(nodes) + [node]
    {
      if node == null {
        return;
      }
      node.next := head;
      node.prev := head.prev;
      head.prev.next := node;
      head.prev := node;
      nodes := nodes + [node];
    }

    /** Writes only the sentinel and the new front; the popped node keeps its links. */
    method PopFront() returns (node: ListNode?)
      requires Valid()
      modifies this, head, (if head.next == null then null else head.next.next)
      ensures Valid()
      ensures old(nodes) == [] ==> node == null && nodes == []
      ensures old(nodes) != [] ==> node == old(nodes)[0] && nodes == old(nodes)[1..]
    {
      var empty := IsEmpty();
      if empty {
        return null;
      }
      node := head.next;
      assert node == nodes[0];
      Remove(node);
    }

    /** Writes only the sentinel and the new back; the popped node keeps its links. */
    method PopBack() returns (node: ListNode?)
      requires Valid()
      modifies this, head, (if head.prev == null then null else head.prev.prev)
      ensures Valid()
      ensures old(nodes) == [] ==> node == null && nodes == []
      ensures old(nodes) != [] ==> node == old(nodes)[|old(nodes)| - 1] && nodes == old(nodes)[..|old(nodes)| - 1]
    {
      var empty := IsEmpty();
      if empty {
        return null;
      }
      node := head.prev;
      assert node == nodes[|nodes| - 1];
      Remove(node);
    }

    /** Writes only the two neighbours; the removed node keeps its links. */
    method Remove(node: ListNode)
      requires Valid() && node in nodes
      modifies this, node.prev, node.next
      ensures Valid()
      ensures exists k :: 0 <= k < |old(nodes)| && old(nodes)[k] == node && nodes == old(nodes)[..k] + old(nodes)[k + 1..]
      ensures node.prev == old(node.prev) && node.next == old(node.next)
    {
      ghost var k :| 0 <= k < |nodes| && nodes[k] == node;
      Unlink(node, k);
    }

    method Unlink(node: ListNode, ghost k: nat)
      requires Valid() && k < |nodes| && nodes[k] == node
      modifies this, node.prev, node.next
      ensures Valid() && nodes == old(nodes)[..k] + old(nodes)[k + 1..]
      ensures node.prev == old(node.prev) && node.next == old(node.next)
    {
      LinksAt(k);
      node.prev.next := node.next;
      node.next.prev := node.prev;
      nodes := nodes[..k] + nodes[k + 1..];
    }

    /** The links at any position lead to the positions beside it. */
    lemma LinksAt(i: int)
      requires Valid() && -1 <= i <= |nodes|
      ensures i < |nodes| ==> At(i).next == At(i + 1)
      ensures 0 <= i ==> At(i).prev == At(i - 1)
    {
      if 0 <= i < |nodes| {
        assert nodes[i].next == At(i + 1);
        assert nodes[i].prev == At(i - 1);
      }
    }

    /** Writing other objects does not disturb the list. */
    twostate lemma LinksKept()
      requires old(Valid()) && nodes == old(nodes)
      requires head.prev == old(head.prev) && head.next == old(head.next)
      requires forall n :: n in nodes ==> n.prev == old(n.prev) && n.next == old(n.next)
      ensures Valid()
    {}

    // ---- walks

    /** The node that k + 1 steps along `next` from the sentinel lead to. */
    ghost function Forward(k: nat): (n: ListNode)
      requires Valid() && k <= |nodes|
      reads this, head, nodes
      ensures n == At(k)
    {
      LinksAt(k - 1);
      if k == 0 then head.next else Forward(k - 1).next
    }

    /** The node that k + 1 steps along `prev` from the sentinel lead to. */
    ghost function Backward(k: nat): (n: ListNode)
      requires Valid() && k <= |nodes|
      reads this, head, nodes
      ensures n == At(|nodes| - 1 - k)
    {
      LinksAt(|nodes| - k);
      if k == 0 then head.prev else Backward(k - 1).prev
    }

    /** Walking backwards visits the members in the reverse order of walking forwards, and both
        walks return to the sentinel after all members. */
    lemma BackwardReversesForward(k: nat)
      requires Valid() && k < |nodes|
      ensures Backward(k) == Forward(|nodes| - 1 - k)
      ensures Forward(|nodes|) == head == Backward(|nodes|)
    {}
  }

  class Queue {
    const list: List

    ghost predicate Valid()
      reads this, list, list.head, list.nodes
    {
      list.Valid()
    }

    constructor ()
      ensures Valid() && list.nodes == [] && fresh(list) && fresh(list.head)
    {
      list := new List();
    }

    method Init()
      modifies list, list.head
      ensures Valid() && list.nodes == []
    {
      list.Init();
    }

    method IsEmpty() returns (empty: bool)
      requires Valid()
      ensures empty <==> list.nodes == []
    {
      empty := list.IsEmpty();
    }

    method Push(node: ListNode?)
      requires Valid() && node != list.head && node !in list.nodes
      modifies list, node, list.head, list.head.prev
      ensures Valid()
      ensures list.nodes == if node == null then old(list.nodes) else old(list.nodes) + [node]
    {
      list.PushBack(node);
    }

    /** First in, first out; the popped node keeps its links. */
    method Pop() returns (node: ListNode?)
      requires Valid()
      modifies list, list.head, (if list.head.next == null then null else list.head.next.next)
      ensures Valid()
      ensures old(list.nodes) == [] ==> node == null && list.nodes == []
      ensures old(list.nodes) != [] ==> node == old(list.nodes)[0] && list.nodes == old(list.nodes)[1..]
    {
      var empty := list.IsEmpty();
      if empty {
        return null;
      }
      node := list.PopFront();
    }
  }
}

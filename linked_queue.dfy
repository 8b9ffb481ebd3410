/** The linked queue of assignment-3/linkedqueue.h: a sentinel node heads a
    null-terminated chain whose first node after the sentinel is the front
    of the queue, and `tail` points at the last node (the sentinel when the
    queue is empty).  Enqueueing links a node behind the tail, dequeueing
    unlinks the node after the sentinel, and leaveQueue walks from the
    sentinel to the node before the tail. */
module LinkedQueues {
  import opened Outcomes
  import QueueSpec

  class Node<T> {
    var item: T
    var next: Node?<T>

    constructor (item: T, next: Node?<T>)
      ensures this.item == item && this.next == next
    {
      this.item := item;
      this.next := next;
    }
  }

  /** ns is a null-terminated chain whose nodes after the first hold the
      items of q in order. */
  ghost predicate Chain<T>(ns: seq<Node<T>>, q: seq<T>)
    reads ns
  {
    |ns| == |q| + 1 &&
    (forall i :: 0 <= i < |q| ==> ns[i].next == ns[i + 1] && ns[i + 1].item == q[i]) &&
    ns[|q|].next == null
  }

  class LinkedQueue<T(0)> {
    var head: Node<T>
    var tail: Node<T>
    var length: nat

    /** The chain: nodes[0] is the sentinel and nodes[i] holds the i-th
        element from the front; the last node is the tail. */
    ghost var nodes: seq<Node<T>>
    ghost var elements: seq<T>
    ghost var Repr: set<object>

    ghost predicate Valid()
      reads this, Repr
    {
      this in Repr && |nodes| == |elements| + 1 && nodes[0] == head && tail == nodes[|elements|] &&
      length == |elements| &&
      (forall i :: 0 <= i < |nodes| ==> nodes[i] in Repr) &&
      (forall i, j :: 0 <= i < j < |nodes| ==> nodes[i] != nodes[j]) &&
      Chain(nodes, elements) &&
      // the front node, spelled out
      head.next == (if length == 0 then null else nodes[1])
    }

    ghost function Elements(): seq<T>
      reads this
    {
      elements
    }

    /** An empty queue: a sentinel alone, which is also the tail. */
    constructor ()
      ensures Valid() && fresh(Repr) && Elements() == []
    {
      var d: T := *;
      var h := new Node(d, null);
      head, tail, length := h, h, 0;
      nodes, elements := [h], [];
      new;
      Repr := {this, h};
    }

    /** The initialiser-list constructor enqueues the items in order, so
        the first one is at the front. */
    constructor FromSeq(items: seq<T>)
      ensures Valid() && fresh(Repr) && Elements() == items
    {
      var d: T := *;
      var h := new Node(d, null);
      head, tail, length := h, h, 0;
      nodes, elements := [h], [];
      new;
      Repr := {this, h};
      for i := 0 to |items|
        invariant Valid() && fresh(Repr) && elements == items[..i]
      {
        Enqueue(items[i]);
        assert items[..i + 1] == items[..i] + [items[i]];
      }
      assert items[..|items|] == items;
    }

    /** The copy constructor: a new sentinel, then copy_from. */
    constructor Copy(other: LinkedQueue<T>)
      requires other.Valid()
      ensures Valid() && fresh(Repr) && Elements() == other.Elements()
    {
      var d: T := *;
      var h := new Node(d, null);
      head, tail, length := h, h, 0;
      nodes, elements := [h], [];
      new;
      Repr := {this, h};
      CopyFrom(other);
    }

    /** The move constructor takes the chain; `other` is left empty behind
        a new sentinel. */
    constructor Move(other: LinkedQueue<T>)
      requires other.Valid()
      modifies other
      ensures Valid() && other.Valid()
      ensures Elements() == old(other.Elements()) && other.Elements() == []
      ensures Repr == old(other.Repr) - {other} + {this} && fresh(other.Repr - {other})
    {
      head, tail, length := other.head, other.tail, other.length;
      nodes, elements := other.nodes, other.elements;
      new;
      Repr := other.Repr - {other} + {this};
      var d: T := *;
      var h := new Node(d, null);
      other.Reset(h);
      assert forall i :: 0 <= i < |nodes| ==> nodes[i] in Repr;
    }

    /** copy_from: behind this sentinel, a node-by-node copy of the other's
        chain, in the same order, with the tail on the last copy. */
    method CopyFrom(other: LinkedQueue<T>)
      requires other.Valid() && this in Repr && head in Repr && Repr !! other.Repr
      modifies this, head
      ensures Valid() && fresh(Repr - old(Repr)) && Repr !! other.Repr
      ensures Elements() == other.Elements() && head == old(head)
    {
      var last, ns, added := CloneChain(other.head, other.nodes, other.elements, head);
      tail, length, nodes, elements := last, other.length, ns, other.elements;
      Repr := Repr + added;
    }

    /** Copy assignment; a self-assignment changes nothing. */
    method Assign(other: LinkedQueue<T>)
      requires Valid() && other.Valid() && (this != other ==> Repr !! other.Repr)
      modifies this, head
      ensures Valid() && fresh(Repr - old(Repr))
      ensures Elements() == old(other.Elements())
    {
      if this == other {
        return;
      }
      CopyFrom(other);
    }

    /** Move assignment: the sentinels and tails are swapped, this queue
        takes the other's chain and the other is emptied behind this
        queue's old sentinel. */
    method MoveAssign(other: LinkedQueue<T>)
      requires Valid() && other.Valid() && (this != other ==> Repr !! other.Repr)
      modifies this, other, head
      ensures Valid() && other.Valid()
      ensures Elements() == old(other.Elements())
      ensures this != other ==> other.Elements() == [] && other.head == old(head)
    {
      if this == other {
        return;
      }
      var h := head;
      head, tail, length := other.head, other.tail, other.length;
      nodes, elements, Repr := other.nodes, other.elements, other.Repr - {other} + {this};
      assert forall i :: 0 <= i < |nodes| ==> nodes[i] in Repr;
      other.Reset(h);
    }

    /** Empty this queue behind the sentinel `h`. */
    method Reset(h: Node<T>)
      modifies this, h
      ensures Valid() && Elements() == [] && Repr == {this, h} && head == h
    {
      h.next := null;
      head, tail, length := h, h, 0;
      nodes, elements, Repr := [h], [], {this, h};
    }

    /** clear: the sentinel's successor becomes null, the tail is the
        sentinel again and the length 0. */
    method Clear()
      requires Valid()
      modifies this, head
      ensures Valid() && Elements() == [] && Repr == old(Repr) && head == old(head) && tail == head
    {
      head.next := null;
      tail, length := head, 0;
      nodes, elements := [head], [];
    }

    /** enqueue: a new node behind the tail becomes the tail. */
    method Enqueue(x: T)
      requires Valid()
      modifies this, tail
      ensures Valid() && fresh(Repr - old(Repr)) && head == old(head) && fresh(tail)
      ensures Elements() == old(Elements()) + [x]
    {
      var n := new Node(x, null);
      tail.next := n;
      tail, length := n, length + 1;
      nodes, elements, Repr := nodes + [n], elements + [x], Repr + {n};
      assert Chain(nodes, elements) by {
        forall i | 0 <= i < |elements| ensures nodes[i].next == nodes[i + 1] && nodes[i + 1].item == elements[i] {
          if i < |elements| - 1 {
            assert nodes[i] != old(tail);
          }
        }
      }
    }

    /** dequeue: the node after the sentinel is unlinked and its item
        returned; when it was the only one, the tail goes back to the
        sentinel.  An empty queue fails. */
    method Dequeue() returns (r: Result<T>)
      requires Valid()
      modifies this, head
      ensures Valid() && Repr == old(Repr) && head == old(head)
      ensures QueueSpec.Dequeue(old(Elements())).Err? ==> r == Err(EmptyContainer) && Elements() == old(Elements())
      ensures QueueSpec.Dequeue(old(Elements())).Ok? ==>
        r == Ok(QueueSpec.Dequeue(old(Elements())).value.0) && Elements() == QueueSpec.Dequeue(old(Elements())).value.1
    {
      if length == 0 {
        return Err(EmptyContainer);
      }
      var front := head.next;
      if front == tail {
        tail := head;
      }
      var v := front.item;
      head.next := front.next;
      length := length - 1;
      ghost var ns := [head] + nodes[2..];
      forall i | 1 <= i < |ns| ensures ns[i] == nodes[i + 1] && ns[i] != head {
        assert nodes[i + 1] != nodes[0];
      }
      nodes, elements := ns, elements[1..];
      assert Chain(nodes, elements) by {
        forall i | 0 <= i < |elements| ensures nodes[i].next == nodes[i + 1] && nodes[i + 1].item == elements[i] {
          if i > 0 {
            assert nodes[i].next == old(nodes[i + 1].next);
          }
        }
      }
      r := Ok(v);
    }

    /** leaveQueue: walk from the sentinel to the node whose successor is
        the tail; that node becomes the tail and the old tail's item is
        returned.  An empty queue fails. */
    method LeaveQueue() returns (r: Result<T>)
      requires Valid()
      modifies this, Repr
      ensures Valid() && Repr == old(Repr) && head == old(head)
      ensures QueueSpec.LeaveQueue(old(Elements())).Err? ==> r == Err(EmptyContainer) && Elements() == old(Elements())
      ensures QueueSpec.LeaveQueue(old(Elements())).Ok? ==>
        r == Ok(QueueSpec.LeaveQueue(old(Elements())).value.0) && Elements() == QueueSpec.LeaveQueue(old(Elements())).value.1
    {
      if length == 0 {
        return Err(EmptyContainer);
      }
      var rear := tail;
      var p := head;
      ghost var k := 0;
      while p.next != rear
        invariant 0 <= k < length && p == nodes[k]
        decreases length - k
      {
        assert p.next == nodes[k + 1] != nodes[length];
        p := p.next;
        k := k + 1;
      }
      assert p.next == nodes[k + 1] == nodes[length];
      var v := rear.item;
      p.next := null;
      tail, length := p, length - 1;
      nodes, elements := nodes[..k + 1], elements[..k];
      assert Chain(nodes, elements) by {
        forall i | 0 <= i < k ensures nodes[i].next == nodes[i + 1] && nodes[i + 1].item == elements[i] {
          assert nodes[i] != p;
        }
      }
      r := Ok(v);
    }

    function Length(): (n: nat)
      requires Valid()
      reads this, Repr
      ensures n == |Elements()|
    {
      length
    }

    /** frontValue: the item right after the sentinel. */
    function FrontValue(): (r: Result<T>)
      requires Valid()
      reads this, Repr
      ensures r == QueueSpec.Front(Elements())
    {
      if length == 0 then Err(EmptyContainer) else Ok(head.next.item)
    }

    /** rearValue: the item of the tail. */
    function RearValue(): (r: Result<T>)
      requires Valid()
      reads this, Repr
      ensures r == QueueSpec.Rear(Elements())
    {
      if length == 0 then Err(EmptyContainer) else Ok(tail.item)
    }
  }

  /** The loop of copy_from: behind the sentinel `h`, one new node per node
      of the source chain `ons`, in the same order; the last new node is
      returned as the tail. */
  method CloneChain<T>(src: Node<T>, ghost ons: seq<Node<T>>, ghost q: seq<T>, h: Node<T>)
      returns (last: Node<T>, ghost ns: seq<Node<T>>, ghost added: set<object>)
    requires Chain(ons, q) && src == ons[0] && h !in ons
    modifies h
    ensures Chain(ns, q) && ns[0] == h && last == ns[|q|] && fresh(added)
    ensures forall k :: 1 <= k < |ns| ==> ns[k] in added
    ensures forall i, j :: 0 <= i < j < |ns| ==> ns[i] != ns[j]
  {
    h.next := null;
    ns, added := [h], {};
    var oldNode := src;
    var newNode := h;
    var i := 0;
    while oldNode.next != null
      invariant Chain(ons, q) && h !in ons
      invariant 0 <= i <= |q| && |ns| == i + 1 && ns[0] == h
      invariant oldNode == ons[i] && newNode == ns[i] && newNode.next == null
      invariant oldNode.next == if i < |q| then ons[i + 1] else null
      invariant fresh(added) && forall k :: 1 <= k < |ns| ==> ns[k] in added
      invariant forall k, l :: 0 <= k < l < |ns| ==> ns[k] != ns[l]
      invariant forall k :: 0 <= k < i ==> ns[k].next == ns[k + 1] && ns[k + 1].item == q[k]
      decreases |q| - i
    {
      oldNode := oldNode.next;
      assert oldNode.item == q[i];
      var n := new Node(oldNode.item, null);
      newNode.next := n;
      forall k | 0 <= k < i ensures ns[k].next == ns[k + 1] && ns[k + 1].item == q[k] {
        assert ns[k] != newNode;
      }
      newNode := n;
      ns, added := ns + [n], added + {n};
      i := i + 1;
    }
    last := newNode;
  }
}

/** The linked stack of assignment-2/linkedstack.h: a sentinel node heads a
    null-terminated chain whose first node after the sentinel is the top of
    the stack.  Pushing links a node right after the sentinel and popping
    unlinks it. */
module LinkedStacks {
  import opened Outcomes
  import StackSpec

  class Node<T> {
    var item: T
    var next: Node?<T>

    constructor (item: T, next: Node?<T>)
      ensures this.item == item && this.next == next
    {
      this.item := item;
      this.next := next;
    }
  }

  /** ns is a null-terminated chain whose nodes after the first hold the
      items of t in order (for a stack, t lists it from the top down). */
  ghost predicate Chain<T>(ns: seq<Node<T>>, t: seq<T>)
    reads ns
  {
    |ns| == |t| + 1 &&
    (forall i :: 0 <= i < |t| ==> ns[i].next == ns[i + 1] && ns[i + 1].item == t[i]) &&
    ns[|t|].next == null
  }

  class LinkedStack<T(0)> {
    var head: Node<T>
    var length: nat

    /** The chain: nodes[0] is the sentinel; `elements` lists the stack
        bottom first, so nodes[1] holds its last element. */
    ghost var nodes: seq<Node<T>>
    ghost var elements: seq<T>
    ghost var Repr: set<object>

    ghost predicate Valid()
      reads this, Repr
    {
      this in Repr && head in Repr && |nodes| >= 1 && nodes[0] == head && length == |elements| &&
      (forall i :: 0 <= i < |nodes| ==> nodes[i] in Repr) &&
      (forall i :: 1 <= i < |nodes| ==> nodes[i] != head) &&
      Chain(nodes, StackSpec.Reversed(elements)) &&
      // the top node, spelled out
      head.next == (if length == 0 then null else nodes[1])
    }

    ghost function Elements(): seq<T>
      reads this
    {
      elements
    }

    /** An empty stack: a sentinel alone. */
    constructor ()
      ensures Valid() && fresh(Repr) && Elements() == []
    {
      var d: T := *;
      var h := new Node(d, null);
      head, length := h, 0;
      nodes, elements := [h], [];
      new;
      Repr := {this, h};
    }

    /** The initialiser-list constructor pushes the items in order, so the
        last one is on top. */
    constructor FromSeq(items: seq<T>)
      ensures Valid() && fresh(Repr) && Elements() == items
    {
      var d: T := *;
      var h := new Node(d, null);
      head, length := h, 0;
      nodes, elements := [h], [];
      new;
      Repr := {this, h};
      for i := 0 to |items|
        invariant Valid() && fresh(Repr) && elements == items[..i]
      {
        Push(items[i]);
        assert items[..i + 1] == items[..i] + [items[i]];
      }
      assert items[..|items|] == items;
    }

    /** The copy constructor: a new sentinel, then copy_from. */
    constructor Copy(other: LinkedStack<T>)
      requires other.Valid()
      ensures Valid() && fresh(Repr) && Elements() == other.Elements()
    {
      var d: T := *;
      var h := new Node(d, null);
      head, length := h, 0;
      nodes, elements := [h], [];
      new;
      Repr := {this, h};
      CopyFrom(other);
    }

    /** The move constructor takes the chain; `other` is left empty behind
        a new sentinel. */
    constructor Move(other: LinkedStack<T>)
      requires other.Valid()
      modifies other
      ensures Valid() && other.Valid()
      ensures Elements() == old(other.Elements()) && other.Elements() == []
      ensures Repr == old(other.Repr) - {other} + {this} && fresh(other.Repr - {other})
    {
      head, length := other.head, other.length;
      nodes, elements := other.nodes, other.elements;
      new;
      Repr := other.Repr - {other} + {this};
      var d: T := *;
      var h := new Node(d, null);
      other.Reset(h);
      assert forall i :: 0 <= i < |nodes| ==> nodes[i] in Repr;
    }

    /** copy_from: rebuild the chain behind this sentinel as a node-by-node
        copy of the other's, in the same order. */
    method CopyFrom(other: LinkedStack<T>)
      requires other.Valid() && this in Repr && head in Repr && Repr !! other.Repr
      modifies this, head
      ensures Valid() && fresh(Repr - old(Repr)) && Repr !! other.Repr
      ensures Elements() == other.Elements() && head == old(head)
    {
      var ns, added := CloneChain(other.head, other.nodes, StackSpec.Reversed(other.elements), head);
      length, nodes, elements := other.length, ns, other.elements;
      Repr := Repr + added;
    }

    /** Copy assignment; a self-assignment changes nothing. */
    method Assign(other: LinkedStack<T>)
      requires Valid() && other.Valid() && (this != other ==> Repr !! other.Repr)
      modifies this, head
      ensures Valid() && fresh(Repr - old(Repr))
      ensures Elements() == old(other.Elements())
    {
      if this == other {
        return;
      }
      CopyFrom(other);
    }

    /** Move assignment: the sentinels are swapped, this stack takes the
        other's chain and the other is emptied behind this stack's old
        sentinel. */
    method MoveAssign(other: LinkedStack<T>)
      requires Valid() && other.Valid() && (this != other ==> Repr !! other.Repr)
      modifies this, other, head
      ensures Valid() && other.Valid()
      ensures Elements() == old(other.Elements())
      ensures this != other ==> other.Elements() == [] && other.head == old(head)
    {
      if this == other {
        return;
      }
      var h := head;
      head, length := other.head, other.length;
      nodes, elements, Repr := other.nodes, other.elements, other.Repr - {other} + {this};
      assert forall i :: 0 <= i < |nodes| ==> nodes[i] in Repr;
      other.Reset(h);
    }

    /** Empty this stack behind the sentinel `h`. */
    method Reset(h: Node<T>)
      modifies this, h
      ensures Valid() && Elements() == [] && Repr == {this, h} && head == h
    {
      h.next := null;
      head, length := h, 0;
      nodes, elements, Repr := [h], [], {this, h};
    }

    /** clear: the sentinel's successor becomes null and the length 0. */
    method Clear()
      requires Valid()
      modifies this, head
      ensures Valid() && Elements() == [] && Repr == old(Repr) && head == old(head) && head.next == null
    {
      head.next := null;
      length := 0;
      nodes, elements := [head], [];
    }

    /** push: a new node right after the sentinel. */
    method Push(x: T)
      requires Valid()
      modifies this, head
      ensures Valid() && fresh(Repr - old(Repr)) && head == old(head)
      ensures Elements() == old(Elements()) + [x]
    {
      var n := new Node(x, head.next);
      ghost var ns, es := [head, n] + nodes[1..], elements + [x];
      forall i | 2 <= i < |ns| ensures ns[i] == nodes[i - 1] && ns[i] != head {
        assert nodes[i - 1] != head;
      }
      head.next := n;
      length := length + 1;
      nodes, elements, Repr := ns, es, Repr + {n};
      ghost var t := StackSpec.Reversed(old(elements));
      assert es[..|es| - 1] == old(elements);
      assert StackSpec.Reversed(es) == [x] + t;
      assert Chain(ns, [x] + t) by {
        forall i | 0 <= i < |t| + 1 ensures ns[i].next == ns[i + 1] && ns[i + 1].item == ([x] + t)[i] {
          if i > 1 {
            assert ns[i].next == old(nodes[i - 1].next);
          }
        }
      }
    }

    /** pop: the node after the sentinel is unlinked and its item
        returned; an empty stack fails. */
    method Pop() returns (r: Result<T>)
      requires Valid()
      modifies this, head
      ensures Valid() && Repr == old(Repr) && head == old(head)
      ensures StackSpec.Pop(old(Elements())).Err? ==> r == Err(EmptyContainer) && Elements() == old(Elements())
      ensures StackSpec.Pop(old(Elements())).Ok? ==>
        r == Ok(StackSpec.Pop(old(Elements())).value.0) && Elements() == StackSpec.Pop(old(Elements())).value.1
    {
      if length == 0 {
        return Err(EmptyContainer);
      }
      var top := head.next;
      var v := top.item;
      ghost var ns, es := [head] + nodes[2..], elements[..|elements| - 1];
      assert top.next == if length == 1 then null else nodes[2];
      forall i | 1 <= i < |ns| ensures ns[i] == nodes[i + 1] && ns[i] != head {
        assert nodes[i + 1] != head;
      }
      head.next := top.next;
      length := length - 1;
      nodes, elements := ns, es;
      ghost var t := StackSpec.Reversed(old(elements));
      assert t == [v] + StackSpec.Reversed(es);
      assert Chain(ns, t[1..]) by {
        forall i | 0 <= i < |t| - 1 ensures ns[i].next == ns[i + 1] && ns[i + 1].item == t[1..][i] {
          if i > 0 {
            assert ns[i].next == old(nodes[i + 1].next);
          }
        }
      }
      assert t[1..] == StackSpec.Reversed(es);
      r := Ok(v);
    }

    function Length(): (n: nat)
      requires Valid()
      reads this, Repr
      ensures n == |Elements()|
    {
      length
    }

    /** topValue: the item right after the sentinel. */
    function TopValue(): (r: Result<T>)
      requires Valid()
      reads this, Repr
      ensures r == StackSpec.Top(Elements())
    {
      if length == 0 then Err(EmptyContainer)
      else
        assert StackSpec.Reversed(elements)[0] == elements[|elements| - 1];
        Ok(head.next.item)
    }

    /** setDirection has no effect on a linked stack. */
    method SetDirection(d: int)
      requires Valid()
      ensures Valid() && Elements() == old(Elements())
    {
    }
  }

  /** The loop of copy_from: behind the sentinel `h`, one new node per node
      of the source chain `ons`, in the same order. */
  method CloneChain<T>(src: Node<T>, ghost ons: seq<Node<T>>, ghost t: seq<T>, h: Node<T>)
      returns (ghost ns: seq<Node<T>>, ghost added: set<object>)
    requires Chain(ons, t) && src == ons[0] && h !in ons
    modifies h
    ensures Chain(ns, t) && ns[0] == h && fresh(added)
    ensures forall k :: 1 <= k < |ns| ==> ns[k] in added
  {
    h.next := null;
    ns, added := [h], {};
    var oldNode := src;
    var newNode := h;
    var i := 0;
    while oldNode.next != null
      invariant Chain(ons, t) && h !in ons
      invariant 0 <= i <= |t| && |ns| == i + 1 && ns[0] == h
      invariant oldNode == ons[i] && newNode == ns[i] && newNode.next == null
      invariant oldNode.next == if i < |t| then ons[i + 1] else null
      invariant fresh(added) && forall k :: 1 <= k < |ns| ==> ns[k] in added
      invariant forall k :: 0 <= k < i ==> ns[k] != newNode
      invariant forall k :: 0 <= k < i ==> ns[k].next == ns[k + 1] && ns[k + 1].item == t[k]
      decreases |t| - i
    {
      oldNode := oldNode.next;
      assert oldNode.item == t[i];
      var n := new Node(oldNode.item, null);
      newNode.next := n;
      forall k | 0 <= k < i ensures ns[k].next == ns[k + 1] && ns[k + 1].item == t[k] {
        assert ns[k] != newNode;
      }
      newNode := n;
      ns, added := ns + [n], added + {n};
      i := i + 1;
    }
  }

  /** operator<< of assignment-2/linkedstack.h: the stack is drained into a
      temporary linked stack, then the temporary is popped, each element
      written and pushed back, so the stack ends as it began and the text
      shows it bottom first. */
  method Write<T(0)>(os: string, stack: LinkedStack<T>, show: T -> string) returns (out: string)
    requires stack.Valid()
    modifies stack, stack.head
    ensures stack.Valid() && stack.Elements() == old(stack.Elements()) && stack.head == old(stack.head)
    ensures out == os + StackSpec.Render(old(stack.Elements()), show)
  {
    ghost var orig := stack.Elements();
    var temp := new LinkedStack();
    DrainAll(stack, temp, orig);
    out := RefillAll(os + "<", stack, temp, orig, show, ", ");
    StackSpec.PrintingRendered(os, orig, show);
    out := out + ">";
  }

  /** The draining loop: every element of `s` moves onto `t`. */
  method DrainAll<T(0)>(s: LinkedStack<T>, t: LinkedStack<T>, ghost orig: seq<T>)
    requires s.Valid() && t.Valid() && s.Repr !! t.Repr
    requires orig == s.Elements() + StackSpec.Reversed(t.Elements())
    modifies s, s.head, t, t.head
    ensures s.Valid() && t.Valid() && s.Repr !! t.Repr && s.Elements() == []
    ensures s.head == old(s.head) && s.Repr == old(s.Repr)
    ensures t.head == old(t.head) && fresh(t.Repr - old(t.Repr))
    ensures orig == s.Elements() + StackSpec.Reversed(t.Elements())
  {
    while s.Length() > 0
      invariant s.Valid() && t.Valid() && s.Repr !! t.Repr
      invariant s.head == old(s.head) && s.Repr == old(s.Repr)
      invariant t.head == old(t.head) && fresh(t.Repr - old(t.Repr))
      invariant orig == s.Elements() + StackSpec.Reversed(t.Elements())
      decreases s.length
    {
      DrainStep(s, t, orig);
    }
  }

  /** The refilling loop: every element of `t` is written behind `pre`,
      separated by `sep`, and pushed back onto `s`. */
  method RefillAll<T(0)>(pre: string, s: LinkedStack<T>, t: LinkedStack<T>, ghost orig: seq<T>, show: T -> string, sep: string)
      returns (out: string)
    requires s.Valid() && t.Valid() && s.Repr !! t.Repr && s.Elements() == []
    requires orig == s.Elements() + StackSpec.Reversed(t.Elements())
    modifies s, s.head, t, t.head
    ensures s.Valid() && s.Elements() == orig && s.head == old(s.head)
    ensures out == StackSpec.Printing(pre, orig, |orig|, show, sep)
  {
    out := pre;
    while t.Length() > 0
      invariant s.Valid() && t.Valid() && s.Repr !! t.Repr
      invariant s.head == old(s.head) && t.head == old(t.head)
      invariant orig == s.Elements() + StackSpec.Reversed(t.Elements())
      invariant out == StackSpec.Printing(pre, orig, |s.Elements()|, show, sep)
      decreases t.length
    {
      out := RefillStep(pre, s, t, orig, out, show, sep);
    }
    assert s.Elements() == orig;
  }

  /** One element moves: the top of `src` is popped and pushed onto `dst`,
      as both loops of operator<< do. */
  method Transfer<T(0)>(src: LinkedStack<T>, dst: LinkedStack<T>) returns (x: T)
    requires src.Valid() && dst.Valid() && src.Repr !! dst.Repr && src.length > 0
    modifies src, src.head, dst, dst.head
    ensures src.Valid() && dst.Valid() && src.Repr !! dst.Repr
    ensures src.head == old(src.head) && src.Repr == old(src.Repr)
    ensures dst.head == old(dst.head) && fresh(dst.Repr - old(dst.Repr))
    ensures old(src.Elements()) == src.Elements() + [x]
    ensures dst.Elements() == old(dst.Elements()) + [x]
  {
    var v := src.Pop();
    x := v.value;
    dst.Push(x);
  }

  /** One round of the draining loop: the top of `s` moves onto `t`. */
  method DrainStep<T(0)>(s: LinkedStack<T>, t: LinkedStack<T>, ghost orig: seq<T>)
    requires s.Valid() && t.Valid() && s.Repr !! t.Repr && s.length > 0
    requires orig == s.Elements() + StackSpec.Reversed(t.Elements())
    modifies s, s.head, t, t.head
    ensures s.Valid() && t.Valid() && s.Repr !! t.Repr && s.length == old(s.length) - 1
    ensures s.head == old(s.head) && s.Repr == old(s.Repr)
    ensures t.head == old(t.head) && fresh(t.Repr - old(t.Repr))
    ensures orig == s.Elements() + StackSpec.Reversed(t.Elements())
  {
    var x := Transfer(s, t);
    StackSpec.MovedTop(s.Elements(), old(t.Elements()), x);
  }

  /** One round of the refilling loop: the top of `t` is written, followed
      by a separator unless it was the last, and pushed back onto `s`. */
  method RefillStep<T(0)>(pre: string, s: LinkedStack<T>, t: LinkedStack<T>, ghost orig: seq<T>, out: string, show: T -> string, sep: string)
      returns (out': string)
    requires s.Valid() && t.Valid() && s.Repr !! t.Repr && t.length > 0
    requires orig == s.Elements() + StackSpec.Reversed(t.Elements())
    requires out == StackSpec.Printing(pre, orig, |s.Elements()|, show, sep)
    modifies s, s.head, t, t.head
    ensures s.Valid() && t.Valid() && s.Repr !! t.Repr && t.length == old(t.length) - 1
    ensures s.head == old(s.head) && t.head == old(t.head)
    ensures orig == s.Elements() + StackSpec.Reversed(t.Elements())
    ensures out' == StackSpec.Printing(pre, orig, |s.Elements()|, show, sep)
  {
    ghost var below := s.Elements();
    var x := Transfer(t, s);
    out' := out + show(x) + (if t.Length() > 0 then sep else "");
    StackSpec.RefillPrinted(pre, orig, below, t.Elements(), x, show, sep);
  }
}

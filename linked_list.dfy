/** The singly linked cursor list of assignment-1/linkedlist.h.  A sentinel
    node heads the chain; `curr` is the node BEFORE the selected element and
    `tail` the second-to-last node (the sentinel while the list has at most
    one element), so insert, remove and next are O(1) and prev rescans. */
module LinkedLists {
  import opened Outcomes
  import opened ListSpec

  class Node<T> {
    var item: T
    var next: Node?<T>

    constructor (item: T, next: Node?<T>)
      ensures this.item == item && this.next == next
    {
      this.item := item;
      this.next := next;
    }
  }

  /** Index in the chain of the second-to-last node; the sentinel (0) when
      the list has at most one element. */
  function TailIndex(length: nat): nat
  {
    if length == 0 then 0 else length - 1
  }

  /** ns is a null-terminated chain whose nodes after the first hold xs. */
  ghost predicate Chain<T>(ns: seq<Node<T>>, xs: seq<T>)
    reads ns
  {
    |ns| == |xs| + 1 &&
    (forall i :: 0 <= i < |xs| ==> ns[i].next == ns[i + 1] && ns[i + 1].item == xs[i]) &&
    ns[|xs|].next == null
  }

  /** A chain ends in null, so it cannot meet itself. */
  lemma ChainDistinct<T>(ns: seq<Node<T>>, xs: seq<T>, a: nat, b: nat)
    requires Chain(ns, xs) && a < b < |ns|
    ensures ns[a] != ns[b]
  {
    if ns[a] == ns[b] {
      var k := 0;
      while b + k < |xs|
        invariant b + k <= |xs| && ns[a + k] == ns[b + k]
        invariant ns[a + k].next == ns[a + k + 1]
        decreases |xs| - k
      {
        k := k + 1;
      }
      assert false;
    }
  }

  lemma OnlyAt<T>(ns: seq<Node<T>>, xs: seq<T>, k: nat)
    requires Chain(ns, xs) && k < |ns|
    ensures forall i :: 0 <= i < |ns| && i != k ==> ns[i] != ns[k]
  {
    forall i | 0 <= i < |ns| && i != k ensures ns[i] != ns[k] {
      if i < k { ChainDistinct(ns, xs, i, k); } else { ChainDistinct(ns, xs, k, i); }
    }
  }
  /** ChainDistinct and OnlyAt for a chain as it was in the earlier state. */
  twostate lemma OldChainDistinct<T(!new)>(ns: seq<Node<T>>, new xs: seq<T>, new a: nat, new b: nat)
    requires old(Chain(ns, xs)) && a < b < |ns|
    ensures ns[a] != ns[b]
  {
    if ns[a] == ns[b] {
      var k := 0;
      while b + k < |xs|
        invariant b + k <= |xs| && ns[a + k] == ns[b + k]
        invariant old(ns[a + k].next) == ns[a + k + 1]
        decreases |xs| - k
      {
        k := k + 1;
      }
      assert false;
    }
  }

  twostate lemma OldOnlyAt<T(!new)>(ns: seq<Node<T>>, new xs: seq<T>, new k: nat)
    requires old(Chain(ns, xs)) && k < |ns|
    ensures forall i :: 0 <= i < |ns| && i != k ==> ns[i] != ns[k]
  {
    var i := 0;
    while i < |ns|
      invariant i <= |ns|
      invariant forall j :: 0 <= j < i && j != k ==> ns[j] != ns[k]
    {
      if i != k {
        OldChainDistinct(ns, xs, if i < k then i else k, if i < k then k else i);
      }
      i := i + 1;
    }
  }

  /** s with v placed at index k. */
  ghost function Inserted<U>(s: seq<U>, k: nat, v: U): (r: seq<U>)
    requires k <= |s|
    ensures |r| == |s| + 1
    ensures forall i :: 0 <= i < |r| ==> r[i] == if i < k then s[i] else if i == k then v else s[i - 1]
  {
    seq(|s| + 1, i requires 0 <= i <= |s| => if i < k then s[i] else if i == k then v else s[i - 1])
  }

  /** s without its element at index k. */
  ghost function Removed<U>(s: seq<U>, k: nat): (r: seq<U>)
    requires k < |s|
    ensures |r| == |s| - 1
    ensures forall i :: 0 <= i < |r| ==> r[i] == if i < k then s[i] else s[i + 1]
  {
    seq(|s| - 1, i requires 0 <= i < |s| - 1 => if i < k then s[i] else s[i + 1])
  }

  lemma InsertedIsSplice<U>(s: seq<U>, k: nat, v: U)
    requires k <= |s|
    ensures Inserted(s, k, v) == s[..k] + [v] + s[k..]
  {
    assert Inserted(s, k, v) == s[..k] + [v] + s[k..];
  }

  lemma RemovedIsSplice<U>(s: seq<U>, k: nat)
    requires k < |s|
    ensures Removed(s, k) == s[..k] + s[k + 1..]
  {
    assert Removed(s, k) == s[..k] + s[k + 1..];
  }

  /** Splicing a fresh node in after ns[p] extends the chain by one item. */
  twostate lemma InsertChain<T(!new)>(ns: seq<Node<T>>, new xs: seq<T>, new p: nat, new n: Node<T>, new x: T)
    requires old(Chain(ns, xs)) && p < |ns| && !old(allocated(n))
    requires forall k :: 0 <= k < |ns| && k != p ==> ns[k].next == old(ns[k].next)
    requires forall k :: 0 <= k < |ns| ==> ns[k].item == old(ns[k].item)
    requires ns[p].next == n && n.item == x && n.next == old(ns[p].next)
    ensures Chain(Inserted(ns, p + 1, n), Inserted(xs, p, x))
  {
  }

  /** Linking a fresh node after the last one extends the chain at its end;
      the last node is the only one whose successor is null, so no other
      node's link can have been touched. */
  twostate lemma AppendChain<T(!new)>(ns: seq<Node<T>>, new xs: seq<T>, new n: Node<T>, new x: T)
    requires old(Chain(ns, xs)) && !old(allocated(n))
    requires forall k :: 0 <= k < |ns| && ns[k] != ns[|xs|] ==> ns[k].next == old(ns[k].next)
    requires forall k :: 0 <= k < |ns| ==> ns[k].item == old(ns[k].item)
    requires ns[|xs|].next == n && n.item == x && n.next == null
    ensures Chain(ns + [n], xs + [x])
  {
    forall k | 0 <= k < |xs| ensures ns[k] != ns[|xs|] {
      assert old(ns[k].next) == ns[k + 1];
    }
  }

  /** Bypassing ns[p + 1] drops its item from the chain. */
  twostate lemma RemoveChain<T(!new)>(ns: seq<Node<T>>, new xs: seq<T>, new p: nat)
    requires old(Chain(ns, xs)) && p < |xs|
    requires forall k :: 0 <= k < |ns| && k != p ==> ns[k].next == old(ns[k].next)
    requires forall k :: 0 <= k < |ns| ==> ns[k].item == old(ns[k].item)
    requires ns[p].next == old(ns[p + 1].next)
    ensures Chain(Removed(ns, p + 1), Removed(xs, p))
  {
  }

  class LinkedList<T(0, ==, !new)> {
    var head: Node<T>
    var tail: Node<T>
    var curr: Node<T>
    var length: nat
    var pos: nat

    /** The chain: nodes[0] is the sentinel, nodes[i + 1] holds items[i]. */
    ghost var nodes: seq<Node<T>>
    ghost var items: seq<T>
    ghost var Repr: set<object>

    /** The source's CHECK_STATE, together with the shape of the chain. */
    ghost predicate Valid()
      reads this, Repr
    {
      this in Repr &&
      |nodes| == length + 1 && nodes[0] == head &&
      (forall i :: 0 <= i < |nodes| ==> nodes[i] in Repr) &&
      Chain(nodes, items) &&
      LinkedWellFormed(Cursor(items, pos)) &&
      curr == nodes[pos] &&
      tail == nodes[TailIndex(length)] &&
      // the successors of the three entry points, spelled out
      head.next == (if length == 0 then null else nodes[1]) &&
      curr.next == (if length == 0 then null else nodes[pos + 1]) &&
      tail.next == (if length == 0 then null else nodes[length])
    }

    ghost function State(): Cursor<T>
      reads this
    {
      Cursor(items, pos)
    }

    /** Create an empty list. */
    constructor ()
      ensures Valid() && fresh(Repr)
      ensures State() == Cursor([], 0)
    {
      var d: T := *;
      var h := new Node(d, null);
      head, tail, curr := h, h, h;
      length, pos := 0, 0;
      nodes, items := [h], [];
      new;
      Repr := {this, h};
    }

    /** Create a list from an initialiser list, appending item by item. */
    constructor FromSeq(xs: seq<T>)
      ensures Valid() && fresh(Repr)
      ensures State() == Cursor(xs, 0)
    {
      var d: T := *;
      var h := new Node(d, null);
      head, tail, curr := h, h, h;
      length, pos := 0, 0;
      nodes, items := [h], [];
      new;
      Repr := {this, h};
      var i := 0;
      while i < |xs|
        invariant 0 <= i <= |xs|
        invariant Valid() && fresh(Repr)
        invariant State() == Cursor(xs[..i], 0)
      {
        Append(xs[i]);
        assert xs[..i + 1] == xs[..i] + [xs[i]];
        i := i + 1;
      }
      assert xs[..i] == xs;
    }

    /** Copy construction: a fresh chain with the same items and cursor. */
    constructor Copy(other: LinkedList<T>)
      requires other.Valid()
      ensures Valid() && fresh(Repr)
      ensures State() == other.State()
    {
      var d: T := *;
      var h := new Node(d, null);
      head, tail, curr := h, h, h;
      length, pos := 0, 0;
      nodes, items := [h], [];
      new;
      Repr := {this, h};
      CopyFrom(other);
    }

    /** Move construction: this list takes over the other's chain, and the
        other is left empty around a new sentinel. */
    constructor Move(other: LinkedList<T>)
      requires other.Valid()
      modifies other
      ensures Valid() && other.Valid()
      ensures State() == old(other.State())
      ensures other.State() == Cursor([], 0)
      ensures fresh(other.Repr - old(other.Repr))
    {
      head, tail, curr := other.head, other.tail, other.curr;
      length, pos := other.length, other.pos;
      nodes, items := other.nodes, other.items;
      new;
      Repr := other.Repr - {other} + {this};
      var d: T := *;
      var h := new Node(d, null);
      other.Reset(h);
      assert forall k :: 0 <= k < |nodes| ==> nodes[k] in Repr;
      ValidFromChain(this);
    }

    /** copy_from: rebuild this chain as a node-by-node copy of the other's. */
    method CopyFrom(other: LinkedList<T>)
      requires other.Valid() && this != other
      requires this in Repr && head in Repr && Repr !! other.Repr
      modifies this, head
      ensures Valid() && fresh(Repr - old(Repr)) && Repr !! other.Repr
      ensures State() == other.State()
    {
      var c, t, ns, added := CloneChain(other.head, other.nodes, other.items, other.pos, head);
      curr, tail, length, pos := c, t, other.length, other.pos;
      nodes, items, Repr := ns, other.items, Repr + added;
      ValidFromChain(this);
    }

    /** Copy assignment; a self-assignment changes nothing. */
    method Assign(other: LinkedList<T>)
      requires Valid() && other.Valid()
      requires this != other ==> Repr !! other.Repr
      modifies Repr
      ensures Valid() && fresh(Repr - old(Repr))
      ensures State() == old(other.State())
    {
      if this == other {
        return;
      }
      CopyFrom(other);
    }

    /** Move assignment: the sentinels are swapped, this list takes the
        other's chain and the other is reset to empty around this list's old
        sentinel. */
    method MoveAssign(other: LinkedList<T>)
      requires Valid() && other.Valid()
      requires this != other ==> Repr !! other.Repr
      modifies this, other, head
      ensures Valid() && other.Valid()
      ensures State() == old(other.State())
      ensures this != other ==> other.State() == Cursor([], 0)
    {
      if this == other {
        return;
      }
      var h := head;
      TakeChain(other);
      other.Reset(h);
    }

    /** First half of a move: take over the other list's chain and cursor. */
    method TakeChain(other: LinkedList<T>)
      requires other.Valid() && this != other
      modifies this
      ensures Valid() && State() == other.State() && Repr == other.Repr - {other} + {this}
    {
      head, tail, curr := other.head, other.tail, other.curr;
      length, pos := other.length, other.pos;
      nodes, items, Repr := other.nodes, other.items, other.Repr - {other} + {this};
      assert forall k :: 0 <= k < |nodes| ==> nodes[k] in Repr;
      ValidFromChain(this);
    }

    /** Second half of a move: empty this list around the sentinel `h`. */
    method Reset(h: Node<T>)
      modifies this, h
      ensures Valid() && State() == Cursor([], 0) && Repr == {this, h}
    {
      h.next := null;
      head, tail, curr := h, h, h;
      length, pos := 0, 0;
      nodes, items, Repr := [h], [], {this, h};
    }

    method Clear()
      requires Valid()
      modifies this, head
      ensures Valid() && Repr == old(Repr)
      ensures State() == ListSpec.Clear(old(State()))
    {
      head.next := null;
      curr, tail := head, head;
      pos, length := 0, 0;
      nodes, items := [head], [];
    }

    /** The new node goes after `curr`, so it becomes the selected element. */
    method Insert(x: T)
      requires Valid()
      modifies Repr
      ensures Valid() && fresh(Repr - old(Repr))
      ensures State() == ListSpec.Insert(old(State()), x)
    {
      assert (tail == curr) == (length == 0 || pos + 1 == length) by {
        OnlyAt(nodes, items, pos);
      }
      var n := new Node(x, curr.next);
      curr.next := n;
      if tail == curr {
        if length > 0 {
          tail := n;
        }
      }
      length := length + 1;
      nodes, items, Repr := Inserted(nodes, pos + 1, n), Inserted(items, pos, x), Repr + {n};
      InsertValid(this, n, x);
      InsertedIsSplice(old(items), pos, x);
    }

    method Append(x: T)
      requires Valid()
      modifies Repr
      ensures Valid() && fresh(Repr - old(Repr))
      ensures State() == ListSpec.Append(old(State()), x)
    {
      assert tail.next == (if length == 0 then null else nodes[length]);
      var n := new Node(x, null);
      if tail.next != null {
        var last := tail.next;
        last.next := n;
        tail := last;
      } else {
        head.next := n;
      }
      length := length + 1;
      nodes, items, Repr := nodes + [n], items + [x], Repr + {n};
      AppendValid(this, n, x);
    }

    /** Unlink the selected element; when it was the last one, the cursor
        steps back and the predecessor is found by a rescan from the head. */
    method Remove() returns (r: Result<T>)
      requires Valid()
      modifies Repr
      ensures Valid() && Repr == old(Repr)
      ensures LinkedRemove(old(State())).Err? ==> r == Err(LinkedRemove(old(State())).failure) && State() == old(State())
      ensures LinkedRemove(old(State())).Ok? ==>
                r == Ok(LinkedRemove(old(State())).value.0) && State() == LinkedRemove(old(State())).value.1
    {
      if head.next == null {
        return Err(EmptyContainer);
      }
      assert curr.next == nodes[pos + 1];
      assert (curr == tail) == (pos + 1 == length) && (curr.next == tail) == (pos + 2 == length) by {
        OnlyAt(nodes, items, pos);
        OnlyAt(nodes, items, length - 1);
      }
      // the rescan for a removed last element finds the same node before
      // and after the unlinking; it is done first here
      var before := head;
      if length > 1 && curr == tail {
        ghost var k := 0;
        while before.next != curr
          invariant 0 <= k < pos && before == nodes[k]
          decreases pos - k
        {
          assert before.next == nodes[k + 1];
          assert k + 1 < pos by {
            OnlyAt(nodes, items, pos);
          }
          before := before.next;
          k := k + 1;
        }
        assert k == pos - 1 by {
          assert before.next == nodes[k + 1];
          OnlyAt(nodes, items, pos);
        }
      }
      var del := curr.next;
      var v := del.item;
      curr.next := del.next;
      if length > 1 {
        if curr == tail {
          tail, curr := before, before;
          pos := pos - 1;
        } else if del == tail {
          tail := curr;
        }
      }
      length := length - 1;
      nodes, items := Removed(nodes, old(pos) + 1), Removed(items, old(pos));
      RemoveValid(this);
      RemovedIsSplice(old(items), old(pos));
      r := Ok(v);
    }

    method MoveToStart()
      requires Valid()
      modifies this
      ensures Valid() && Repr == old(Repr)
      ensures State() == ListSpec.MoveToStart(old(State()))
    {
      curr := head;
      pos := 0;
    }

    method MoveToEnd()
      requires Valid()
      modifies this
      ensures Valid() && Repr == old(Repr)
      ensures State() == LinkedMoveToEnd(old(State()))
    {
      if length > 0 {
        curr := tail;
        pos := length - 1;
      }
    }

    /** Step back by rescanning the chain for the predecessor of `curr`. */
    method Prev()
      requires Valid()
      modifies this
      ensures Valid() && Repr == old(Repr)
      ensures State() == LinkedPrev(old(State()))
    {
      if curr == head {
        OnlyAt(nodes, items, 0);
        return;
      }
      OnlyAt(nodes, items, pos);
      var p := Predecessor(head, curr, nodes, items, pos);
      curr := p;
      pos := pos - 1;
    }

    method Next()
      requires Valid()
      modifies this
      ensures Valid() && Repr == old(Repr)
      ensures State() == LinkedNext(old(State()))
      ensures items == old(items) && pos == if old(pos) + 1 < |items| then old(pos) + 1 else old(pos)
    {
      OnlyAt(nodes, items, pos);
      if curr == tail {
        return;
      }
      curr := curr.next;
      pos := pos + 1;
    }

    function Length(): (n: nat)
      requires Valid()
      reads this, Repr
      ensures n == |State().items|
    {
      length
    }

    function CurrPos(): (p: nat)
      requires Valid()
      reads this, Repr
      ensures p == State().pos
      ensures p == 0 || p < |State().items|
    {
      pos
    }

    /** Walk from the sentinel to the requested position. */
    method MoveToPos(p: nat) returns (r: Result<()>)
      requires Valid()
      modifies this
      ensures Valid() && Repr == old(Repr)
      ensures LinkedMoveToPos(old(State()), p).Err? ==> r == Err(OutOfRange) && State() == old(State())
      ensures LinkedMoveToPos(old(State()), p).Ok? ==> r == Ok(()) && State() == LinkedMoveToPos(old(State()), p).value
    {
      if p >= length {
        return Err(OutOfRange);
      }
      var i, c := 0, head;
      while i < p
        invariant i <= p && c == nodes[i]
      {
        assert c.next == nodes[i + 1];
        i, c := i + 1, c.next;
      }
      pos, curr := i, c;
      r := Ok(());
    }

    function GetValue(): (r: Result<T>)
      requires Valid()
      reads this, Repr
      ensures r == LinkedGetValue(State())
    {
      if head.next == null then Err(EmptyContainer) else Ok(curr.next.item)
    }

    /** Index of the first node holding x, or NPOS. */
    method Search(x: T) returns (r: nat)
      requires Valid() && length < NPOS
      ensures r == ListSpec.Search(items, x)
      ensures r == NPOS <==> x !in items
      ensures r != NPOS ==> r < |items| && items[r] == x && x !in items[..r]
    {
      var p := head;
      var i := 0;
      while i < length
        invariant 0 <= i <= length && p == nodes[i]
        invariant x !in items[..i]
      {
        assert p.next == nodes[i + 1];
        p := p.next;
        if p.item == x {
          SearchIsFirstMatch(items, x, i);
          return i;
        }
        assert items[..i + 1] == items[..i] + [items[i]];
        i := i + 1;
      }
      assert items[..i] == items;
      r := NPOS;
    }
  }

  // -----------------------------------------------------------------------
  // The invariant after each pointer update, argued between the state before
  // the update and the state after it.

  /** The scan prev and remove share: walk from `start` until the node
      whose successor is `target`, the j-th node of a chain prefix. */
  method Predecessor<T>(start: Node<T>, target: Node<T>, ghost ns: seq<Node<T>>, ghost xs: seq<T>, ghost j: nat)
      returns (p: Node<T>)
    requires Chain(ns, xs) && 0 < j <= |xs| && start == ns[0] && target == ns[j]
    ensures p == ns[j - 1]
  {
    OnlyAt(ns, xs, j);
    p := start;
    ghost var k := 0;
    while p.next != target
      invariant 0 <= k < j && p == ns[k]
      decreases j - k
    {
      assert p.next == ns[k + 1];
      p := p.next;
      k := k + 1;
    }
    assert p.next == ns[k + 1];
  }


  /** The loop of copy_from: behind the sentinel `h`, create one node per
      node of the source chain `ons`, remembering the counterparts of the
      node before the selected item (`p`) and of the node before the last. */
  method CloneChain<T(!new)>(src: Node<T>, ghost ons: seq<Node<T>>, ghost oxs: seq<T>, p: nat, h: Node<T>)
      returns (c: Node<T>, t: Node<T>, ghost ns: seq<Node<T>>, ghost added: set<object>)
    requires Chain(ons, oxs) && src == ons[0] && h !in ons
    requires LinkedWellFormed(Cursor(oxs, p))
    modifies h
    ensures Chain(ns, oxs) && ns[0] == h && fresh(added)
    ensures forall k :: 0 < k < |ns| ==> ns[k] in added
    ensures c == ns[p] && t == ns[TailIndex(|oxs|)]
  {
    h.next := null;
    c, t := h, h;
    ns, added := [h], {};
    ghost var xs: seq<T> := [];
    var oldNode := src;
    var newNode := h;
    var i := 0;
    while oldNode.next != null
      invariant Chain(ons, oxs) && h !in ons
      invariant 0 <= i <= |oxs| && |ns| == i + 1 && xs == oxs[..i]
      invariant oldNode == ons[i] && newNode == ns[i]
      invariant oldNode.next == if i < |oxs| then ons[i + 1] else null
      invariant newNode == h || newNode in added
      invariant ns[0] == h && fresh(added)
      invariant forall k :: 0 < k < |ns| ==> ns[k] in added
      invariant Chain(ns, xs)
      invariant c == (if p < i then ns[p] else h)
      invariant t == (if TailIndex(|oxs|) < i then ns[TailIndex(|oxs|)] else h)
      decreases |oxs| - i
    {
      if i == p {
        c := newNode;
      }
      assert oldNode.next == ons[i + 1];
      assert i + 1 < |oxs| ==> ons[i + 1].next == ons[i + 2];
      if oldNode.next.next == null {
        t := newNode;
      }
      oldNode := oldNode.next;
      label Before:
      var n := new Node(oldNode.item, null);
      newNode.next := n;
      AppendChain@Before(ns, xs, n, oldNode.item);
      newNode := n;
      assert oxs[..i + 1] == xs + [oldNode.item];
      ns, xs := ns + [n], xs + [oldNode.item];
      added := added + {n};
      i := i + 1;
    }
    assert xs == oxs;
  }

  /** The successors of the entry points follow from the chain itself. */
  lemma ValidFromChain<T(0, !new)>(l: LinkedList<T>)
    requires l in l.Repr && |l.nodes| == l.length + 1 && l.nodes[0] == l.head
    requires forall i :: 0 <= i < |l.nodes| ==> l.nodes[i] in l.Repr
    requires Chain(l.nodes, l.items) && LinkedWellFormed(l.State())
    requires l.curr == l.nodes[l.pos] && l.tail == l.nodes[TailIndex(l.length)]
    ensures l.Valid()
  {
    if l.length > 0 {
      assert l.head.next == l.nodes[1];
      assert l.curr.next == l.nodes[l.pos + 1];
      assert l.tail.next == l.nodes[l.length];
    }
  }



  twostate lemma InsertValid<T(0, !new)>(l: LinkedList<T>, new n: Node<T>, new x: T)
    requires old(l.Valid()) && !old(allocated(n))
    requires l.nodes == Inserted(old(l.nodes), old(l.pos) + 1, n)
    requires l.items == Inserted(old(l.items), old(l.pos), x)
    requires l.Repr == old(l.Repr) + {n}
    requires l.length == old(l.length) + 1 && l.pos == old(l.pos)
    requires l.head == old(l.head) && l.curr == old(l.curr)
    requires l.tail == if old(l.tail == l.curr && l.length > 0) then n else old(l.tail)
    requires unchanged(old(l.Repr) - {l, old(l.curr)}) && l.curr.item == old(l.curr.item)
    requires l.curr.next == n && n.item == x && n.next == old(l.curr.next)
    ensures l.Valid()
  {
    OldOnlyAt(old(l.nodes), old(l.items), old(l.pos));
    InsertChain(old(l.nodes), old(l.items), old(l.pos), n, x);
  }

  twostate lemma AppendValid<T(0, !new)>(l: LinkedList<T>, new n: Node<T>, new x: T)
    requires old(l.Valid()) && !old(allocated(n))
    requires l.nodes == old(l.nodes) + [n] && l.items == old(l.items) + [x]
    requires l.Repr == old(l.Repr) + {n}
    requires l.length == old(l.length) + 1 && l.pos == old(l.pos)
    requires l.head == old(l.head) && l.curr == old(l.curr)
    requires l.tail == if old(l.length) == 0 then old(l.tail) else old(l.nodes)[old(l.length)]
    requires unchanged(old(l.Repr) - {l, old(l.nodes)[old(l.length)]})
    requires old(l.nodes)[old(l.length)].item == old(l.nodes[l.length].item)
    requires old(l.nodes)[old(l.length)].next == n && n.item == x && n.next == null
    ensures l.Valid()
  {
    OldOnlyAt(old(l.nodes), old(l.items), old(l.length));
    InsertChain(old(l.nodes), old(l.items), old(l.length), n, x);
    assert Inserted(old(l.nodes), old(l.length) + 1, n) == l.nodes;
    assert Inserted(old(l.items), old(l.length), x) == l.items;
  }

  twostate lemma RemoveValid<T(0, !new)>(l: LinkedList<T>)
    requires old(l.Valid()) && old(l.length) > 0
    requires l.nodes == Removed(old(l.nodes), old(l.pos) + 1)
    requires l.items == Removed(old(l.items), old(l.pos))
    requires l.Repr == old(l.Repr) && l.head == old(l.head) && l.length == old(l.length) - 1
    requires unchanged(old(l.Repr) - {l, old(l.curr)}) && old(l.curr).item == old(l.curr.item)
    requires old(l.curr).next == old(l.curr.next.next)
    requires l.pos == if old(l.length) > 1 && old(l.pos) == old(l.length) - 1 then old(l.pos) - 1 else old(l.pos)
    requires l.curr == old(l.nodes)[l.pos]
    requires l.tail == old(l.nodes)[
               if old(l.length) > 1 && old(l.pos) + 1 == old(l.length) then old(l.pos) - 1
               else if old(l.length) > 1 && old(l.pos) + 2 == old(l.length) then old(l.pos)
               else TailIndex(old(l.length))]
    ensures l.Valid()
  {
    OldOnlyAt(old(l.nodes), old(l.items), old(l.pos));
    RemoveChain(old(l.nodes), old(l.items), old(l.pos));
    ValidFromChain(l);
  }

}

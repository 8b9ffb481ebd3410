/** The unbalanced binary search tree of assignment 4.  A node's key is at
    least every key of its left subtree and below every key of its right
    subtree, so equal keys gather on the left.  The C++ code relinks nodes
    through `Node*&` references; here a tree is a value and every operation
    returns the new tree. */
module BinarySearchTrees {
  import opened Outcomes
  import Text

  datatype Order = PreOrder | PostOrder | InOrder

  datatype Tree<V> = Nil | Node(left: Tree<V>, key: int, value: V, right: Tree<V>)

  /** What a successful remove hands back: the remaining tree and the key and
      value of the element taken out. */
  datatype Removal<V> = Removal(tree: Tree<V>, key: int, value: V)

  function Keys<V>(t: Tree<V>): multiset<int>
  {
    match t
    case Nil => multiset{}
    case Node(l, k, _, r) => Keys(l) + multiset{k} + Keys(r)
  }

  /** The search-tree invariant: left keys <= node key < right keys. */
  predicate Ordered<V>(t: Tree<V>)
  {
    match t
    case Nil => true
    case Node(l, k, _, r) =>
      Ordered(l) && Ordered(r) &&
      (forall x | x in Keys(l) :: x <= k) &&
      (forall x | x in Keys(r) :: k < x)
  }

  /** `s` is `t` or one of its subtrees. */
  ghost predicate Within<V>(s: Tree<V>, t: Tree<V>)
  {
    s == t || (t.Node? && (Within(s, t.left) || Within(s, t.right)))
  }

  lemma {:induction false} WithinChildren<V>(s: Tree<V>, t: Tree<V>)
    requires Within(s, t) && s.Node?
    ensures Within(s.left, t) && Within(s.right, t)
    decreases t
  {
    if s != t {
      if Within(s, t.left) {
        WithinChildren(s, t.left);
      } else {
        WithinChildren(s, t.right);
      }
    }
  }

  // ---------------------------------------------------------------------
  // insert_impl: equal keys go left

  function InsertAt<V>(t: Tree<V>, key: int, value: V): (r: Tree<V>)
    ensures r.Node?
    ensures Keys(r) == Keys(t) + multiset{key}
    decreases t
  {
    match t
    case Nil => Node(Nil, key, value, Nil)
    case Node(l, k, v, rt) =>
      if key <= k then Node(InsertAt(l, key, value), k, v, rt)
      else Node(l, k, v, InsertAt(rt, key, value))
  }

  /** Sending keys at most the node's key left keeps the search-tree invariant. */
  lemma {:induction false} InsertKeepsOrder<V>(t: Tree<V>, key: int, value: V)
    requires Ordered(t)
    ensures Ordered(InsertAt(t, key, value))
    decreases t
  {
    if t.Node? {
      if key <= t.key {
        InsertKeepsOrder(t.left, key, value);
        AddedBelow(Keys(t.left), key, t.key);
      } else {
        InsertKeepsOrder(t.right, key, value);
        AddedAbove(Keys(t.right), key, t.key);
      }
    }
  }

  lemma AddedBelow(m: multiset<int>, key: int, k: int)
    requires key <= k && forall y | y in m :: y <= k
    ensures forall y | y in m + multiset{key} :: y <= k
  {
  }

  lemma AddedAbove(m: multiset<int>, key: int, k: int)
    requires k < key && forall y | y in m :: k < y
    ensures forall y | y in m + multiset{key} :: k < y
  {
  }

  // ---------------------------------------------------------------------
  // find_min / find_max and their loops

  /** The node reached by following right links: the maximum of a search tree. */
  function Rightmost<V>(t: Tree<V>): (m: Tree<V>)
    requires t.Node?
    ensures m.Node? && m.right.Nil? && m.key in Keys(t)
    ensures Ordered(t) ==> forall x | x in Keys(t) :: x <= m.key
    decreases t
  {
    if t.right.Nil? then t else Rightmost(t.right)
  }

  /** The node reached by following left links: a minimum of a search tree. */
  function Leftmost<V>(t: Tree<V>): (m: Tree<V>)
    requires t.Node?
    ensures m.Node? && m.left.Nil? && m.key in Keys(t)
    ensures Ordered(t) ==> forall x | x in Keys(t) :: m.key <= x
    decreases t
  {
    if t.left.Nil? then t else Leftmost(t.left)
  }

  method FindMax<V>(rt: Tree<V>) returns (n: Tree<V>)
    ensures rt.Nil? ==> n.Nil?
    ensures rt.Node? ==> n == Rightmost(rt)
  {
    if rt.Nil? {
      return Nil;
    }
    n := rt;
    while n.right.Node?
      invariant n.Node? && Rightmost(n) == Rightmost(rt)
      decreases n
    {
      n := n.right;
    }
  }

  method FindMin<V>(rt: Tree<V>) returns (n: Tree<V>)
    ensures rt.Nil? ==> n.Nil?
    ensures rt.Node? ==> n == Leftmost(rt)
  {
    if rt.Nil? {
      return Nil;
    }
    n := rt;
    while n.left.Node?
      invariant n.Node? && Leftmost(n) == Leftmost(rt)
      decreases n
    {
      n := n.left;
    }
  }

  // ---------------------------------------------------------------------
  // find_node_impl

  /** The search loop: in a search tree it returns a subtree rooted at `key`
      exactly when `key` is stored somewhere, and `Nil` otherwise. */
  method FindNode<V>(root: Tree<V>, key: int) returns (n: Tree<V>)
    requires Ordered(root)
    ensures n.Node? <==> key in Keys(root)
    ensures n.Node? ==> n.key == key && Within(n, root)
  {
    if root.Nil? {
      return Nil;
    }
    n := root;
    while n.Node?
      invariant Ordered(n) && Within(n, root)
      invariant key in Keys(root) <==> key in Keys(n)
      decreases n
    {
      if key == n.key {
        return;
      } else if key < n.key {
        WithinChildren(n, root);
        n := n.left;
      } else {
        WithinChildren(n, root);
        n := n.right;
      }
    }
  }

  // ---------------------------------------------------------------------
  // remove_impl and remove

  /** Removes the first node holding `key` on the search path.  A node with
      two children takes over the key and value of the element removed, by
      the same procedure, at the maximum key of its left subtree. */
  function RemoveAt<V>(t: Tree<V>, key: int): (r: Result<Removal<V>>)
    ensures r.Err? ==> r.failure == MissingKey
    ensures r.Ok? ==> r.value.key == key
    decreases t
  {
    match t
    case Nil => Err(MissingKey)
    case Node(l, k, v, rt) =>
      if key < k then
        match RemoveAt(l, key)
        case Err(f) => Err(f)
        case Ok(d) => Ok(Removal(Node(d.tree, k, v, rt), d.key, d.value))
      else if key > k then
        match RemoveAt(rt, key)
        case Err(f) => Err(f)
        case Ok(d) => Ok(Removal(Node(l, k, v, d.tree), d.key, d.value))
      else if l.Node? && rt.Node? then
        match RemoveAt(l, Rightmost(l).key)
        case Err(f) => Err(f)
        case Ok(d) => Ok(Removal(Node(d.tree, d.key, d.value, rt), k, v))
      else if l.Node? then
        Ok(Removal(l, k, v))
      else
        Ok(Removal(rt, k, v))
  }

  /** A successful removal takes out one occurrence of the key. */
  lemma {:induction false} RemoveAtKeys<V>(t: Tree<V>, key: int)
    ensures RemoveAt(t, key).Ok? ==> Keys(RemoveAt(t, key).value.tree) + multiset{key} == Keys(t)
    decreases t
  {
    if t.Node? {
      if key < t.key {
        RemoveAtKeys(t.left, key);
      } else if key > t.key {
        RemoveAtKeys(t.right, key);
      } else if t.left.Node? && t.right.Node? {
        RemoveAtKeys(t.left, Rightmost(t.left).key);
      }
    }
  }

  /** In a search tree the search finds the key exactly when it is stored, and
      what remains is again a search tree. */
  predicate RemovesWell<V>(t: Tree<V>, key: int)
  {
    var r := RemoveAt(t, key);
    (r.Ok? <==> key in Keys(t)) && (r.Ok? ==> Ordered(r.value.tree))
  }

  lemma {:induction false} RemoveAtOrdered<V>(t: Tree<V>, key: int)
    requires Ordered(t)
    ensures RemovesWell(t, key)
    decreases t
  {
    if t.Node? {
      if key < t.key {
        RemoveAtOrdered(t.left, key);
        RemoveLeft(t, key);
      } else if key > t.key {
        RemoveAtOrdered(t.right, key);
        RemoveRight(t, key);
      } else if t.left.Node? && t.right.Node? {
        RemoveAtOrdered(t.left, Rightmost(t.left).key);
        RemoveRoot(t);
      } else {
        RemoveThinRoot(t);
      }
    }
  }

  lemma RemoveLeft<V>(t: Tree<V>, key: int)
    requires Ordered(t) && t.Node? && key < t.key && RemovesWell(t.left, key)
    ensures RemovesWell(t, key)
  {
    assert key !in Keys(t.right);
    RemoveAtKeys(t.left, key);
    var r := RemoveAt(t.left, key);
    if r.Ok? {
      SubtreeBound(r.value.tree, key, t.left, t.key);
    }
  }

  lemma RemoveRight<V>(t: Tree<V>, key: int)
    requires Ordered(t) && t.Node? && key > t.key && RemovesWell(t.right, key)
    ensures RemovesWell(t, key)
  {
    assert key !in Keys(t.left);
    RemoveAtKeys(t.right, key);
    var r := RemoveAt(t.right, key);
    if r.Ok? {
      SubtreeBoundBelow(r.value.tree, key, t.right, t.key);
    }
  }

  lemma RemoveRoot<V>(t: Tree<V>)
    requires Ordered(t) && t.Node? && t.left.Node? && t.right.Node?
    requires RemovesWell(t.left, Rightmost(t.left).key)
    ensures RemovesWell(t, t.key)
  {
    var m := Rightmost(t.left).key;
    RemoveAtKeys(t.left, m);
    var d := RemoveAt(t.left, m).value;
    SubtreeBound(d.tree, m, t.left, m);
    forall y | y in Keys(t.right)
      ensures m < y
    {
    }
  }

  lemma RemoveThinRoot<V>(t: Tree<V>)
    requires Ordered(t) && t.Node? && (t.left.Nil? || t.right.Nil?)
    ensures RemovesWell(t, t.key)
  {
  }

  /** Keys taken from a subtree bounded above stay bounded above. */
  lemma SubtreeBound<V>(s: Tree<V>, x: int, l: Tree<V>, k: int)
    requires Keys(s) + multiset{x} == Keys(l)
    requires forall y | y in Keys(l) :: y <= k
    ensures forall y | y in Keys(s) :: y <= k
  {
    forall y | y in Keys(s)
      ensures y <= k
    {
      assert y in Keys(l);
    }
  }

  /** Keys taken from a subtree bounded below stay bounded below. */
  lemma SubtreeBoundBelow<V>(s: Tree<V>, x: int, r: Tree<V>, k: int)
    requires Keys(s) + multiset{x} == Keys(r)
    requires forall y | y in Keys(r) :: k < y
    ensures forall y | y in Keys(s) :: k < y
  {
    forall y | y in Keys(s)
      ensures k < y
    {
      assert y in Keys(r);
    }
  }

  /** `remove`: an empty tree and a missing key are both errors. */
  function RemoveFrom<V>(t: Tree<V>, key: int): (r: Result<Removal<V>>)
    ensures t.Nil? ==> r == Err(EmptyContainer)
    ensures t.Node? && r.Err? ==> r.failure == MissingKey
  {
    if t.Nil? then Err(EmptyContainer) else RemoveAt(t, key)
  }

  /** The removed element is exactly one occurrence of the key, and the tree
      stays a search tree. */
  lemma RemoveTakesOneOccurrence<V>(t: Tree<V>, key: int)
    requires Ordered(t) && key in Keys(t)
    ensures RemoveFrom(t, key).Ok?
    ensures RemoveFrom(t, key).value.key == key
    ensures Keys(RemoveFrom(t, key).value.tree) == Keys(t) - multiset{key}
    ensures Ordered(RemoveFrom(t, key).value.tree)
  {
    RemoveAtOrdered(t, key);
    RemoveAtKeys(t, key);
    var d := RemoveFrom(t, key).value;
    assert Keys(d.tree) + multiset{key} == Keys(t);
  }

  /** A node with two children is replaced in place by the maximum of its
      left subtree, which leaves that subtree. */
  lemma TwoChildRemoval<V>(t: Tree<V>)
    requires Ordered(t) && t.Node? && t.left.Node? && t.right.Node?
    ensures RemoveAt(t, t.key).Ok?
    ensures var n := RemoveAt(t, t.key).value.tree;
      n.Node? && n.right == t.right &&
      n.key == Rightmost(t.left).key &&
      Keys(n.left) + multiset{n.key} == Keys(t.left) &&
      (forall x | x in Keys(n.left) :: x <= n.key)
  {
    var m := Rightmost(t.left).key;
    RemoveAtOrdered(t.left, m);
    RemoveAtKeys(t.left, m);
    var d := RemoveAt(t.left, m).value;
    SubtreeBound(d.tree, m, t.left, m);
  }

  /** Inserting then removing the same key leaves the same keys. */
  lemma InsertThenRemove<V>(t: Tree<V>, key: int, value: V)
    requires Ordered(t)
    ensures RemoveFrom(InsertAt(t, key, value), key).Ok?
    ensures Keys(RemoveFrom(InsertAt(t, key, value), key).value.tree) == Keys(t)
  {
    var u := InsertAt(t, key, value);
    InsertKeepsOrder(t, key, value);
    assert key in Keys(u) by {
      assert Keys(u) == Keys(t) + multiset{key};
    }
    RemoveTakesOneOccurrence(u, key);
    Cancel(Keys(t), key);
  }

  lemma Cancel(m: multiset<int>, key: int)
    ensures (m + multiset{key}) - multiset{key} == m
  {
  }

  // ---------------------------------------------------------------------
  // foreach_impl

  /** The entries in the order `foreach_impl` hands them to its callback. */
  function Traverse<V>(t: Tree<V>, order: Order): seq<(int, V)>
  {
    match t
    case Nil => []
    case Node(l, k, v, r) =>
      match order
      case PreOrder => [(k, v)] + Traverse(l, order) + Traverse(r, order)
      case PostOrder => Traverse(l, order) + Traverse(r, order) + [(k, v)]
      case InOrder => Traverse(l, order) + [(k, v)] + Traverse(r, order)
  }

  function KeysOf<V>(s: seq<(int, V)>): multiset<int>
  {
    if s == [] then multiset{} else KeysOf(s[..|s| - 1]) + multiset{s[|s| - 1].0}
  }

  lemma {:induction false} KeysOfAppend<V>(a: seq<(int, V)>, b: seq<(int, V)>)
    ensures KeysOf(a + b) == KeysOf(a) + KeysOf(b)
    decreases |b|
  {
    if b != [] {
      var n := |b| - 1;
      assert (a + b)[..|a + b| - 1] == a + b[..n];
      KeysOfAppend(a, b[..n]);
    } else {
      assert a + b == a;
    }
  }

  lemma {:induction false} KeysOfHas<V>(s: seq<(int, V)>, i: int)
    requires 0 <= i < |s|
    ensures s[i].0 in KeysOf(s)
    decreases |s|
  {
    if i < |s| - 1 {
      KeysOfHas(s[..|s| - 1], i);
    }
  }

  /** Every order visits every stored key exactly once. */
  lemma {:induction false} TraversalKeys<V>(t: Tree<V>, order: Order)
    ensures KeysOf(Traverse(t, order)) == Keys(t)
    decreases t
  {
    if t.Node? {
      TraversalKeys(t.left, order);
      TraversalKeys(t.right, order);
      var l, e, r := Traverse(t.left, order), [(t.key, t.value)], Traverse(t.right, order);
      assert KeysOf(e) == multiset{t.key} by {
        assert e[..0] == [];
      }
      match order
      case PreOrder => KeysOfAppend3(e, l, r);
      case PostOrder => KeysOfAppend3(l, r, e);
      case InOrder => KeysOfAppend3(l, e, r);
    }
  }

  lemma KeysOfAppend3<V>(a: seq<(int, V)>, b: seq<(int, V)>, c: seq<(int, V)>)
    ensures KeysOf(a + b + c) == KeysOf(a) + KeysOf(b) + KeysOf(c)
  {
    KeysOfAppend(a, b);
    KeysOfAppend(a + b, c);
  }

  /** The three orders visit the same entries. */
  lemma {:induction false} TraversalsPermute<V>(t: Tree<V>, o1: Order, o2: Order)
    ensures multiset(Traverse(t, o1)) == multiset(Traverse(t, o2))
    decreases t
  {
    if t.Node? {
      TraversalsPermute(t.left, o1, o2);
      TraversalsPermute(t.right, o1, o2);
    }
  }

  predicate SortedKeys<V>(s: seq<(int, V)>)
  {
    forall i, j | 0 <= i < j < |s| :: s[i].0 <= s[j].0
  }

  /** In a search tree the in-order walk is non-decreasing in the keys. */
  lemma {:induction false} InOrderSorted<V>(t: Tree<V>)
    requires Ordered(t)
    ensures SortedKeys(Traverse(t, InOrder))
    decreases t
  {
    if t.Node? {
      var l, r := Traverse(t.left, InOrder), Traverse(t.right, InOrder);
      InOrderSorted(t.left);
      InOrderSorted(t.right);
      TraversalKeys(t.left, InOrder);
      TraversalKeys(t.right, InOrder);
      forall i | 0 <= i < |l|
        ensures l[i].0 <= t.key
      {
        KeysOfHas(l, i);
      }
      forall i | 0 <= i < |r|
        ensures t.key < r[i].0
      {
        KeysOfHas(r, i);
      }
      SortedAround(l, (t.key, t.value), r);
    }
  }

  lemma SortedAround<V>(l: seq<(int, V)>, e: (int, V), r: seq<(int, V)>)
    requires SortedKeys(l) && SortedKeys(r)
    requires forall i | 0 <= i < |l| :: l[i].0 <= e.0
    requires forall i | 0 <= i < |r| :: e.0 < r[i].0
    ensures SortedKeys(l + [e] + r)
  {
    var s := l + [e] + r;
    forall i, j | 0 <= i < j < |s|
      ensures s[i].0 <= s[j].0
    {
      if j < |l| {
      } else if i > |l| {
        assert s[i] == r[i - |l| - 1] && s[j] == r[j - |l| - 1];
      } else if i == |l| {
        assert s[j] == r[j - |l| - 1];
      } else if j > |l| {
        assert s[j] == r[j - |l| - 1];
      }
    }
  }

  // ---------------------------------------------------------------------
  // print_tree_impl

  /** The key, then "(" left ")(" right ")" when at least one child exists. */
  function Printed<V>(t: Tree<V>): (s: string)
    ensures s == [] <==> t.Nil?
  {
    match t
    case Nil => ""
    case Node(l, k, _, r) =>
      Text.IntToString(k) + (if l.Node? || r.Node? then "(" + Printed(l) + ")(" + Printed(r) + ")" else "")
  }

  /** The text with its brackets removed. */
  function Unbracketed(s: string): string
  {
    if s == [] then ""
    else (if s[0] == '(' || s[0] == ')' then "" else [s[0]]) + Unbracketed(s[1..])
  }

  function Count(s: string, c: char): nat
  {
    if s == [] then 0 else (if s[0] == c then 1 else 0) + Count(s[1..], c)
  }

  /** The decimal keys of entries, written one after the other. */
  function KeyText<V>(s: seq<(int, V)>): string
  {
    if s == [] then "" else Text.IntToString(s[0].0) + KeyText(s[1..])
  }

  lemma {:induction false} UnbracketedAppend(a: string, b: string)
    ensures Unbracketed(a + b) == Unbracketed(a) + Unbracketed(b)
    decreases |a|
  {
    if a != [] {
      assert (a + b)[1..] == a[1..] + b;
      UnbracketedAppend(a[1..], b);
    } else {
      assert a + b == b;
    }
  }

  lemma {:induction false} CountAppend(a: string, b: string, c: char)
    ensures Count(a + b, c) == Count(a, c) + Count(b, c)
    decreases |a|
  {
    if a != [] {
      assert (a + b)[1..] == a[1..] + b;
      CountAppend(a[1..], b, c);
    } else {
      assert a + b == b;
    }
  }

  lemma {:induction false} KeyTextAppend<V>(a: seq<(int, V)>, b: seq<(int, V)>)
    ensures KeyText(a + b) == KeyText(a) + KeyText(b)
    decreases |a|
  {
    if a != [] {
      assert (a + b)[1..] == a[1..] + b;
      KeyTextAppend(a[1..], b);
    } else {
      assert a + b == b;
    }
  }

  /** A rendered key holds no brackets. */
  lemma {:induction false} NoBrackets(s: string)
    requires forall i | 0 <= i < |s| :: s[i] != '(' && s[i] != ')'
    ensures Unbracketed(s) == s
    ensures Count(s, '(') == 0 && Count(s, ')') == 0
    decreases |s|
  {
    if s != [] {
      NoBrackets(s[1..]);
    }
  }

  lemma KeyHasNoBrackets(k: int)
    ensures Unbracketed(Text.IntToString(k)) == Text.IntToString(k)
    ensures Count(Text.IntToString(k), '(') == 0 && Count(Text.IntToString(k), ')') == 0
  {
    var s := Text.IntToString(k);
    forall i | 0 <= i < |s|
      ensures s[i] != '(' && s[i] != ')'
    {
      if k < 0 {
        assert s == "-" + Text.NatToString(-k);
        if i > 0 {
          assert s[i] == Text.NatToString(-k)[i - 1];
        }
      }
    }
    NoBrackets(s);
  }

  /** Without its brackets the rendering is the keys in pre-order. */
  lemma {:induction false} PrintedIsPreOrder<V>(t: Tree<V>)
    ensures Unbracketed(Printed(t)) == KeyText(Traverse(t, PreOrder))
    decreases t
  {
    if t.Node? {
      var key := Text.IntToString(t.key);
      PrintedIsPreOrder(t.left);
      PrintedIsPreOrder(t.right);
      KeyHasNoBrackets(t.key);
      PreOrderText(t);
      if t.left.Node? || t.right.Node? {
        UnbracketedWrap(key, Printed(t.left), Printed(t.right));
      } else {
        assert Printed(t) == key;
      }
    }
  }

  lemma PreOrderText<V>(t: Tree<V>)
    requires t.Node?
    ensures KeyText(Traverse(t, PreOrder)) ==
      Text.IntToString(t.key) + KeyText(Traverse(t.left, PreOrder)) + KeyText(Traverse(t.right, PreOrder))
  {
    var e, l, r := [(t.key, t.value)], Traverse(t.left, PreOrder), Traverse(t.right, PreOrder);
    KeyTextAppend(e, l);
    KeyTextAppend(e + l, r);
    assert KeyText(e) == Text.IntToString(t.key);
  }

  lemma UnbracketedWrap(key: string, pl: string, pr: string)
    ensures Unbracketed(key + ("(" + pl + ")(" + pr + ")")) == Unbracketed(key) + Unbracketed(pl) + Unbracketed(pr)
  {
    UnbracketedMarks();
    UnbracketedAround(key, "(", pl, ")(", pr, ")");
  }

  lemma UnbracketedAround(key: string, open: string, pl: string, mid: string, pr: string, close: string)
    requires Unbracketed(open) == "" && Unbracketed(mid) == "" && Unbracketed(close) == ""
    ensures Unbracketed(key + (open + pl + mid + pr + close)) == Unbracketed(key) + Unbracketed(pl) + Unbracketed(pr)
  {
    UnbracketedAppend(key, open + pl + mid + pr + close);
    UnbracketedAppend(open + pl + mid + pr, close);
    UnbracketedAppend(open + pl + mid, pr);
    UnbracketedAppend(open + pl, mid);
    UnbracketedAppend(open, pl);
  }

  lemma UnbracketedMarks()
    ensures Unbracketed("(") == "" && Unbracketed(")") == "" && Unbracketed(")(") == ""
  {
    assert "("[1..] == [];
    assert ")"[1..] == [];
    assert ")("[1..] == "(";
  }

  /** Every bracket the rendering opens is closed. */
  lemma {:induction false} PrintedBalanced<V>(t: Tree<V>)
    ensures Count(Printed(t), '(') == Count(Printed(t), ')')
    decreases t
  {
    if t.Node? {
      var key := Text.IntToString(t.key);
      var pl, pr := Printed(t.left), Printed(t.right);
      PrintedBalanced(t.left);
      PrintedBalanced(t.right);
      KeyHasNoBrackets(t.key);
      if t.left.Node? || t.right.Node? {
        assert Printed(t) == key + ("(" + pl + ")(" + pr + ")");
        BracketedCount(key, pl, pr, '(');
        BracketedCount(key, pl, pr, ')');
      } else {
        assert Printed(t) == key;
      }
    }
  }

  lemma BracketedCount(key: string, pl: string, pr: string, c: char)
    requires c == '(' || c == ')'
    ensures Count(key + ("(" + pl + ")(" + pr + ")"), c) == Count(key, c) + Count(pl, c) + Count(pr, c) + 2
  {
    CountAppend(key, "(" + pl + ")(" + pr + ")", c);
    CountAppend("(" + pl + ")(" + pr, ")", c);
    CountAppend("(" + pl + ")(", pr, c);
    CountAppend("(" + pl, ")(", c);
    CountAppend("(", pl, c);
    assert Count("(", c) == (if c == '(' then 1 else 0) by {
      assert "("[1..] == [];
    }
    assert Count(")", c) == (if c == ')' then 1 else 0) by {
      assert ")"[1..] == [];
    }
    assert Count(")(", c) == 1 by {
      assert ")("[1..] == "(";
      assert "("[1..] == [];
    }
  }

  // ---------------------------------------------------------------------
  // The BSTree object

  class BSTree<V> {
    var root: Tree<V>
    /** m_size: set to 0 by the constructor and never updated afterwards. */
    var size: nat

    ghost predicate Valid()
      reads this
    {
      Ordered(root)
    }

    constructor ()
      ensures Valid() && root == Nil && size == 0
    {
      root := Nil;
      size := 0;
    }

    method Insert(key: int, value: V)
      requires Valid()
      modifies this
      ensures Valid()
      ensures root == InsertAt(old(root), key, value) && size == old(size)
      ensures Keys(root) == old(Keys(root)) + multiset{key}
    {
      InsertKeepsOrder(root, key, value);
      root := InsertAt(root, key, value);
    }

    /** Returns the removed element's value; on an error nothing changes. */
    method Remove(key: int) returns (r: Result<V>)
      requires Valid()
      modifies this
      ensures Valid() && size == old(size)
      ensures var d := RemoveFrom(old(root), key);
        if d.Ok? then r == Ok(d.value.value) && root == d.value.tree
        else r == Err(d.failure) && root == old(root)
      ensures r.Ok? <==> key in old(Keys(root))
      ensures r.Ok? ==> Keys(root) == old(Keys(root)) - multiset{key}
    {
      var d := RemoveFrom(root, key);
      if root.Node? {
        RemoveAtOrdered(root, key);
      }
      if d.Ok? {
        RemoveTakesOneOccurrence(root, key);
        root := d.value.tree;
        r := Ok(d.value.value);
      } else {
        r := Err(d.failure);
      }
    }

    method Find(key: int) returns (found: bool)
      requires Valid()
      ensures found <==> key in Keys(root)
    {
      var n := FindNode(root, key);
      found := n.Node?;
    }
  }
}

/** The binary max-heap of assignment 5, as pure functions over the buffer's
    contents.  Slots are numbered from 1 as in the C++ code (parent i/2,
    children 2i and 2i+1); slot i is element i-1 of the sequence, so a heap
    of n elements occupies the first n elements. */
module HeapSpec {

  /** `parent(i)`, `left(i)` and `right(i)`: i >> 1, i << 1 and (i << 1) | 1. */
  function Parent(i: nat): nat { i / 2 }
  function Left(i: nat): nat { 2 * i }
  function Right(i: nat): nat { 2 * i + 1 }

  function Slot(h: seq<int>, i: nat): int
    requires 1 <= i <= |h|
  {
    h[i - 1]
  }

  /** Every slot whose parent is at least k holds at most its parent's value. */
  predicate HeapFrom(h: seq<int>, n: nat, k: nat)
    requires n <= |h|
  {
    forall c | 2 <= c <= n && k <= Parent(c) :: Slot(h, Parent(c)) >= Slot(h, c)
  }

  /** The max-heap invariant on slots 1..n. */
  predicate IsHeap(h: seq<int>, n: nat)
    requires n <= |h|
  {
    HeapFrom(h, n, 1)
  }

  /** The heap's elements. */
  function Elements(h: seq<int>, n: nat): multiset<int>
    requires n <= |h|
  {
    multiset(h[..n])
  }

  function Swap(h: seq<int>, i: nat, j: nat): (r: seq<int>)
    requires 1 <= i <= |h| && 1 <= j <= |h|
    ensures |r| == |h|
  {
    h[i - 1 := h[j - 1]][j - 1 := h[i - 1]]
  }

  lemma SwapPermutes(h: seq<int>, i: nat, j: nat, n: nat)
    requires 1 <= i <= n && 1 <= j <= n && n <= |h|
    ensures multiset(Swap(h, i, j)[..n]) == multiset(h[..n])
    ensures Swap(h, i, j)[n..] == h[n..]
  {
    var s := h[..n];
    var s1 := s[i - 1 := s[j - 1]];
    SwapPrefix(h, i, j, n);
    if i != j {
      UpdateElements(s, i - 1, s[j - 1]);
      UpdateElements(s1, j - 1, s[i - 1]);
    }
  }

  lemma SwapPrefix(h: seq<int>, i: nat, j: nat, n: nat)
    requires 1 <= i <= n && 1 <= j <= n && n <= |h|
    ensures Swap(h, i, j)[..n] == h[..n][i - 1 := h[j - 1]][j - 1 := h[i - 1]]
    ensures Swap(h, i, j)[n..] == h[n..]
  {
  }

  // ---------------------------------------------------------------------
  // heapify

  /** The slot heapify moves to from p: the larger child if it beats p
      (the right child only if it beats the left one too), else p itself. */
  function Larger(h: seq<int>, n: nat, p: nat): (lr: nat)
    requires 1 <= p && n <= |h|
    ensures lr == p || (lr in {Left(p), Right(p)} && lr <= n && Slot(h, lr) > Slot(h, p))
    ensures lr != p ==> forall c | c in {Left(p), Right(p)} && c <= n :: Slot(h, lr) >= Slot(h, c)
    ensures lr == p && p <= n ==> forall c | c in {Left(p), Right(p)} && c <= n :: Slot(h, p) >= Slot(h, c)
  {
    var l, r := Left(p), Right(p);
    var lr := if l <= n && Slot(h, l) > Slot(h, p) then l else p;
    if r <= n && Slot(h, r) > Slot(h, lr) then r else lr
  }

  /** heapify(p): the value at p sinks, swapping with the larger child,
      until no child beats it. */
  function SiftDown(h: seq<int>, n: nat, p: nat): (r: seq<int>)
    requires 1 <= p && n <= |h|
    ensures |r| == |h|
    ensures forall q | 1 <= q <= |h| && (q < p || q > n) :: Slot(r, q) == Slot(h, q)
    decreases n - p
  {
    var c := Larger(h, n, p);
    if c == p then h else SiftDown(Swap(h, p, c), n, c)
  }

  /** Sifting down only moves values among slots 1..n. */
  lemma {:induction false} SiftDownPermutes(h: seq<int>, n: nat, p: nat)
    requires 1 <= p && n <= |h|
    ensures Elements(SiftDown(h, n, p), n) == Elements(h, n)
    ensures SiftDown(h, n, p)[n..] == h[n..]
    decreases n - p
  {
    var c := Larger(h, n, p);
    if c != p {
      SwapPermutes(h, p, c, n);
      SiftDownPermutes(Swap(h, p, c), n, c);
    }
  }

  /** heapify(p) makes every parent from k on dominate its children,
      provided that held already everywhere except at p itself, and that
      p's parent (when p is below k) dominates p's children. */
  lemma {:induction false} SiftDownRestores(h: seq<int>, n: nat, p: nat, k: nat)
    requires 1 <= k <= p && n <= |h|
    requires forall c | 2 <= c <= n && k <= Parent(c) && Parent(c) != p :: Slot(h, Parent(c)) >= Slot(h, c)
    requires k < p ==> forall c | 2 <= c <= n && Parent(c) == p :: Slot(h, Parent(p)) >= Slot(h, c)
    ensures HeapFrom(SiftDown(h, n, p), n, k)
    decreases n - p
  {
    var c := Larger(h, n, p);
    if c != p {
      var t := Swap(h, p, c);
      SwapStep(h, n, p, c, k);
      SiftDownRestores(t, n, c, k);
    }
  }

  /** One swap of heapify keeps the conditions SiftDownRestores needs, one
      level further down. */
  lemma SwapStep(h: seq<int>, n: nat, p: nat, c: nat, k: nat)
    requires 1 <= k <= p && n <= |h|
    requires c == Larger(h, n, p) && c != p
    requires forall x | 2 <= x <= n && k <= Parent(x) && Parent(x) != p :: Slot(h, Parent(x)) >= Slot(h, x)
    requires k < p ==> forall x | 2 <= x <= n && Parent(x) == p :: Slot(h, Parent(p)) >= Slot(h, x)
    ensures var t := Swap(h, p, c);
      (forall x | 2 <= x <= n && k <= Parent(x) && Parent(x) != c :: Slot(t, Parent(x)) >= Slot(t, x)) &&
      (forall x | 2 <= x <= n && Parent(x) == c :: Slot(t, Parent(c)) >= Slot(t, x))
  {
    var t := Swap(h, p, c);
    assert Parent(c) == p;
    forall x | 2 <= x <= n && k <= Parent(x) && Parent(x) != c
      ensures Slot(t, Parent(x)) >= Slot(t, x)
    {
      if Parent(x) == p {
        assert x in {Left(p), Right(p)};
      } else if x == p {
        assert Slot(h, Parent(p)) >= Slot(h, c);
      }
    }
    forall x | 2 <= x <= n && Parent(x) == c
      ensures Slot(t, Parent(c)) >= Slot(t, x)
    {
      assert k <= Parent(x);
    }
  }

  /** A slot below p holding at most p's value is never swapped by heapify(p). */
  lemma {:induction false} SiftDownKeeps(h: seq<int>, n: nat, p: nat, q: nat)
    requires 1 <= p < q <= n <= |h| && Slot(h, q) <= Slot(h, p)
    ensures Slot(SiftDown(h, n, p), q) == Slot(h, q)
    decreases n - p
  {
    var c := Larger(h, n, p);
    if c != p {
      var t := Swap(h, p, c);
      assert c != q;
      if c < q {
        SiftDownKeeps(t, n, c, q);
      }
    }
  }

  // ---------------------------------------------------------------------
  // increase_key

  /** increase_key(q, v): parents smaller than v move down into the hole at
      q, which climbs until v fits. */
  function SiftUp(h: seq<int>, q: nat, v: int): (r: seq<int>)
    requires 1 <= q <= |h|
    ensures |r| == |h|
    ensures forall i | q < i <= |h| :: Slot(r, i) == Slot(h, i)
    decreases q
  {
    if q > 1 && Slot(h, Parent(q)) < v then SiftUp(h[q - 1 := Slot(h, Parent(q))], Parent(q), v)
    else h[q - 1 := v]
  }

  /** Filling the hole at q with v replaces the hole's old value by v. */
  lemma {:induction false} SiftUpElements(h: seq<int>, q: nat, v: int, n: nat)
    requires 1 <= q <= n <= |h|
    ensures Elements(SiftUp(h, q, v), n) + multiset{Slot(h, q)} == Elements(h, n) + multiset{v}
    decreases q
  {
    if q > 1 && Slot(h, Parent(q)) < v {
      var p := Parent(q);
      var t := h[q - 1 := Slot(h, p)];
      assert t[..n] == h[..n][q - 1 := Slot(h, p)];
      UpdateElements(h[..n], q - 1, Slot(h, p));
      assert Slot(t, p) == Slot(h, p);
      SiftUpElements(t, p, v, n);
      Shift(Elements(SiftUp(t, p, v), n), Elements(t, n), Elements(h, n), Slot(h, p), Slot(h, q), v);
    } else {
      assert h[q - 1 := v][..n] == h[..n][q - 1 := v];
      UpdateElements(h[..n], q - 1, v);
    }
  }

  lemma Shift(r: multiset<int>, t: multiset<int>, h: multiset<int>, a: int, b: int, v: int)
    requires r + multiset{a} == t + multiset{v} && t + multiset{b} == h + multiset{a}
    ensures r + multiset{b} == h + multiset{v}
  {
    forall x
      ensures (r + multiset{b})[x] == (h + multiset{v})[x]
    {
      assert (r + multiset{a})[x] == (t + multiset{v})[x];
      assert (t + multiset{b})[x] == (h + multiset{a})[x];
    }
  }

  lemma UpdateElements(s: seq<int>, i: nat, x: int)
    requires i < |s|
    ensures multiset(s[i := x]) + multiset{s[i]} == multiset(s) + multiset{x}
  {
    assert s == s[..i] + [s[i]] + s[i + 1..];
    assert s[i := x] == s[..i] + [x] + s[i + 1..];
  }

  /** The hole invariant of increase_key: every parent-child pair away from
      the hole is ordered, the hole's children are at most v, and the hole's
      parent dominates the hole's children. */
  predicate Hole(h: seq<int>, n: nat, q: nat, v: int)
    requires 1 <= q <= n <= |h|
  {
    (forall c | 2 <= c <= n && c != q && Parent(c) != q :: Slot(h, Parent(c)) >= Slot(h, c)) &&
    (forall c | 2 <= c <= n && Parent(c) == q :: Slot(h, c) <= v) &&
    (q > 1 ==> forall c | 2 <= c <= n && Parent(c) == q :: Slot(h, Parent(q)) >= Slot(h, c))
  }

  lemma {:induction false} SiftUpRestores(h: seq<int>, n: nat, q: nat, v: int)
    requires 1 <= q <= n <= |h| && Hole(h, n, q, v)
    ensures IsHeap(SiftUp(h, q, v), n)
    decreases q
  {
    var p := Parent(q);
    if q > 1 && Slot(h, p) < v {
      var t := h[q - 1 := Slot(h, p)];
      HoleClimbs(h, n, q, v);
      SiftUpRestores(t, n, p, v);
    } else {
      var r := h[q - 1 := v];
      forall c | 2 <= c <= n && 1 <= Parent(c)
        ensures Slot(r, Parent(c)) >= Slot(r, c)
      {
        if c == q {
        } else if Parent(c) == q {
        }
      }
    }
  }

  lemma HoleClimbs(h: seq<int>, n: nat, q: nat, v: int)
    requires 1 < q <= n <= |h| && Hole(h, n, q, v) && Slot(h, Parent(q)) < v
    ensures Hole(h[q - 1 := Slot(h, Parent(q))], n, Parent(q), v)
  {
    var p := Parent(q);
    var t := h[q - 1 := Slot(h, p)];
    forall c | 2 <= c <= n && c != p && Parent(c) != p
      ensures Slot(t, Parent(c)) >= Slot(t, c)
    {
      if c == q {
      } else if Parent(c) == q {
      }
    }
    forall c | 2 <= c <= n && Parent(c) == p
      ensures Slot(t, c) <= v
    {
      if c != q {
        assert Slot(h, p) >= Slot(h, c);
      }
    }
    if p > 1 {
      forall c | 2 <= c <= n && Parent(c) == p
        ensures Slot(t, Parent(p)) >= Slot(t, c)
      {
        assert Slot(h, Parent(p)) >= Slot(h, p);
        if c != q {
          assert Slot(h, p) >= Slot(h, c);
        }
      }
    }
  }

  // ---------------------------------------------------------------------
  // The root is the maximum

  lemma {:induction false} RootDominates(h: seq<int>, n: nat, i: nat)
    requires n <= |h| && IsHeap(h, n) && 1 <= i <= n
    ensures Slot(h, 1) >= Slot(h, i)
    decreases i
  {
    if i > 1 {
      RootDominates(h, n, Parent(i));
    }
  }

  /** In a heap, slot 1 holds an element no other element exceeds. */
  lemma RootIsMax(h: seq<int>, n: nat)
    requires n <= |h| && IsHeap(h, n) && n >= 1
    ensures h[0] in Elements(h, n)
    ensures forall x | x in Elements(h, n) :: x <= h[0]
  {
    forall x | x in Elements(h, n)
      ensures x <= h[0]
    {
      var j :| 0 <= j < n && h[..n][j] == x;
      RootDominates(h, n, j + 1);
    }
  }

  /** The invariant only looks at slots 1..n. */
  lemma HeapOfPrefix(h: seq<int>, g: seq<int>, n: nat)
    requires n <= |h| && n <= |g| && h[..n] == g[..n]
    ensures IsHeap(h, n) <==> IsHeap(g, n)
  {
    assert forall i | 1 <= i <= n :: Slot(h, i) == h[..n][i - 1] == g[..n][i - 1] == Slot(g, i);
  }

  // ---------------------------------------------------------------------
  // is_heap

  /** is_heap(p): no child of p beats p, recursively through p's subtree. */
  function IsHeapAt(h: seq<int>, n: nat, p: nat): bool
    requires 1 <= p && n <= |h|
    decreases if p <= n then n - p + 1 else 0
  {
    if p > n then true
    else if Left(p) <= n && Slot(h, Left(p)) > Slot(h, p) then false
    else if Right(p) <= n && Slot(h, Right(p)) > Slot(h, p) then false
    else IsHeapAt(h, n, Left(p)) && IsHeapAt(h, n, Right(p))
  }

  /** x lies in the subtree rooted at p. */
  predicate InSubtree(x: nat, p: nat)
    decreases x
  {
    x == p || (x > p && x >= 2 && InSubtree(Parent(x), p))
  }

  lemma {:induction false} SubtreeAtLeast(x: nat, p: nat)
    requires InSubtree(x, p)
    ensures x >= p
    decreases x
  {
  }

  lemma {:induction false} SubtreeOfRoot(x: nat)
    requires x >= 1
    ensures InSubtree(x, 1)
    decreases x
  {
    if x > 1 {
      SubtreeOfRoot(Parent(x));
    }
  }

  /** The subtree of p is p and the subtrees of its two children. */
  lemma {:induction false} SubtreeSplit(x: nat, p: nat)
    requires p >= 1
    ensures InSubtree(x, p) <==> x == p || InSubtree(x, Left(p)) || InSubtree(x, Right(p))
    decreases x
  {
    if x > p && x >= 2 {
      if Parent(x) != p {
        SubtreeSplit(Parent(x), p);
        if InSubtree(Parent(x), Left(p)) {
          SubtreeAtLeast(Parent(x), Left(p));
        }
        if InSubtree(Parent(x), Right(p)) {
          SubtreeAtLeast(Parent(x), Right(p));
        }
      }
    }
    if InSubtree(x, Left(p)) {
      SubtreeAtLeast(x, Left(p));
    }
    if InSubtree(x, Right(p)) {
      SubtreeAtLeast(x, Right(p));
    }
  }

  /** The parent-child pairs of p's subtree are ordered. */
  predicate OrderedBelow(h: seq<int>, n: nat, p: nat)
    requires n <= |h|
  {
    forall c | 2 <= c <= n && InSubtree(Parent(c), p) :: Slot(h, Parent(c)) >= Slot(h, c)
  }

  lemma {:induction false} IsHeapAtMeans(h: seq<int>, n: nat, p: nat)
    requires 1 <= p && n <= |h|
    ensures IsHeapAt(h, n, p) <==> OrderedBelow(h, n, p)
    decreases if p <= n then n - p + 1 else 0
  {
    if p > n {
      forall c | 2 <= c <= n && InSubtree(Parent(c), p)
        ensures false
      {
        SubtreeAtLeast(Parent(c), p);
      }
    } else {
      IsHeapAtMeans(h, n, Left(p));
      IsHeapAtMeans(h, n, Right(p));
      forall c | 2 <= c <= n
        ensures InSubtree(Parent(c), p) <==> Parent(c) == p || InSubtree(Parent(c), Left(p)) || InSubtree(Parent(c), Right(p))
      {
        SubtreeSplit(Parent(c), p);
      }
      if OrderedBelow(h, n, p) {
        assert Left(p) <= n ==> Parent(Left(p)) == p;
        assert Right(p) <= n ==> Parent(Right(p)) == p;
      } else {
        var c :| 2 <= c <= n && InSubtree(Parent(c), p) && Slot(h, Parent(c)) < Slot(h, c);
        if Parent(c) == p {
          assert c == Left(p) || c == Right(p);
        }
      }
    }
  }

  /** is_heap(1) decides the heap invariant. */
  lemma IsHeapAtRoot(h: seq<int>, n: nat)
    requires n <= |h|
    ensures IsHeapAt(h, n, 1) <==> IsHeap(h, n)
  {
    IsHeapAtMeans(h, n, 1);
    forall c | 2 <= c <= n
      ensures InSubtree(Parent(c), 1)
    {
      SubtreeOfRoot(Parent(c));
    }
  }
}

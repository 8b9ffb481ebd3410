/** The Heap class of assignment 5 and heapsort.  The heap keeps its
    elements in a buffer it either owns (and may grow) or borrows from a
    caller's vector (and sorts in place).  Slot i of the heap is element i-1
    of the buffer in both cases. */
module Heaps {
  import opened Outcomes
  import opened HeapSpec

  /** k_default_size */
  const DEFAULT_CAPACITY: nat := 8
  /** The range of the class's own size_t, which the class declares as an
      alias of uint32_t. */
  const WORD: nat := 0x1_0000_0000

  /** expand: a capacity below 8 becomes 8, any other doubles. */
  function Grown(capacity: nat): (r: nat)
    ensures r > capacity && r >= DEFAULT_CAPACITY
  {
    if capacity < DEFAULT_CAPACITY then DEFAULT_CAPACITY else capacity * 2
  }

  /** The capacity the vector constructor records, as written: the vector's
      capacity minus one, stored in the class's 32-bit size_t. */
  function BorrowedCapacityAsWritten(vectorCapacity: nat): nat
  {
    (vectorCapacity - 1) % WORD
  }

  /** The same capacity without the wrap-around: an empty buffer has room for
      nothing. */
  function BorrowedCapacity(vectorCapacity: nat): (r: nat)
    ensures r <= vectorCapacity
    ensures r < vectorCapacity || vectorCapacity == 0
  {
    if vectorCapacity == 0 then 0 else vectorCapacity - 1
  }

  /** For every vector that has a buffer the two agree. */
  lemma BorrowedCapacityAgrees(vectorCapacity: nat)
    requires 1 <= vectorCapacity <= WORD
    ensures BorrowedCapacityAsWritten(vectorCapacity) == BorrowedCapacity(vectorCapacity)
  {
  }

  /** The subtraction itself happens in the vector's size type, 64 bits on
      64-bit targets, and only then narrows to the class's 32-bit size_t;
      the stored value is the same as subtracting in 32 bits. */
  lemma CapacityNarrowedFromSixtyFourBits(vectorCapacity: nat)
    requires vectorCapacity < 0x1_0000_0000_0000_0000
    ensures ((vectorCapacity - 1) % 0x1_0000_0000_0000_0000) % WORD == BorrowedCapacityAsWritten(vectorCapacity)
    ensures vectorCapacity == 0 ==> (vectorCapacity - 1) % 0x1_0000_0000_0000_0000 == 0x1_0000_0000_0000_0000 - 1
  {
    if vectorCapacity == 0 {
      assert (0 - 1) % 0x1_0000_0000_0000_0000 == 0xFFFF_FFFF_FFFF_FFFF;
      assert 0xFFFF_FFFF_FFFF_FFFF == 0xFFFF_FFFF * WORD + 0xFFFF_FFFF;
    }
  }

  /** A vector with no buffer makes the recorded capacity 4294967295, so the
      growth test of insert (size >= capacity) fails for the empty heap and
      increase_key writes slot 1, which the buffer does not have.  With the
      corrected capacity, insert tries to grow the borrowed buffer instead,
      which is refused. */
  lemma EmptyVectorCapacityWraps()
    ensures BorrowedCapacityAsWritten(0) == WORD - 1
    ensures !(0 >= BorrowedCapacityAsWritten(0))
    ensures BorrowedCapacity(0) == 0 && 0 >= BorrowedCapacity(0)
  {
  }

  // ---------------------------------------------------------------------
  // The loops on the buffer

  /** heapify(p) on the first n slots of `a`. */
  method Heapify(a: array<int>, n: nat, p: nat)
    requires 1 <= p && n <= a.Length
    modifies a
    ensures a[..] == SiftDown(old(a[..]), n, p)
  {
    var q := p;
    var done := false;
    while !done
      invariant 1 <= q
      invariant SiftDown(a[..], n, q) == SiftDown(old(a[..]), n, p)
      invariant done ==> a[..] == SiftDown(old(a[..]), n, p)
      decreases !done, n - q
    {
      var lr := Larger(a[..], n, q);
      if lr != q {
        ghost var h := a[..];
        a[q - 1], a[lr - 1] := a[lr - 1], a[q - 1];
        assert a[..] == Swap(h, q, lr);
        q := lr;
      } else {
        done := true;
      }
    }
  }

  /** increase_key(q, v): the hole climbs while its parent is below v. */
  method IncreaseKey(a: array<int>, q: nat, v: int)
    requires 1 <= q <= a.Length
    modifies a
    ensures a[..] == SiftUp(old(a[..]), q, v)
  {
    var k := q;
    while k > 1 && a[Parent(k) - 1] < v
      invariant 1 <= k <= q
      invariant SiftUp(a[..], k, v) == SiftUp(old(a[..]), q, v)
      decreases k
    {
      var p := Parent(k);
      a[k - 1] := a[p - 1];
      k := p;
    }
    a[k - 1] := v;
  }

  /** build_heap: heapify every parent, the last one first. */
  method BuildHeap(a: array<int>, n: nat)
    requires n <= a.Length
    modifies a
    ensures IsHeap(a[..], n)
    ensures Elements(a[..], n) == old(Elements(a[..], n)) && a[n..] == old(a[n..])
  {
    var i := n / 2;
    while i >= 1
      invariant 0 <= i <= n / 2
      invariant HeapFrom(a[..], n, i + 1)
      invariant Elements(a[..], n) == old(Elements(a[..], n)) && a[n..] == old(a[n..])
    {
      ghost var before := a[..];
      Heapify(a, n, i);
      SiftDownPermutes(before, n, i);
      SiftDownRestores(before, n, i, i);
      i := i - 1;
    }
  }

  /** Copies slots 1..n into a new buffer. */
  method CopySlots(src: array<int>, dst: array<int>, n: nat)
    requires n <= src.Length && n <= dst.Length && src != dst
    modifies dst
    ensures dst[..n] == src[..n]
  {
    for i := 0 to n
      invariant dst[..i] == src[..i]
    {
      dst[i] := src[i];
    }
  }

  /** std::reverse */
  method Reverse(a: array<int>)
    modifies a
    ensures forall i | 0 <= i < a.Length :: a[i] == old(a[a.Length - 1 - i])
  {
    var i, j := 0, a.Length - 1;
    while i < j
      invariant 0 <= i <= a.Length && j == a.Length - 1 - i
      invariant forall k | 0 <= k < i || j < k < a.Length :: a[k] == old(a[a.Length - 1 - k])
      invariant forall k | i <= k <= j :: a[k] == old(a[k])
    {
      a[i], a[j] := a[j], a[i];
      i, j := i + 1, j - 1;
    }
  }

  // ---------------------------------------------------------------------
  // The Heap object

  class Heap {
    var data: array<int>
    var capacity: nat
    var size: nat
    var owns: bool

    ghost predicate Valid()
      reads this, data
    {
      size <= data.Length && capacity <= data.Length &&
      (owns ==> size <= capacity == data.Length) &&
      IsHeap(data[..], size)
    }

    ghost function Contents(): multiset<int>
      requires size <= data.Length
      reads this, data
    {
      Elements(data[..], size)
    }

    /** An empty heap owning a buffer of the given capacity. */
    constructor (initialCapacity: nat)
      ensures Valid() && fresh(data) && owns
      ensures capacity == initialCapacity && size == 0 && Contents() == multiset{}
    {
      data := new int[initialCapacity];
      capacity, size, owns := initialCapacity, 0, true;
    }

    /** The vector constructor: the heap borrows the vector's buffer, holds
        its first n elements, and builds the heap in place.  The buffer
        length stands for the vector's capacity.  The recorded capacity is
        the corrected BorrowedCapacity: as written, an empty vector gives
        4294967295 (see BorrowedCapacityAsWritten). */
    constructor FromVector(vec: array<int>, n: nat)
      requires n <= vec.Length
      modifies vec
      ensures Valid() && data == vec && !owns
      ensures size == n && capacity == BorrowedCapacity(vec.Length)
      ensures Contents() == old(multiset(vec[..n])) && vec[n..] == old(vec[n..])
    {
      data, capacity, size, owns := vec, BorrowedCapacity(vec.Length), n, false;
      new;
      BuildHeap(vec, n);
    }

    /** expand: a borrowed buffer cannot grow; an owned one is replaced by a
        larger one holding the same slots. */
    method Expand() returns (r: Result<()>)
      requires Valid()
      modifies this
      ensures Valid() && size == old(size) && owns == old(owns)
      ensures r.Err? <==> !owns
      ensures r.Err? ==> r.failure == CapacityExceeded && data == old(data) && capacity == old(capacity)
      ensures r.Ok? ==> fresh(data) && capacity == Grown(old(capacity))
      ensures data[..size] == old(data[..size])
    {
      if !owns {
        return Err(CapacityExceeded);
      }
      var newCapacity := Grown(capacity);
      var d := new int[newCapacity];
      CopySlots(data, d, size);
      HeapOfPrefix(d[..], data[..], size);
      data, capacity := d, newCapacity;
      r := Ok(());
    }

    /** insert: a full heap grows first (which fails on a borrowed buffer
        before anything changes); then the value climbs from the new last
        slot. */
    method Insert(v: int) returns (r: Result<()>)
      requires Valid()
      modifies this, data
      ensures Valid() && owns == old(owns)
      ensures r.Err? <==> old(size) >= old(capacity) && !owns
      ensures r.Err? ==> r.failure == CapacityExceeded && size == old(size) && Contents() == old(Contents())
      ensures r.Ok? ==> size == old(size) + 1 && Contents() == old(Contents()) + multiset{v}
    {
      if size >= capacity {
        r := Expand();
        if r.Err? {
          return;
        }
      }
      ghost var before := data[..];
      size := size + 1;
      IncreaseKey(data, size, v);
      Inserted(before, size, v);
      r := Ok(());
    }

    /** extract_max (also deleteKey): the last element moves to the root and
        sinks, with heapify still seeing the old size; then the size drops.
        An empty heap is an error. */
    method ExtractMax() returns (r: Result<int>)
      requires Valid()
      modifies this, data
      ensures Valid() && data == old(data) && capacity == old(capacity) && owns == old(owns)
      ensures old(size) == 0 ==> r == Err(EmptyContainer) && size == 0 && data[..] == old(data[..])
      ensures old(size) >= 1 ==> r.Ok? && size == old(size) - 1
      ensures r.Ok? ==> r.value in old(Contents()) && forall x | x in old(Contents()) :: x <= r.value
      ensures r.Ok? ==> Contents() + multiset{r.value} == old(Contents())
      ensures r.Ok? ==> data[size] == old(data[size - 1])
      ensures data[old(size)..] == old(data[size..])
    {
      if size < 1 {
        return Err(EmptyContainer);
      }
      var v := ExtractRoot(data, size);
      size := size - 1;
      r := Ok(v);
    }

    /** top / getMax: the root, which no element exceeds. */
    function Top(): (r: int)
      requires Valid() && size >= 1
      reads this, data
      ensures r in Contents() && forall x | x in Contents() :: x <= r
    {
      RootIsMax(data[..], size);
      data[0]
    }
  }

  /** The buffer work of extract_max on the first n slots: the root is
      taken out, the last slot moves up and sinks with heapify still seeing
      n slots, and the first n - 1 slots are a heap again. */
  method ExtractRoot(a: array<int>, n: nat) returns (v: int)
    requires 1 <= n <= a.Length && IsHeap(a[..], n)
    modifies a
    ensures v in Elements(old(a[..]), n) && forall x | x in Elements(old(a[..]), n) :: x <= v
    ensures IsHeap(a[..], n - 1) && Elements(a[..], n - 1) + multiset{v} == Elements(old(a[..]), n)
    ensures a[n - 1] == old(a[n - 1]) && a[n..] == old(a[n..])
  {
    ghost var before := a[..];
    RootIsMax(before, n);
    v := a[0];
    a[0] := a[n - 1];
    ghost var moved := a[..];
    Heapify(a, n, 1);
    Extracted(before, moved, n);
  }

  /** What insert leaves: a heap holding one more value. */
  lemma Inserted(before: seq<int>, n: nat, v: int)
    requires 1 <= n <= |before| && IsHeap(before, n - 1)
    ensures IsHeap(SiftUp(before, n, v), n)
    ensures Elements(SiftUp(before, n, v), n) == Elements(before, n - 1) + multiset{v}
    ensures SiftUp(before, n, v)[n..] == before[n..]
  {
    LastSlotIsHole(before, n, v);
    SiftUpRestores(before, n, n, v);
    InsertedElements(before, n, v);
    var after := SiftUp(before, n, v);
    assert forall k | n <= k < |before| :: after[k] == Slot(after, k + 1);
  }

  lemma InsertedElements(before: seq<int>, n: nat, v: int)
    requires 1 <= n <= |before|
    ensures Elements(SiftUp(before, n, v), n) == Elements(before, n - 1) + multiset{v}
  {
    SiftUpElements(before, n, v, n);
    assert before[..n] == before[..n - 1] + [before[n - 1]];
    var a, b := Elements(SiftUp(before, n, v), n), Elements(before, n - 1);
    assert a + multiset{before[n - 1]} == b + multiset{before[n - 1]} + multiset{v};
    assert a == b + multiset{v} by {
      forall x ensures a[x] == (b + multiset{v})[x] {
        assert (a + multiset{before[n - 1]})[x] == (b + multiset{before[n - 1]} + multiset{v})[x];
      }
    }
  }

  /** A new last slot is a hole any value may fill. */
  lemma LastSlotIsHole(h: seq<int>, n: nat, v: int)
    requires 1 <= n <= |h| && IsHeap(h, n - 1)
    ensures Hole(h, n, n, v)
  {
    forall c | 2 <= c <= n && c != n && Parent(c) != n
      ensures Slot(h, Parent(c)) >= Slot(h, c)
    {
      assert 1 <= Parent(c) && c <= n - 1;
    }
  }

  /** What extract_max leaves in slots 1..n-1 after moving slot n to the
      root and sifting it down: a heap of the other elements.  Slot n keeps
      the moved value, because no sift step picks a child that only equals
      the value sinking. */
  lemma Extracted(before: seq<int>, moved: seq<int>, n: nat)
    requires 1 <= n <= |before| && IsHeap(before, n)
    requires moved == before[0 := before[n - 1]]
    ensures IsHeap(SiftDown(moved, n, 1), n - 1)
    ensures Elements(SiftDown(moved, n, 1), n - 1) + multiset{before[0]} == Elements(before, n)
    ensures SiftDown(moved, n, 1)[n - 1] == before[n - 1]
    ensures SiftDown(moved, n, 1)[n..] == before[n..]
  {
    var after := SiftDown(moved, n, 1);
    SiftDownRestores(moved, n, 1, 1);
    SiftDownPermutes(moved, n, 1);
    if n > 1 {
      SiftDownKeeps(moved, n, 1, n);
    }
    HeapShrinks(after, n);
    ExtractedElements(before, moved, after, n);
  }

  lemma ExtractedElements(before: seq<int>, moved: seq<int>, after: seq<int>, n: nat)
    requires 1 <= n <= |before| == |moved| == |after|
    requires moved == before[0 := before[n - 1]]
    requires Elements(after, n) == Elements(moved, n) && after[n - 1] == before[n - 1]
    ensures Elements(after, n - 1) + multiset{before[0]} == Elements(before, n)
  {
    assert after[..n] == after[..n - 1] + [after[n - 1]];
    assert moved[..n] == before[..n][0 := before[n - 1]];
    UpdateElements(before[..n], 0, before[n - 1]);
    assert before[..n] == before[..n - 1] + [before[n - 1]];
  }

  lemma HeapShrinks(h: seq<int>, n: nat)
    requires 1 <= n <= |h| && IsHeap(h, n)
    ensures IsHeap(h, n - 1)
  {
  }

  // ---------------------------------------------------------------------
  // heapsort

  /** heapsort: a heap on the vector's own buffer hands out its maximum into
      the slot it has just freed, from the back; the reverse then leaves the
      vector non-increasing. */
  method HeapSort(vec: array<int>)
    modifies vec
    ensures multiset(vec[..]) == old(multiset(vec[..]))
    ensures forall i, j | 0 <= i < j < vec.Length :: vec[i] >= vec[j]
  {
    FillAscending(vec);
    ghost var ascending := vec[..];
    Reverse(vec);
    ReversedPermutes(ascending, vec[..]);
    ReversedDescends(ascending, vec[..]);
  }

  /** The loop of heapsort, before the reverse. */
  method FillAscending(vec: array<int>)
    modifies vec
    ensures multiset(vec[..]) == old(multiset(vec[..]))
    ensures Ascending(vec[..], 0)
  {
    assert vec[..vec.Length] == vec[..];
    var heap := new Heap.FromVector(vec, vec.Length);
    assert vec[..vec.Length] == vec[..];
    var i := vec.Length - 1;
    while i >= 1
      invariant -1 <= i < vec.Length && (vec.Length >= 1 ==> i >= 0)
      invariant heap.Valid() && heap.data == vec && !heap.owns && heap.size == i + 1
      invariant multiset(vec[..]) == old(multiset(vec[..]))
      invariant Ascending(vec[..], i + 1)
      invariant i + 1 < vec.Length ==> forall x | x in heap.Contents() :: x <= vec[i + 1]
    {
      i := SortStep(heap, vec, i);
    }
    if vec.Length >= 1 {
      assert heap.Contents() == multiset(vec[..][..1]) && vec[..][..1] == [vec[0]];
      AscendingToFront(vec[..]);
    }
  }

  /** Positions k.. are sorted non-decreasingly. */
  ghost predicate Ascending(s: seq<int>, k: nat)
  {
    forall a, b | k <= a < b < |s| :: s[a] <= s[b]
  }

  /** One round of heapsort: deleteKey, then the maximum goes to vec[i]. */
  method SortStep(heap: Heap, vec: array<int>, i: int) returns (i': int)
    requires 1 <= i < vec.Length
    requires heap.Valid() && heap.data == vec && !heap.owns && heap.size == i + 1
    requires Ascending(vec[..], i + 1)
    requires i + 1 < vec.Length ==> forall x | x in heap.Contents() :: x <= vec[i + 1]
    modifies heap, vec
    ensures i' == i - 1
    ensures heap.Valid() && heap.data == vec && !heap.owns && heap.size == i
    ensures multiset(vec[..]) == old(multiset(vec[..]))
    ensures Ascending(vec[..], i)
    ensures forall x | x in heap.Contents() :: x <= vec[i]
  {
    ghost var whole := vec[..];
    ghost var contents := heap.Contents();
    var r := heap.ExtractMax();
    ghost var extracted := vec[..];
    vec[i] := r.value;
    HeapOfPrefix(vec[..], extracted, i);
    StepPermutes(whole, extracted, i, r.value);
    StepAscends(whole, extracted, i, r.value, contents);
    i' := i - 1;
  }

  /** Putting the extracted maximum into the freed slot keeps the vector's
      elements. */
  lemma StepPermutes(whole: seq<int>, extracted: seq<int>, i: nat, v: int)
    requires i < |whole| == |extracted|
    requires multiset(extracted[..i]) + multiset{v} == multiset(whole[..i + 1])
    requires extracted[i + 1..] == whole[i + 1..]
    ensures multiset(extracted[i := v]) == multiset(whole)
  {
    var after := extracted[i := v];
    assert after == extracted[..i] + [v] + whole[i + 1..];
    assert whole == whole[..i + 1] + whole[i + 1..];
  }

  /** ... and extends the sorted tail by one. */
  lemma StepAscends(whole: seq<int>, extracted: seq<int>, i: nat, v: int, contents: multiset<int>)
    requires i < |whole| == |extracted|
    requires Ascending(whole, i + 1) && extracted[i + 1..] == whole[i + 1..]
    requires v in contents
    requires i + 1 < |whole| ==> forall x | x in contents :: x <= whole[i + 1]
    ensures Ascending(extracted[i := v], i)
  {
    var after := extracted[i := v];
    forall a, b | i <= a < b < |after|
      ensures after[a] <= after[b]
    {
      assert after[b] == whole[b];
      if a > i {
        assert after[a] == whole[a];
      } else {
        assert whole[i + 1] <= whole[b];
      }
    }
  }

  /** The last element left in the heap is no larger than the sorted tail. */
  lemma AscendingToFront(s: seq<int>)
    requires |s| >= 1 && Ascending(s, 1) && (|s| >= 2 ==> s[0] <= s[1])
    ensures Ascending(s, 0)
  {
    forall a, b | 0 <= a < b < |s|
      ensures s[a] <= s[b]
    {
      if a == 0 && b > 1 {
        assert s[1] <= s[b];
      }
    }
  }

  /** Reversing keeps the elements. */
  lemma {:induction false} ReversedPermutes(s: seq<int>, r: seq<int>)
    requires |r| == |s| && forall i | 0 <= i < |s| :: r[i] == s[|s| - 1 - i]
    ensures multiset(r) == multiset(s)
    decreases |s|
  {
    if |s| > 0 {
      var s', r' := s[..|s| - 1], r[1..];
      ReversedPermutes(s', r');
      assert s == s' + [s[|s| - 1]];
      assert r == [r[0]] + r';
    }
  }

  /** Reversing a non-decreasing sequence makes it non-increasing. */
  lemma ReversedDescends(s: seq<int>, r: seq<int>)
    requires |r| == |s| && forall i | 0 <= i < |s| :: r[i] == s[|s| - 1 - i]
    requires Ascending(s, 0)
    ensures forall i, j | 0 <= i < j < |r| :: r[i] >= r[j]
  {
  }
}

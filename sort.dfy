/** The in-place sorts of assignment 7: insertion sort, merge sort with a
    scratch buffer, and quick sort with the Lomuto and Hoare partitions and
    their randomised variants.  std::rand is modelled as a stream of draws,
    `random(0), random(1), ...`, that the quick sort consumes one per
    randomised partition. */
module Sorting {
  import opened SortSpec

  /** std::swap of two slots. */
  method Swap(a: array<int>, i: nat, j: nat)
    requires i < a.Length && j < a.Length
    modifies a
    ensures a[..] == old(a[..])[i := old(a[j])][j := old(a[i])]
  {
    a[i], a[j] := a[j], a[i];
  }

  // ---------------------------------------------------------------------
  // Insertion sort

  /** insertion_sort(A, l, r): each element of the range in turn is shifted
      left past the larger elements before it. */
  method InsertionSort(a: array<int>, l: nat, r: nat)
    requires l <= r <= a.Length
    modifies a
    ensures Permuted(old(a[..]), a[..], l, r) && SortedRange(a[..], l, r)
  {
    ghost var s0 := a[..];
    PermutedRefl(s0, l, r);
    if l == r {
      return;
    }
    var i := l + 1;
    while i < r
      invariant l < i <= r
      invariant Permuted(s0, a[..], l, r) && SortedRange(a[..], l, i)
    {
      ghost var before := a[..];
      ShiftInto(a, l, i);
      InsertionRound(s0, before, a[..], l, i, r);
      i := i + 1;
    }
  }

  /** The inner loop of insertion sort: A[i] moves down into the sorted run
      A[l..i). */
  method ShiftInto(a: array<int>, l: nat, i: nat)
    requires l <= i < a.Length
    modifies a
    ensures a[l..i + 1] == Insert(old(a[l..i]), old(a[i]))
    ensures forall k | 0 <= k < a.Length && !(l <= k <= i) :: a[k] == old(a[k])
  {
    ghost var s := a[l..i];
    var v := a[i];
    var j := ShiftUp(a, l, i, v);
    a[j] := v;
    StopsAtInsertionPoint(s, v, j - l);
    InsertedAt(a[l..i + 1], s, v, j - l);
  }

  /** The shifting itself: every element of A[l..i) greater than v moves
      one slot up, leaving the slot j free. */
  method ShiftUp(a: array<int>, l: nat, i: nat, v: int) returns (j: nat)
    requires l <= i < a.Length
    modifies a
    ensures l <= j <= i && (j == l || a[j - 1] <= v)
    ensures forall k | 0 <= k < a.Length && !(l <= k <= i) :: a[k] == old(a[k])
    ensures forall k | l <= k < j :: a[k] == old(a[l..i])[k - l]
    ensures forall k | j < k <= i :: a[k] == old(a[l..i])[k - l - 1]
    ensures forall k | j - l <= k < i - l :: v < old(a[l..i])[k]
  {
    ghost var s0 := a[..];
    ghost var s := a[l..i];
    j := i;
    while j > l && a[j - 1] > v
      invariant l <= j <= i
      invariant forall k | 0 <= k < a.Length && !(l <= k <= i) :: a[k] == s0[k]
      invariant forall k | l <= k < j :: a[k] == s[k - l]
      invariant forall k | j < k <= i :: a[k] == s[k - l - 1]
      invariant forall k | j - l <= k < |s| :: v < s[k]
    {
      a[j] := a[j - 1];
      j := j - 1;
    }
  }

  /** The shifting loop stops at the insertion point: past it everything
      exceeds v, and the slot before it, if any, does not. */
  lemma {:induction false} StopsAtInsertionPoint(s: seq<int>, v: int, k: nat)
    requires k <= |s| && (k == 0 || s[k - 1] <= v)
    requires forall m | k <= m < |s| :: v < s[m]
    ensures InsertionPoint(s, v) == k
    decreases |s|
  {
    if k < |s| {
      StopsAtInsertionPoint(s[..|s| - 1], v, k);
    }
  }

  /** A sequence that agrees with Insert(s, v) slot by slot is it. */
  lemma InsertedAt(t: seq<int>, s: seq<int>, v: int, k: nat)
    requires |t| == |s| + 1 && k == InsertionPoint(s, v)
    requires forall m | 0 <= m < k :: t[m] == s[m]
    requires t[k] == v && forall m | k < m < |t| :: t[m] == s[m - 1]
    ensures t == Insert(s, v)
  {
  }

  /** insertion_sort(A): the whole array. */
  method InsertionSortAll(a: array<int>)
    modifies a
    ensures multiset(a[..]) == old(multiset(a[..])) && Sorted(a[..])
  {
    InsertionSort(a, 0, a.Length);
    WholeRange(old(a[..]), a[..]);
  }

  // ---------------------------------------------------------------------
  // Merge sort

  /** merge: both runs are copied to the scratch buffer, then merged back
      into A from slot l on. */
  method MergeRuns(a: array<int>, temp: array<int>, l: nat, l1: nat, r1: nat, l2: nat, r2: nat)
    requires l1 <= r1 <= a.Length && l2 <= r2 <= a.Length && r1 <= temp.Length && r2 <= temp.Length
    requires l + (r1 - l1) + (r2 - l2) <= a.Length && a != temp
    modifies a, temp
    ensures a[l..l + (r1 - l1) + (r2 - l2)] == Merge(old(a[l1..r1]), old(a[l2..r2]))
    ensures forall k | 0 <= k < a.Length && !(l <= k < l + (r1 - l1) + (r2 - l2)) :: a[k] == old(a[k])
  {
    ghost var orig := a[..];
    ghost var merged := Merge(a[l1..r1], a[l2..r2]);
    CopyRuns(a, temp, l1, r1, l2, r2);
    assert Merging(a[..], temp[..], orig, merged, l, l, l1, r1, l2, r2) by {
      assert temp[..][l1..r1] == temp[l1..r1] && temp[..][l2..r2] == temp[l2..r2];
      MergeFromRuns(temp[..], l1, r1, l2, r2);
    }
    MergeBack(a, temp, l, l1, r1, l2, r2, orig, merged);
  }

  /** The three merging loops of merge: while both runs have values the
      smaller head is written back (the second run's on a tie), then what is
      left of either run. */
  method MergeBack(a: array<int>, temp: array<int>, l: nat, l1: nat, r1: nat, l2: nat, r2: nat,
                   ghost orig: seq<int>, ghost merged: seq<int>)
    requires a != temp && Merging(a[..], temp[..], orig, merged, l, l, l1, r1, l2, r2)
    modifies a
    ensures a[l..l + |merged|] == merged
    ensures forall m | 0 <= m < a.Length && !(l <= m < l + |merged|) :: a[m] == orig[m]
  {
    var i1, i2, k := l1, l2, l;
    while i1 < r1 && i2 < r2
      invariant k == l + (i1 - l1) + (i2 - l2)
      invariant Merging(a[..], temp[..], orig, merged, l, k, i1, r1, i2, r2)
    {
      if temp[i1] < temp[i2] {
        TakeFirst(a[..], temp[..], orig, merged, l, k, i1, r1, i2, r2);
        Put(a, k, temp[i1]);
        i1 := i1 + 1;
      } else {
        TakeSecond(a[..], temp[..], orig, merged, l, k, i1, r1, i2, r2);
        Put(a, k, temp[i2]);
        i2 := i2 + 1;
      }
      k := k + 1;
    }
    Drain(a, temp, l, k, i1, r1, i2, r2, orig, merged);
  }

  /** The last two loops of merge: whichever run still has values is copied
      back as it is. */
  method Drain(a: array<int>, temp: array<int>, l: nat, k0: nat, j1: nat, r1: nat, j2: nat, r2: nat,
               ghost orig: seq<int>, ghost merged: seq<int>)
    requires a != temp && Merging(a[..], temp[..], orig, merged, l, k0, j1, r1, j2, r2)
    requires j1 == r1 || j2 == r2
    modifies a
    ensures a[l..l + |merged|] == merged
    ensures forall m | 0 <= m < a.Length && !(l <= m < l + |merged|) :: a[m] == orig[m]
  {
    var i1, i2, k := j1, j2, k0;
    while i1 < r1
      invariant i2 == j2 && (i1 < r1 ==> i2 == r2)
      invariant Merging(a[..], temp[..], orig, merged, l, k, i1, r1, i2, r2)
    {
      TakeFirst(a[..], temp[..], orig, merged, l, k, i1, r1, i2, r2);
      Put(a, k, temp[i1]);
      i1 := i1 + 1;
      k := k + 1;
    }
    while i2 < r2
      invariant i1 == r1
      invariant Merging(a[..], temp[..], orig, merged, l, k, i1, r1, i2, r2)
    {
      TakeSecond(a[..], temp[..], orig, merged, l, k, i1, r1, i2, r2);
      Put(a, k, temp[i2]);
      i2 := i2 + 1;
      k := k + 1;
    }
    MergingDone(a[..], temp[..], orig, merged, l, k, i1, r1, i2, r2);
  }

  /** One slot of the output is written. */
  method Put(a: array<int>, k: nat, v: int)
    requires k < a.Length
    modifies a
    ensures a[..] == old(a[..])[k := v]
  {
    a[k] := v;
  }

  /** The state of merge's loops: slots before l and from k on are as they
      were, slots l..k hold the first k - l values of the merge, and the rest
      of the merge is the merge of what is left of the two runs. */
  ghost predicate Merging(s: seq<int>, t: seq<int>, orig: seq<int>, merged: seq<int>,
                          l: int, k: int, i1: int, r1: int, i2: int, r2: int)
  {
    0 <= l <= k <= |s| == |orig| && 0 <= i1 <= r1 <= |t| && 0 <= i2 <= r2 <= |t| &&
    k - l <= |merged| && l + |merged| <= |s| && |merged| - (k - l) == (r1 - i1) + (r2 - i2) &&
    (forall m | 0 <= m < |s| && !(l <= m < k) :: s[m] == orig[m]) &&
    (forall m | l <= m < k :: s[m] == merged[m - l]) &&
    merged[k - l..] == MergeFrom(t, i1, r1, i2, r2)
  }

  /** The merge of t[i1..r1] and t[i2..r2], taken by indices into t. */
  ghost function MergeFrom(t: seq<int>, i1: int, r1: int, i2: int, r2: int): seq<int>
    requires 0 <= i1 <= r1 <= |t| && 0 <= i2 <= r2 <= |t|
    decreases (r1 - i1) + (r2 - i2)
  {
    if i1 == r1 then t[i2..r2]
    else if i2 == r2 then t[i1..r1]
    else if t[i1] < t[i2] then [t[i1]] + MergeFrom(t, i1 + 1, r1, i2, r2)
    else [t[i2]] + MergeFrom(t, i1, r1, i2 + 1, r2)
  }

  lemma {:induction false} MergeFromRuns(t: seq<int>, i1: int, r1: int, i2: int, r2: int)
    requires 0 <= i1 <= r1 <= |t| && 0 <= i2 <= r2 <= |t|
    ensures MergeFrom(t, i1, r1, i2, r2) == Merge(t[i1..r1], t[i2..r2])
    decreases (r1 - i1) + (r2 - i2)
  {
    if i1 < r1 && i2 < r2 {
      assert t[i1..r1][1..] == t[i1 + 1..r1] && t[i2..r2][1..] == t[i2 + 1..r2];
      if t[i1] < t[i2] {
        MergeFromRuns(t, i1 + 1, r1, i2, r2);
      } else {
        MergeFromRuns(t, i1, r1, i2 + 1, r2);
      }
    }
  }

  /** The head of the first run goes next when it is smaller or the second
      run is used up. */
  lemma TakeFirst(s: seq<int>, t: seq<int>, orig: seq<int>, merged: seq<int>,
                  l: int, k: int, i1: int, r1: int, i2: int, r2: int)
    requires Merging(s, t, orig, merged, l, k, i1, r1, i2, r2)
    requires i1 < r1 && (i2 == r2 || t[i1] < t[i2])
    ensures k < |s| && Merging(s[k := t[i1]], t, orig, merged, l, k + 1, i1 + 1, r1, i2, r2)
  {
    assert merged[k - l..][0] == merged[k - l];
    assert merged[k - l + 1..] == merged[k - l..][1..];
    if i2 == r2 {
      assert t[i1..r1] == [t[i1]] + t[i1 + 1..r1];
    }
  }

  /** Otherwise the head of the second run does. */
  lemma TakeSecond(s: seq<int>, t: seq<int>, orig: seq<int>, merged: seq<int>,
                   l: int, k: int, i1: int, r1: int, i2: int, r2: int)
    requires Merging(s, t, orig, merged, l, k, i1, r1, i2, r2)
    requires i2 < r2 && (i1 == r1 || !(t[i1] < t[i2]))
    ensures k < |s| && Merging(s[k := t[i2]], t, orig, merged, l, k + 1, i1, r1, i2 + 1, r2)
  {
    assert merged[k - l..][0] == merged[k - l];
    assert merged[k - l + 1..] == merged[k - l..][1..];
    if i1 == r1 {
      assert t[i2..r2] == [t[i2]] + t[i2 + 1..r2];
    }
  }

  lemma MergingDone(s: seq<int>, t: seq<int>, orig: seq<int>, merged: seq<int>,
                    l: int, k: int, i1: int, r1: int, i2: int, r2: int)
    requires Merging(s, t, orig, merged, l, k, i1, r1, i2, r2) && i1 == r1 && i2 == r2
    ensures s[l..k] == merged
    ensures forall m | 0 <= m < |s| && !(l <= m < k) :: s[m] == orig[m]
  {
  }

  /** The first two loops of merge: both runs go to the same slots of the
      scratch buffer. */
  method CopyRuns(a: array<int>, temp: array<int>, l1: nat, r1: nat, l2: nat, r2: nat)
    requires l1 <= r1 <= a.Length && l2 <= r2 <= a.Length && r1 <= temp.Length && r2 <= temp.Length
    requires a != temp
    modifies temp
    ensures temp[l1..r1] == a[l1..r1] && temp[l2..r2] == a[l2..r2]
  {
    for i := l1 to r1
      invariant forall k | l1 <= k < i :: temp[k] == a[k]
    {
      temp[i] := a[i];
    }
    for i := l2 to r2
      invariant forall k | l1 <= k < r1 :: temp[k] == a[k]
      invariant forall k | l2 <= k < i :: temp[k] == a[k]
    {
      temp[i] := a[i];
    }
  }

  /** merge_sort_impl: sort both halves, then merge them. */
  method MergeSortRange(a: array<int>, temp: array<int>, l: nat, r: nat)
    requires l <= r <= a.Length && r <= temp.Length && a != temp
    modifies a, temp
    ensures Permuted(old(a[..]), a[..], l, r) && SortedRange(a[..], l, r)
    decreases r - l
  {
    if r - l <= 1 {
      PermutedRefl(a[..], l, r);
      return;
    }
    var mid := (l + r) / 2;
    ghost var s0 := a[..];
    MergeSortRange(a, temp, l, mid);
    ghost var s1 := a[..];
    MergeSortRange(a, temp, mid, r);
    ghost var s2 := a[..];
    MergeRuns(a, temp, l, l, mid, mid, r);
    MergedHalves(s0, s1, s2, a[..], l, mid, r);
  }

  /** merge_sort(A): the whole array, with a scratch buffer of its size. */
  method MergeSort(a: array<int>)
    modifies a
    ensures multiset(a[..]) == old(multiset(a[..])) && Sorted(a[..])
  {
    var temp := new int[a.Length];
    MergeSortRange(a, temp, 0, a.Length);
    WholeRange(old(a[..]), a[..]);
  }

  // ---------------------------------------------------------------------
  // Partitions

  /** What a Lomuto partition of [l, r) leaves: a rearrangement with the
      pivot at p, no larger value before it and only larger values after
      it. */
  ghost predicate LomutoSplit(s0: seq<int>, s: seq<int>, l: int, r: int, p: int, pivot: int)
  {
    Permuted(s0, s, l, r) && l <= p < r && s[p] == pivot &&
    AllAtMost(s, l, p, pivot) && forall k | p < k < r :: s[k] > pivot
  }

  /** What a Hoare partition of [l, r) leaves: a rearrangement split at p,
      with no value before p above the pivot and none from p on below it;
      p is past the front whenever the range has two slots or more. */
  ghost predicate HoareSplit(s0: seq<int>, s: seq<int>, l: int, r: int, p: int, pivot: int)
  {
    Permuted(s0, s, l, r) && l <= p < r && (r - l >= 2 ==> l < p) &&
    AllAtMost(s, l, p, pivot) && AllAtLeast(s, p, r, pivot)
  }

  /** lomuto_partition: the last slot's value is the pivot; the elements no
      larger than it are gathered at the front, and the pivot is swapped in
      after them. */
  method LomutoPartition(a: array<int>, l: nat, r: nat) returns (p: nat)
    requires l < r <= a.Length
    modifies a
    ensures LomutoSplit(old(a[..]), a[..], l, r, p, old(a[r - 1]))
  {
    ghost var s0 := a[..];
    var pivot := a[r - 1];
    PermutedRefl(s0, l, r);
    p := l;
    var i := l;
    while i + 1 < r
      invariant l <= p <= i <= r - 1
      invariant Gathered(s0, a[..], l, r, p, i, pivot)
    {
      p := Gather(a, s0, l, r, p, i, pivot);
      i := i + 1;
    }
    ghost var before := a[..];
    Swap(a, p, r - 1);
    PivotPlaced(s0, before, l, r, p, pivot);
  }

  /** One step of the Lomuto loop: slot i joins the front when it is no
      larger than the pivot. */
  method Gather(a: array<int>, ghost s0: seq<int>, l: nat, r: nat, p: nat, i: nat, pivot: int) returns (p': nat)
    requires r <= a.Length && i + 1 < r && Gathered(s0, a[..], l, r, p, i, pivot)
    modifies a
    ensures p <= p' <= p + 1 && Gathered(s0, a[..], l, r, p', i + 1, pivot)
  {
    ghost var before := a[..];
    if a[i] <= pivot {
      Swap(a, p, i);
      GatherStep(s0, before, l, r, p, i, pivot);
      p' := p + 1;
    } else {
      GatherSkip(s0, before, l, r, p, i, pivot);
      p' := p;
    }
  }

  /** The Lomuto loop's state after slot i: the slots before p are at most
      the pivot, those from p to i exceed it, and the pivot is still last. */
  ghost predicate Gathered(s0: seq<int>, s: seq<int>, l: int, r: int, p: int, i: int, pivot: int)
  {
    Permuted(s0, s, l, r) && 0 <= l <= p <= i < r && s[r - 1] == pivot &&
    AllAtMost(s, l, p, pivot) && forall k | p <= k < i :: s[k] > pivot
  }

  lemma GatherStep(s0: seq<int>, s: seq<int>, l: int, r: int, p: int, i: int, pivot: int)
    requires Gathered(s0, s, l, r, p, i, pivot) && i + 1 < r && s[i] <= pivot
    ensures Gathered(s0, s[p := s[i]][i := s[p]], l, r, p + 1, i + 1, pivot)
  {
    SwapPermuted(s, p, i, l, r);
    PermutedTrans(s0, s, s[p := s[i]][i := s[p]], l, r);
  }

  lemma GatherSkip(s0: seq<int>, s: seq<int>, l: int, r: int, p: int, i: int, pivot: int)
    requires Gathered(s0, s, l, r, p, i, pivot) && i + 1 < r && s[i] > pivot
    ensures Gathered(s0, s, l, r, p, i + 1, pivot)
  {
  }

  lemma PivotPlaced(s0: seq<int>, s: seq<int>, l: int, r: int, p: int, pivot: int)
    requires Gathered(s0, s, l, r, p, r - 1, pivot)
    ensures LomutoSplit(s0, s[p := s[r - 1]][r - 1 := s[p]], l, r, p, pivot)
  {
    SwapPermuted(s, p, r - 1, l, r);
    PermutedTrans(s0, s, s[p := s[r - 1]][r - 1 := s[p]], l, r);
  }

  /** hoare_partition: the middle slot's value is the pivot; scans from both
      ends swap misplaced pairs until they cross, and the front scan's
      position splits the range.  The pivot itself stops either scan, so
      neither leaves the range. */
  method HoarePartition(a: array<int>, l: nat, r: nat) returns (p: nat)
    requires l < r <= a.Length
    modifies a
    ensures HoareSplit(old(a[..]), a[..], l, r, p, old(a[(l + r) / 2]))
  {
    ghost var s0 := a[..];
    var mid := (l + r) / 2;
    var pivot := a[mid];
    PermutedRefl(s0, l, r);
    p := l;
    var q := r - 1;
    while true
      invariant Scanned(s0, a[..], l, r, p, q, mid, pivot)
      decreases r - p
    {
      ghost var p0 := p;
      while a[p] < pivot
        invariant p0 <= p && Scanned(s0, a[..], l, r, p, q, mid, pivot)
        decreases r - p
      {
        ScanFront(s0, a[..], l, r, p, q, mid, pivot);
        p := p + 1;
      }
      while a[q] > pivot
        invariant Scanned(s0, a[..], l, r, p, q, mid, pivot) && a[p] >= pivot
        decreases q
      {
        ScanBack(s0, a[..], l, r, p, q, mid, pivot);
        q := q - 1;
      }
      ghost var before := a[..];
      if p < q {
        Swap(a, p, q);
        ScanSwap(s0, before, l, r, p, q, mid, pivot);
        p, q := p + 1, q - 1;
      } else {
        ScansCrossed(s0, before, l, r, p, q, mid, pivot);
        return;
      }
    }
  }

  /** The Hoare loop's state: slots before p are at most the pivot, slots
      after q at least it, each scan has a slot ahead that stops it, and
      until the first swap the pivot is still in the middle slot, at or
      before q. */
  ghost predicate Scanned(s0: seq<int>, s: seq<int>, l: int, r: int, p: int, q: int, mid: int, pivot: int)
  {
    Permuted(s0, s, l, r) && l <= p < r && l <= q < r &&
    AllAtMost(s, l, p, pivot) && AllAtLeast(s, q + 1, r, pivot) &&
    (exists k | p <= k < r :: s[k] >= pivot) &&
    (exists k | l <= k <= q :: s[k] <= pivot) &&
    (p == l ==> l <= mid <= q && s[mid] == pivot)
  }

  lemma ScanFront(s0: seq<int>, s: seq<int>, l: int, r: int, p: int, q: int, mid: int, pivot: int)
    requires Scanned(s0, s, l, r, p, q, mid, pivot) && s[p] < pivot
    ensures Scanned(s0, s, l, r, p + 1, q, mid, pivot)
  {
    var k :| p <= k < r && s[k] >= pivot;
    assert p + 1 <= k;
  }

  lemma ScanBack(s0: seq<int>, s: seq<int>, l: int, r: int, p: int, q: int, mid: int, pivot: int)
    requires Scanned(s0, s, l, r, p, q, mid, pivot) && s[q] > pivot
    ensures Scanned(s0, s, l, r, p, q - 1, mid, pivot)
  {
    var k :| l <= k <= q && s[k] <= pivot;
    assert k <= q - 1;
  }

  lemma ScanSwap(s0: seq<int>, s: seq<int>, l: int, r: int, p: int, q: int, mid: int, pivot: int)
    requires Scanned(s0, s, l, r, p, q, mid, pivot) && s[p] >= pivot && s[q] <= pivot && p < q
    ensures Scanned(s0, s[p := s[q]][q := s[p]], l, r, p + 1, q - 1, mid, pivot)
  {
    var t := s[p := s[q]][q := s[p]];
    SwapPermuted(s, p, q, l, r);
    PermutedTrans(s0, s, t, l, r);
    assert t[q] >= pivot && t[p] <= pivot;
  }

  lemma ScansCrossed(s0: seq<int>, s: seq<int>, l: int, r: int, p: int, q: int, mid: int, pivot: int)
    requires Scanned(s0, s, l, r, p, q, mid, pivot) && s[p] >= pivot && s[q] <= pivot && p >= q
    requires mid == (l + r) / 2
    ensures HoareSplit(s0, s, l, r, p, pivot)
  {
  }

  /** A swap before a partition: the partition's outcome is a rearrangement
      of the array as it was before the swap. */
  lemma LomutoAfterSwap(s0: seq<int>, s1: seq<int>, s2: seq<int>, l: int, r: int, p: int, pivot: int)
    requires Permuted(s0, s1, l, r) && LomutoSplit(s1, s2, l, r, p, pivot)
    ensures LomutoSplit(s0, s2, l, r, p, pivot)
  {
    PermutedTrans(s0, s1, s2, l, r);
  }

  lemma HoareAfterSwap(s0: seq<int>, s1: seq<int>, s2: seq<int>, l: int, r: int, p: int, pivot: int)
    requires Permuted(s0, s1, l, r) && HoareSplit(s1, s2, l, r, p, pivot)
    ensures HoareSplit(s0, s2, l, r, p, pivot)
  {
    PermutedTrans(s0, s1, s2, l, r);
  }

  /** lomuto_partition_random: a drawn slot of the range is swapped into the
      pivot slot first. */
  method LomutoPartitionRandom(a: array<int>, l: nat, r: nat, random: nat) returns (p: nat)
    requires l < r <= a.Length
    modifies a
    ensures LomutoSplit(old(a[..]), a[..], l, r, p, old(a[l + random % (r - l)]))
  {
    ghost var before := a[..];
    var j := l + random % (r - l);
    Swap(a, r - 1, j);
    SwapPermuted(before, r - 1, j, l, r);
    ghost var swapped := a[..];
    p := LomutoPartition(a, l, r);
    LomutoAfterSwap(before, swapped, a[..], l, r, p, swapped[r - 1]);
  }

  /** hoare_partition_random as written: the drawn slot is swapped into the
      middle, where the Hoare scheme looks for its pivot, but then the Lomuto
      partition runs, which takes its pivot from the last slot. */
  method HoarePartitionRandomAsWritten(a: array<int>, l: nat, r: nat, random: nat) returns (p: nat)
    requires l < r <= a.Length
    modifies a
    ensures var j, mid := l + random % (r - l), (l + r) / 2;
      LomutoSplit(old(a[..]), a[..], l, r, p, old(a[..])[mid := old(a[j])][j := old(a[mid])][r - 1])
  {
    ghost var before := a[..];
    var j, mid := l + random % (r - l), (l + r) / 2;
    Swap(a, mid, j);
    SwapPermuted(before, mid, j, l, r);
    ghost var swapped := a[..];
    p := LomutoPartition(a, l, r);
    LomutoAfterSwap(before, swapped, a[..], l, r, p, swapped[r - 1]);
  }

  /** On [1, 2] with an even draw, the partition above returns the front
      slot and leaves the array as it found it; the Hoare recursion of
      quick sort then sorts [l, p) = [0, 0) and [p, r) = [0, 2), the very
      call it is in, so as long as the draws stay even it never returns. */
  method HoareRandomRepeatsAsWritten(random: nat) returns (before: seq<int>, p: nat, after: seq<int>)
    requires random % 2 == 0
    ensures before == [1, 2] && p == 0 && after == before
  {
    var a := new int[2];
    a[0], a[1] := 1, 2;
    before := a[..];
    assert before == [1, 2];
    assert before[1 := before[0]][0 := before[1]][1] == 1;
    p := HoarePartitionRandomAsWritten(a, 0, 2, random);
    after := a[..];
    LowestPivotComesFirst(after, p);
  }

  lemma LowestPivotComesFirst(s: seq<int>, p: int)
    requires LomutoSplit([1, 2], s, 0, 2, p, 1)
    ensures p == 0 && s == [1, 2]
  {
    assert s == s[0..2] == [s[0], s[1]];
    assert [1, 2][0..2] == [1, 2];
    assert multiset{s[0], s[1]} == multiset{1, 2};
    assert 2 in multiset{s[0], s[1]};
  }

  /** hoare_partition_random as evidently intended: the drawn slot is
      swapped into the middle and the Hoare partition runs. */
  method HoarePartitionRandom(a: array<int>, l: nat, r: nat, random: nat) returns (p: nat)
    requires l < r <= a.Length
    modifies a
    ensures HoareSplit(old(a[..]), a[..], l, r, p, old(a[l + random % (r - l)]))
  {
    ghost var before := a[..];
    var j, mid := l + random % (r - l), (l + r) / 2;
    Swap(a, mid, j);
    SwapPermuted(before, mid, j, l, r);
    ghost var swapped := a[..];
    p := HoarePartition(a, l, r);
    HoareAfterSwap(before, swapped, a[..], l, r, p, swapped[mid]);
  }

  // ---------------------------------------------------------------------
  // Quick sort

  /** PartitionScheme */
  datatype Scheme = Lomuto | Hoare | LomutoRandom | HoareRandom

  /** What quick_sort_impl needs of a partition: a rearrangement split at p
      around a value x, the first part [l, p) no larger and the rest no
      smaller; with incr = 1 the pivot sits at p and is left out of the
      second part [p + incr, r).  Both parts are shorter than the range. */
  ghost predicate SplitAround(s0: seq<int>, s: seq<int>, l: int, r: int, p: int, incr: int, x: int)
  {
    Permuted(s0, s, l, r) && 0 <= incr <= 1 && l <= p < r && l < p + incr <= r &&
    AllAtMost(s, l, p, x) && AllAtLeast(s, p, r, x) && (incr == 1 ==> s[p] == x)
  }

  /** The partition step of quick_sort_impl: the scheme picks the partition
      and whether the split slot is left out of the second part. */
  method PartitionBy(a: array<int>, l: nat, r: nat, scheme: Scheme, random: nat -> nat, draw: nat)
    returns (p: nat, incr: nat, next: nat, ghost x: int)
    requires l + 2 <= r <= a.Length
    modifies a
    ensures SplitAround(old(a[..]), a[..], l, r, p, incr, x)
    ensures incr == (if scheme.Hoare? || scheme.HoareRandom? then 0 else 1)
    ensures next == (if scheme.Lomuto? || scheme.Hoare? then draw else draw + 1)
  {
    ghost var s0 := a[..];
    next, incr := draw, 1;
    match scheme {
      case Lomuto =>
        x := a[r - 1];
        p := LomutoPartition(a, l, r);
        LomutoBounds(s0, a[..], l, r, p, x);
      case Hoare =>
        x := a[(l + r) / 2];
        p := HoarePartition(a, l, r);
        incr := 0;
      case LomutoRandom =>
        x := a[l + random(next) % (r - l)];
        p := LomutoPartitionRandom(a, l, r, random(next));
        LomutoBounds(s0, a[..], l, r, p, x);
        next := next + 1;
      case HoareRandom =>
        x := a[l + random(next) % (r - l)];
        p := HoarePartitionRandom(a, l, r, random(next));
        next := next + 1;
        incr := 0;
    }
  }

  /** quick_sort_impl: partition, then sort the part before the split and
      the part after it.  Returns the position reached in the stream of
      draws. */
  method QuickSortRange(a: array<int>, l: nat, r: nat, scheme: Scheme, random: nat -> nat, draw: nat)
    returns (next: nat)
    requires l <= r <= a.Length
    modifies a
    ensures Permuted(old(a[..]), a[..], l, r) && SortedRange(a[..], l, r)
    ensures next >= draw
    decreases r - l
  {
    if r - l <= 1 {
      PermutedRefl(a[..], l, r);
      return draw;
    }
    ghost var s0 := a[..];
    var p, incr;
    ghost var x;
    p, incr, next, x := PartitionBy(a, l, r, scheme, random, draw);
    ghost var s1 := a[..];
    next := QuickSortRange(a, l, p, scheme, random, next);
    ghost var s2 := a[..];
    next := QuickSortRange(a, p + incr, r, scheme, random, next);
    SortedAroundSplit(s0, s1, s2, a[..], l, p, incr, r, x);
  }

  /** A Lomuto split is a split around its pivot with the pivot in place. */
  lemma LomutoBounds(s0: seq<int>, s: seq<int>, l: int, r: int, p: int, pivot: int)
    requires LomutoSplit(s0, s, l, r, p, pivot)
    ensures Permuted(s0, s, l, r) && l <= p < r && s[p] == pivot
    ensures AllAtMost(s, l, p, pivot) && AllAtLeast(s, p, r, pivot)
  {
  }

  /** quick_sort<scheme>(A) */
  method QuickSort(a: array<int>, scheme: Scheme, random: nat -> nat)
    modifies a
    ensures multiset(a[..]) == old(multiset(a[..])) && Sorted(a[..])
  {
    var _ := QuickSortRange(a, 0, a.Length, scheme, random, 0);
    WholeRange(old(a[..]), a[..]);
  }

  /** quick_sort_random(A): the Lomuto scheme with random pivots. */
  method QuickSortRandom(a: array<int>, random: nat -> nat)
    modifies a
    ensures multiset(a[..]) == old(multiset(a[..])) && Sorted(a[..])
  {
    QuickSort(a, LomutoRandom, random);
  }

  // ---------------------------------------------------------------------
  // Proof steps

  /** A rearrangement of the whole array keeps its elements. */
  lemma WholeRange(s: seq<int>, t: seq<int>)
    requires Permuted(s, t, 0, |s|)
    ensures multiset(t) == multiset(s)
  {
    assert s[0..|s|] == s && t[0..|t|] == t;
  }

  /** One round of insertion sort keeps the range a rearrangement and
      extends the sorted prefix by one slot. */
  lemma InsertionRound(s0: seq<int>, before: seq<int>, after: seq<int>, l: nat, i: nat, r: nat)
    requires l <= i < r <= |before| == |after|
    requires Permuted(s0, before, l, r) && SortedRange(before, l, i)
    requires after[l..i + 1] == Insert(before[l..i], before[i])
    requires forall k | 0 <= k < |before| && !(l <= k <= i) :: after[k] == before[k]
    ensures Permuted(s0, after, l, r) && SortedRange(after, l, i + 1)
  {
    InsertedPrefix(before, after, l, i);
    PermutedWiden(before, after, l, i + 1, l, r);
    PermutedTrans(s0, before, after, l, r);
  }

  /** After one round of insertion sort the first i+1 slots are sorted. */
  lemma InsertedPrefix(before: seq<int>, after: seq<int>, l: nat, i: nat)
    requires l <= i < |before| == |after|
    requires SortedRange(before, l, i)
    requires after[l..i + 1] == Insert(before[l..i], before[i])
    requires forall k | 0 <= k < |before| && !(l <= k <= i) :: after[k] == before[k]
    ensures SortedRange(after, l, i + 1) && Permuted(before, after, l, i + 1)
  {
    var s := before[l..i];
    assert Sorted(s) by {
      forall x, y | 0 <= x < y < |s|
        ensures s[x] <= s[y]
      {
        assert s[x] == before[l + x] && s[y] == before[l + y];
      }
    }
    InsertSorted(s, before[i]);
    InsertElements(s, before[i]);
    assert before[l..i + 1] == s + [before[i]];
    forall x, y | l <= x < y < i + 1
      ensures after[x] <= after[y]
    {
      assert after[x] == after[l..i + 1][x - l] && after[y] == after[l..i + 1][y - l];
    }
  }

  /** After both halves are sorted and merged, the range is sorted. */
  lemma MergedHalves(s0: seq<int>, s1: seq<int>, s2: seq<int>, s3: seq<int>, l: nat, mid: nat, r: nat)
    requires l <= mid <= r <= |s0|
    requires Permuted(s0, s1, l, mid) && SortedRange(s1, l, mid)
    requires Permuted(s1, s2, mid, r) && SortedRange(s2, mid, r)
    requires |s3| == |s0| && s3[l..r] == Merge(s2[l..mid], s2[mid..r])
    requires forall k | 0 <= k < |s3| && !(l <= k < r) :: s3[k] == s2[k]
    ensures Permuted(s0, s3, l, r) && SortedRange(s3, l, r)
  {
    var x, y := s2[l..mid], s2[mid..r];
    RangeIsSorted(s2, l, mid);
    RangeIsSorted(s2, mid, r);
    MergeSorted(x, y);
    SortedIsRange(s3, l, r);
    MergeElements(x, y);
    MergedPermuted(s2, s3, l, mid, r);
    PermutedWiden(s0, s1, l, mid, l, r);
    PermutedWiden(s1, s2, mid, r, l, r);
    PermutedTrans(s0, s1, s2, l, r);
    PermutedTrans(s0, s2, s3, l, r);
  }

  lemma MergedPermuted(s2: seq<int>, s3: seq<int>, l: nat, mid: nat, r: nat)
    requires l <= mid <= r <= |s2| == |s3|
    requires multiset(s3[l..r]) == multiset(s2[l..mid]) + multiset(s2[mid..r])
    requires forall k | 0 <= k < |s3| && !(l <= k < r) :: s3[k] == s2[k]
    ensures Permuted(s2, s3, l, r)
  {
    assert s2[l..r] == s2[l..mid] + s2[mid..r];
  }

  lemma RangeIsSorted(s: seq<int>, lo: nat, hi: nat)
    requires lo <= hi <= |s| && SortedRange(s, lo, hi)
    ensures Sorted(s[lo..hi])
  {
    forall i, j | 0 <= i < j < hi - lo
      ensures s[lo..hi][i] <= s[lo..hi][j]
    {
      assert s[lo..hi][i] == s[lo + i] && s[lo..hi][j] == s[lo + j];
    }
  }

  lemma SortedIsRange(s: seq<int>, lo: nat, hi: nat)
    requires lo <= hi <= |s| && Sorted(s[lo..hi])
    ensures SortedRange(s, lo, hi)
  {
    forall i, j | lo <= i < j < hi
      ensures s[i] <= s[j]
    {
      assert s[i] == s[lo..hi][i - lo] && s[j] == s[lo..hi][j - lo];
    }
  }

  /** After the partition and the two recursive sorts, the range is sorted:
      the first part is no larger than the split value x, the second no
      smaller, and a pivot left out of both sits between them. */
  lemma SortedAroundSplit(s0: seq<int>, s1: seq<int>, s2: seq<int>, s3: seq<int>, l: nat, p: nat, incr: nat, r: nat, x: int)
    requires SplitAround(s0, s1, l, r, p, incr, x)
    requires Permuted(s1, s2, l, p) && SortedRange(s2, l, p)
    requires Permuted(s2, s3, p + incr, r) && SortedRange(s3, p + incr, r)
    ensures Permuted(s0, s3, l, r) && SortedRange(s3, l, r)
  {
    SplitStaysSorted(s1, s2, s3, l, p, incr, r, x);
    PermutedWiden(s1, s2, l, p, l, r);
    PermutedWiden(s2, s3, p + incr, r, l, r);
    PermutedTrans(s1, s2, s3, l, r);
    PermutedTrans(s0, s1, s3, l, r);
  }

  lemma SplitStaysSorted(s1: seq<int>, s2: seq<int>, s3: seq<int>, l: nat, p: nat, incr: nat, r: nat, x: int)
    requires 0 <= incr <= 1 && l <= p < r && l < p + incr <= r <= |s1|
    requires AllAtMost(s1, l, p, x) && AllAtLeast(s1, p, r, x) && (incr == 1 ==> s1[p] == x)
    requires Permuted(s1, s2, l, p) && SortedRange(s2, l, p)
    requires Permuted(s2, s3, p + incr, r) && SortedRange(s3, p + incr, r)
    ensures SortedRange(s3, l, r)
  {
    PermutedKeepsBounds(s1, s2, l, p, x);
    assert AllAtLeast(s2, p + incr, r, x);
    PermutedKeepsBounds(s2, s3, p + incr, r, x);
    assert AllAtMost(s3, l, p, x) && SortedRange(s3, l, p);
    assert AllAtLeast(s3, p, r, x) && SortedRange(s3, p, r);
    SortedJoin(s3, l, p, r, x);
  }
}

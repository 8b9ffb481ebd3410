/** What the sorting routines of assignment 7 promise, over the array's
    contents as a sequence.  Ranges are half-open, [lo, hi), as in the C++
    code. */
module SortSpec {

  /** Slots lo..hi-1 are in non-decreasing order. */
  ghost predicate SortedRange(s: seq<int>, lo: int, hi: int)
  {
    forall i, j | lo <= i < j < hi && 0 <= i && j < |s| :: s[i] <= s[j]
  }

  ghost predicate Sorted(s: seq<int>)
  {
    SortedRange(s, 0, |s|)
  }

  /** t is s with the slots of [lo, hi) rearranged among themselves and every
      other slot kept. */
  ghost predicate Permuted(s: seq<int>, t: seq<int>, lo: int, hi: int)
  {
    |t| == |s| && 0 <= lo <= hi <= |s| &&
    (forall k | 0 <= k < |s| && !(lo <= k < hi) :: t[k] == s[k]) &&
    multiset(s[lo..hi]) == multiset(t[lo..hi])
  }

  ghost predicate AllAtMost(s: seq<int>, lo: int, hi: int, x: int)
  {
    forall k | lo <= k < hi && 0 <= k < |s| :: s[k] <= x
  }

  ghost predicate AllAtLeast(s: seq<int>, lo: int, hi: int, x: int)
  {
    forall k | lo <= k < hi && 0 <= k < |s| :: x <= s[k]
  }

  lemma PermutedRefl(s: seq<int>, lo: int, hi: int)
    requires 0 <= lo <= hi <= |s|
    ensures Permuted(s, s, lo, hi)
  {
  }

  lemma PermutedTrans(s: seq<int>, t: seq<int>, u: seq<int>, lo: int, hi: int)
    requires Permuted(s, t, lo, hi) && Permuted(t, u, lo, hi)
    ensures Permuted(s, u, lo, hi)
  {
  }

  /** A rearrangement of a sub-range is a rearrangement of any range around
      it. */
  lemma PermutedWiden(s: seq<int>, t: seq<int>, lo: int, hi: int, lo': int, hi': int)
    requires Permuted(s, t, lo, hi) && 0 <= lo' <= lo && hi <= hi' <= |s|
    ensures Permuted(s, t, lo', hi')
  {
    assert s[lo'..hi'] == s[lo'..lo] + s[lo..hi] + s[hi..hi'];
    assert t[lo'..hi'] == t[lo'..lo] + t[lo..hi] + t[hi..hi'];
    assert s[lo'..lo] == t[lo'..lo] && s[hi..hi'] == t[hi..hi'];
  }

  lemma SwapPermuted(s: seq<int>, i: int, j: int, lo: int, hi: int)
    requires 0 <= lo <= i < hi <= |s| && lo <= j < hi
    ensures Permuted(s, s[i := s[j]][j := s[i]], lo, hi)
  {
    var t := s[i := s[j]][j := s[i]];
    assert t[lo..hi] == s[lo..hi][i - lo := s[j]][j - lo := s[i]];
  }

  /** Rearranging a range keeps any bound on its values. */
  lemma PermutedKeepsBounds(s: seq<int>, t: seq<int>, lo: int, hi: int, x: int)
    requires Permuted(s, t, lo, hi)
    ensures AllAtMost(s, lo, hi, x) ==> AllAtMost(t, lo, hi, x)
    ensures AllAtLeast(s, lo, hi, x) ==> AllAtLeast(t, lo, hi, x)
  {
    forall k | lo <= k < hi
      ensures exists j | lo <= j < hi :: s[j] == t[k]
    {
      assert t[k] == t[lo..hi][k - lo];
      assert t[k] in multiset(s[lo..hi]);
      var j :| lo <= j < hi && s[j] == t[k] by {
        assert t[k] in s[lo..hi];
        var m :| 0 <= m < hi - lo && s[lo..hi][m] == t[k];
        assert s[lo + m] == t[k];
      }
    }
  }

  /** Two sorted ranges, the first no larger than x and the second no smaller,
      form one sorted range. */
  lemma SortedJoin(s: seq<int>, lo: int, mid: int, hi: int, x: int)
    requires 0 <= lo <= mid <= hi <= |s|
    requires SortedRange(s, lo, mid) && SortedRange(s, mid, hi)
    requires AllAtMost(s, lo, mid, x) && AllAtLeast(s, mid, hi, x)
    ensures SortedRange(s, lo, hi)
  {
  }

  // ---------------------------------------------------------------------
  // Insertion

  /** Where the shifting loop of insertion sort stops: just after the last
      element no larger than v, or at the front. */
  function InsertionPoint(s: seq<int>, v: int): (k: nat)
    ensures k <= |s|
    ensures k < |s| ==> v < s[k]
    ensures k > 0 ==> s[k - 1] <= v
  {
    if |s| == 0 || s[|s| - 1] <= v then |s| else InsertionPoint(s[..|s| - 1], v)
  }

  /** The sorted prefix with v inserted at its insertion point. */
  function Insert(s: seq<int>, v: int): (r: seq<int>)
    ensures |r| == |s| + 1
  {
    var k := InsertionPoint(s, v);
    s[..k] + [v] + s[k..]
  }

  /** Everything after the insertion point exceeds v. */
  lemma {:induction false} AboveInsertionPoint(s: seq<int>, v: int)
    ensures forall i | InsertionPoint(s, v) <= i < |s| :: v < s[i]
    decreases |s|
  {
    if |s| > 0 && s[|s| - 1] > v {
      AboveInsertionPoint(s[..|s| - 1], v);
    }
  }

  lemma InsertElements(s: seq<int>, v: int)
    ensures multiset(Insert(s, v)) == multiset(s) + multiset{v}
  {
    var k := InsertionPoint(s, v);
    assert s == s[..k] + s[k..];
  }

  lemma InsertSorted(s: seq<int>, v: int)
    requires Sorted(s)
    ensures Sorted(Insert(s, v))
  {
    var k := InsertionPoint(s, v);
    var r := Insert(s, v);
    AboveInsertionPoint(s, v);
    forall i, j | 0 <= i < j < |r|
      ensures r[i] <= r[j]
    {
      if j < k || i > k {
      } else if i == k {
        assert r[j] == s[j - 1];
      } else if j == k {
        assert r[i] == s[i] && s[i] <= s[k - 1];
      } else {
        assert r[i] == s[i] && r[j] == s[j - 1];
      }
    }
  }

  // ---------------------------------------------------------------------
  // Merging

  /** merge: the smaller head goes first; on a tie the head of the second
      run does. */
  function Merge(x: seq<int>, y: seq<int>): (r: seq<int>)
    ensures |r| == |x| + |y|
    decreases |x| + |y|
  {
    if |x| == 0 then y
    else if |y| == 0 then x
    else if x[0] < y[0] then [x[0]] + Merge(x[1..], y)
    else [y[0]] + Merge(x, y[1..])
  }

  lemma {:induction false} MergeElements(x: seq<int>, y: seq<int>)
    ensures multiset(Merge(x, y)) == multiset(x) + multiset(y)
    decreases |x| + |y|
  {
    if |x| > 0 && |y| > 0 {
      if x[0] < y[0] {
        MergeElements(x[1..], y);
        assert x == [x[0]] + x[1..];
        assert multiset(Merge(x, y)) == multiset{x[0]} + multiset(Merge(x[1..], y));
      } else {
        MergeElements(x, y[1..]);
        assert y == [y[0]] + y[1..];
        assert multiset(Merge(x, y)) == multiset{y[0]} + multiset(Merge(x, y[1..]));
      }
    }
  }

  /** The head of a merge is the head of one of the runs. */
  lemma MergeHead(x: seq<int>, y: seq<int>)
    requires |x| + |y| > 0
    ensures (|x| > 0 && Merge(x, y)[0] == x[0]) || (|y| > 0 && Merge(x, y)[0] == y[0])
  {
  }

  lemma {:induction false} MergeSorted(x: seq<int>, y: seq<int>)
    requires Sorted(x) && Sorted(y)
    ensures Sorted(Merge(x, y))
    decreases |x| + |y|
  {
    if |x| > 0 && |y| > 0 {
      if x[0] < y[0] {
        MergeSorted(x[1..], y);
        if |x| > 1 || |y| > 0 {
          MergeHead(x[1..], y);
        }
        HeadThenSorted(x[0], Merge(x[1..], y), x, y);
      } else {
        MergeSorted(x, y[1..]);
        MergeHead(x, y[1..]);
        HeadThenSorted(y[0], Merge(x, y[1..]), x, y);
      }
    }
  }

  /** Putting a value no larger than either run's head in front of a sorted
      merge keeps it sorted. */
  lemma HeadThenSorted(h: int, m: seq<int>, x: seq<int>, y: seq<int>)
    requires Sorted(m) && Sorted(x) && Sorted(y) && |x| > 0 && |y| > 0
    requires h <= x[0] && h <= y[0]
    requires |m| > 0 ==> m[0] in x || m[0] in y
    ensures Sorted([h] + m)
  {
    if |m| > 0 {
      assert h <= m[0];
    }
  }

  // ---------------------------------------------------------------------
  // Any two sorts agree

  /** A sorted arrangement of a multiset is unique, so every correct sort of
      the same input gives the same output. */
  lemma {:induction false} SortedUnique(s: seq<int>, t: seq<int>)
    requires Sorted(s) && Sorted(t) && multiset(s) == multiset(t)
    ensures s == t
    decreases |s|
  {
    assert |t| == |multiset(t)| == |multiset(s)| == |s|;
    if |s| > 0 {
      SortedHeadIsMin(s);
      SortedHeadIsMin(t);
      assert s[0] in multiset(t) && t[0] in multiset(s);
      TailElements(s, t);
      SortedUnique(s[1..], t[1..]);
      assert s == [s[0]] + s[1..] && t == [t[0]] + t[1..];
    }
  }

  lemma TailElements(s: seq<int>, t: seq<int>)
    requires |s| > 0 && |t| > 0 && s[0] == t[0] && multiset(s) == multiset(t)
    ensures multiset(s[1..]) == multiset(t[1..])
  {
    assert s == [s[0]] + s[1..] && t == [t[0]] + t[1..];
    forall x
      ensures multiset(s[1..])[x] == multiset(t[1..])[x]
    {
      assert multiset(s)[x] == multiset{s[0]}[x] + multiset(s[1..])[x];
      assert multiset(t)[x] == multiset{t[0]}[x] + multiset(t[1..])[x];
    }
  }

  lemma SortedHeadIsMin(s: seq<int>)
    requires Sorted(s) && |s| > 0
    ensures forall x | x in multiset(s) :: s[0] <= x
  {
    forall x | x in multiset(s)
      ensures s[0] <= x
    {
      var i :| 0 <= i < |s| && s[i] == x;
    }
  }
}

/** find_min_travel_cost (assignment-9/2.cpp): n cities are visited once
    each; visiting city i costs A[i][i] plus A[i][j] for every city j visited
    before it.  The table C[m][i] holds the cheapest way to visit exactly the
    cities of the bit mask m ending at i, filled mask by mask in increasing
    order; the answer is the cheapest entry of the full mask's row. */
module TravelCost {

  /** A table entry: `Inf` is the sentinel std::numeric_limits<long>::max()
      the table is filled with, larger than every finite cost. */
  datatype Cost = Inf | Fin(value: int)

  predicate Less(a: Cost, b: Cost)
  {
    match (a, b)
    case (Fin(x), Fin(y)) => x < y
    case (Fin(_), Inf) => true
    case (Inf, _) => false
  }

  /** std::min(a, b): b only when it is strictly smaller. */
  function MinCost(a: Cost, b: Cost): (r: Cost)
    ensures r == a || r == b
    ensures !Less(a, r) && !Less(b, r)
  {
    if Less(b, a) then b else a
  }

  // ---------------------------------------------------------------------
  // Bit masks

  /** 1 << k */
  function Pow2(k: nat): (r: nat)
    ensures r >= 1
  {
    if k == 0 then 1 else 2 * Pow2(k - 1)
  }

  /** (m & (1 << i)) != 0: bit i of m is set. */
  predicate Has(m: nat, i: nat)
  {
    if i == 0 then m % 2 == 1 else Has(m / 2, i - 1)
  }

  lemma {:induction false} NoBits(j: nat)
    ensures !Has(0, j)
  {
    if j > 0 {
      NoBits(j - 1);
    }
  }

  /** Setting a clear bit i (m | 1 << i, which is m + 2^i) sets bit i and
      no other. */
  lemma {:induction false} AddBit(m: nat, i: nat)
    requires !Has(m, i)
    ensures Has(m + Pow2(i), i)
    ensures forall j: nat | j != i :: Has(m + Pow2(i), j) == Has(m, j)
  {
    var m' := m + Pow2(i);
    if i == 0 {
      assert m' / 2 == m / 2;
      forall j: nat | j != 0
        ensures Has(m', j) == Has(m, j)
      {
      }
    } else {
      var h := Pow2(i - 1);
      assert m' / 2 == m / 2 + h && m' % 2 == m % 2;
      AddBit(m / 2, i - 1);
      forall j: nat | j != i
        ensures Has(m', j) == Has(m, j)
      {
        if j > 0 {
          assert Has(m', j) == Has(m / 2 + h, j - 1);
        }
      }
    }
  }

  /** Clearing a set bit i (m - 2^i) clears bit i and no other. */
  lemma {:induction false} RemoveBit(m: nat, i: nat)
    requires Has(m, i)
    ensures m >= Pow2(i) && !Has(m - Pow2(i), i)
    ensures forall j: nat | j != i :: Has(m - Pow2(i), j) == Has(m, j)
  {
    if i == 0 {
      var m' := m - 1;
      assert m' / 2 == m / 2;
      forall j: nat | j != 0
        ensures Has(m', j) == Has(m, j)
      {
      }
    } else {
      var h := Pow2(i - 1);
      RemoveBit(m / 2, i - 1);
      var m' := m - Pow2(i);
      assert m' / 2 == m / 2 - h && m' % 2 == m % 2;
      forall j: nat | j != i
        ensures Has(m', j) == Has(m, j)
      {
        if j > 0 {
          assert Has(m', j) == Has(m / 2 - h, j - 1);
        }
      }
    }
  }

  /** A mask below 2^n with bit i clear stays below 2^n when bit i < n is
      set. */
  lemma {:induction false} AddBound(m: nat, i: nat, n: nat)
    requires m < Pow2(n) && i < n && !Has(m, i)
    ensures m + Pow2(i) < Pow2(n)
  {
    var h := Pow2(n - 1);
    assert Pow2(n) == 2 * h;
    assert m == 2 * (m / 2) + m % 2;
    assert m / 2 < h;
    if i > 0 {
      AddBound(m / 2, i - 1, n - 1);
      assert Pow2(i) == 2 * Pow2(i - 1);
    }
  }

  /** n_mask - 1: the mask of all n cities. */
  function Full(n: nat): (r: nat)
    ensures r < Pow2(n)
    ensures forall j: nat | j < n :: Has(r, j)
  {
    FullBits(n, Pow2(n) - 1);
    Pow2(n) - 1
  }

  /** The full mask 2^n - 1 has bits 0 .. n-1 set. */
  lemma {:induction false} FullBits(n: nat, f: nat)
    requires f == Pow2(n) - 1
    ensures forall j: nat | j < n :: Has(f, j)
  {
    if n > 0 {
      assert Pow2(n) == 2 * Pow2(n - 1);
      assert f / 2 == Pow2(n - 1) - 1 && f % 2 == 1;
      FullBits(n - 1, f / 2);
      forall j: nat | j < n
        ensures Has(f, j)
      {
        if j > 0 {
          assert Has(f, j) == Has(f / 2, j - 1);
        }
      }
    }
  }

  /** Two masks below 2^n with the same bits 0 .. n-1 are equal. */
  lemma {:induction false} SameBits(m: nat, m': nat, n: nat)
    requires m < Pow2(n) && m' < Pow2(n)
    requires forall j: nat | j < n :: Has(m, j) == Has(m', j)
    ensures m == m'
  {
    if n > 0 {
      assert Has(m, 0) == Has(m', 0);
      forall j: nat | j < n - 1
        ensures Has(m / 2, j) == Has(m' / 2, j)
      {
        assert Has(m, j + 1) == Has(m', j + 1);
      }
      SameBits(m / 2, m' / 2, n - 1);
    }
  }

  /** A non-empty mask below 2^n has a set bit below n. */
  lemma {:induction false} SomeBit(m: nat, n: nat) returns (q: nat)
    requires 0 < m < Pow2(n)
    ensures q < n && Has(m, q)
  {
    if m % 2 == 1 {
      q := 0;
    } else {
      var q' := SomeBit(m / 2, n - 1);
      q := q' + 1;
    }
  }

  // ---------------------------------------------------------------------
  // Costs

  ghost predicate Square(A: seq<seq<int>>, n: nat)
  {
    |A| == n && forall i | 0 <= i < n :: |A[i]| == n
  }

  /** The sum of A[i][j] over the cities j < k of the mask m. */
  function RowSum(A: seq<seq<int>>, n: nat, i: nat, m: nat, k: nat): int
    requires Square(A, n) && i < n && k <= n
  {
    if k == 0 then 0 else RowSum(A, n, i, m, k - 1) + (if Has(m, k - 1) then A[i][k - 1] else 0)
  }

  /** What visiting i after the cities of m costs. */
  function Step(A: seq<seq<int>>, n: nat, m: nat, i: nat): int
    requires Square(A, n) && i < n
  {
    A[i][i] + RowSum(A, n, i, m, n)
  }

  /** C[m][i] once final: the cheapest way to visit the cities of m, ending
      at i. */
  function Opt(A: seq<seq<int>>, n: nat, m: nat, i: nat): Cost
    requires Square(A, n) && i < n && Has(m, i)
    decreases m, 0, 0
  {
    if m == Pow2(i) then Fin(A[i][i])
    else
      RemoveBit(m, i);
      MinOver(A, n, m - Pow2(i), i, n)
  }

  /** The updates C[pred | 1 << i][i] = min(.., C[pred][p] + s) for the
      cities p < P of pred, in increasing order of p. */
  function MinOver(A: seq<seq<int>>, n: nat, pred: nat, i: nat, P: nat): Cost
    requires Square(A, n) && i < n && P <= n
    decreases pred, 1, P
  {
    if P == 0 then Inf
    else
      var rest := MinOver(A, n, pred, i, P - 1);
      if Has(pred, P - 1) then
        match Opt(A, n, pred, P - 1)
        case Inf => rest
        case Fin(c) => MinCost(rest, Fin(c + Step(A, n, pred, i)))
      else rest
  }

  /** std::min_element over the first k entries of the full mask's row. */
  function MinEnd(A: seq<seq<int>>, n: nat, k: nat): Cost
    requires Square(A, n) && 1 <= k <= n
  {
    if k == 1 then Opt(A, n, Full(n), 0)
    else MinCost(MinEnd(A, n, k - 1), Opt(A, n, Full(n), k - 1))
  }

  // ---------------------------------------------------------------------
  // Visit orders

  ghost predicate Distinct(t: seq<nat>)
  {
    forall a, b | 0 <= a < b < |t| :: t[a] != t[b]
  }

  ghost predicate InRange(t: seq<nat>, n: nat)
  {
    forall k | 0 <= k < |t| :: t[k] < n
  }

  /** t visits each of the n cities exactly once. */
  ghost predicate IsTour(t: seq<nat>, n: nat)
  {
    Distinct(t) && InRange(t, n) && forall j: nat | j < n :: j in t
  }

  /** The sum of A[c][d] over the cities d of t. */
  ghost function EarlierSum(A: seq<seq<int>>, n: nat, c: nat, t: seq<nat>): int
    requires Square(A, n) && c < n && InRange(t, n)
  {
    if |t| == 0 then 0 else EarlierSum(A, n, c, t[..|t| - 1]) + A[c][t[|t| - 1]]
  }

  /** The cost of visiting the cities in the order t: each city's own cost
      plus its costs towards the cities visited before it. */
  ghost function TourCost(A: seq<seq<int>>, n: nat, t: seq<nat>): int
    requires Square(A, n) && InRange(t, n)
  {
    if |t| == 0 then 0
    else
      var c := t[|t| - 1];
      TourCost(A, n, t[..|t| - 1]) + A[c][c] + EarlierSum(A, n, c, t[..|t| - 1])
  }

  /** The mask of the cities of t. */
  ghost function MaskOf(t: seq<nat>): nat
  {
    if |t| == 0 then 0 else MaskOf(t[..|t| - 1]) + Pow2(t[|t| - 1])
  }

  lemma {:induction false} MaskBits(t: seq<nat>, n: nat)
    requires Distinct(t) && InRange(t, n)
    ensures MaskOf(t) < Pow2(n)
    ensures forall j: nat :: Has(MaskOf(t), j) <==> j in t
  {
    if |t| == 0 {
      forall j: nat {
        NoBits(j);
      }
    } else {
      var t', c := t[..|t| - 1], t[|t| - 1];
      MaskBits(t', n);
      assert c !in t';
      AddBit(MaskOf(t'), c);
      AddBound(MaskOf(t'), c, n);
      assert t == t' + [c];
    }
  }

  lemma {:induction false} RowSumAdd(A: seq<seq<int>>, n: nat, c: nat, m: nat, d: nat, k: nat)
    requires Square(A, n) && c < n && d < n && k <= n && !Has(m, d)
    ensures RowSum(A, n, c, m + Pow2(d), k) == RowSum(A, n, c, m, k) + (if d < k then A[c][d] else 0)
  {
    AddBit(m, d);
    if k > 0 {
      RowSumAdd(A, n, c, m, d, k - 1);
    }
  }

  /** Summing over the earlier cities of t is summing over the bits of its
      mask. */
  lemma {:induction false} EarlierIsRowSum(A: seq<seq<int>>, n: nat, c: nat, t: seq<nat>)
    requires Square(A, n) && c < n && Distinct(t) && InRange(t, n)
    ensures EarlierSum(A, n, c, t) == RowSum(A, n, c, MaskOf(t), n)
  {
    if |t| == 0 {
      ZeroRowSum(A, n, c, n);
    } else {
      var t', d := t[..|t| - 1], t[|t| - 1];
      EarlierIsRowSum(A, n, c, t');
      MaskBits(t', n);
      RowSumAdd(A, n, c, MaskOf(t'), d, n);
    }
  }

  lemma {:induction false} ZeroRowSum(A: seq<seq<int>>, n: nat, c: nat, k: nat)
    requires Square(A, n) && c < n && k <= n
    ensures RowSum(A, n, c, 0, k) == 0
  {
    if k > 0 {
      NoBits(k - 1);
      ZeroRowSum(A, n, c, k - 1);
    }
  }

  // ---------------------------------------------------------------------
  // The table's values are the cheapest visit orders

  /** The running minimum is no larger than any candidate it has seen. */
  lemma {:induction false} MinOverAtMost(A: seq<seq<int>>, n: nat, pred: nat, i: nat, P: nat, p: nat)
    requires Square(A, n) && i < n && p < P <= n && Has(pred, p) && Opt(A, n, pred, p).Fin?
    ensures MinOver(A, n, pred, i, P).Fin?
    ensures MinOver(A, n, pred, i, P).value <= Opt(A, n, pred, p).value + Step(A, n, pred, i)
  {
    if p < P - 1 {
      MinOverAtMost(A, n, pred, i, P - 1, p);
    }
  }

  /** A finite running minimum is one of the candidates. */
  lemma {:induction false} MinOverAttained(A: seq<seq<int>>, n: nat, pred: nat, i: nat, P: nat) returns (p: nat)
    requires Square(A, n) && i < n && P <= n && MinOver(A, n, pred, i, P).Fin?
    ensures p < P && Has(pred, p) && Opt(A, n, pred, p).Fin?
    ensures MinOver(A, n, pred, i, P).value == Opt(A, n, pred, p).value + Step(A, n, pred, i)
  {
    var rest := MinOver(A, n, pred, i, P - 1);
    if Has(pred, P - 1) && Opt(A, n, pred, P - 1).Fin? &&
       MinOver(A, n, pred, i, P) != rest {
      p := P - 1;
    } else {
      p := MinOverAttained(A, n, pred, i, P - 1);
    }
  }

  /** Every mask below 2^n can be visited ending at any of its cities. */
  lemma {:induction false} OptFinite(A: seq<seq<int>>, n: nat, m: nat, i: nat)
    requires Square(A, n) && i < n && Has(m, i) && m < Pow2(n)
    ensures Opt(A, n, m, i).Fin?
    decreases m
  {
    if m != Pow2(i) {
      RemoveBit(m, i);
      var pred := m - Pow2(i);
      var q := SomeBit(pred, n);
      OptFinite(A, n, pred, q);
      MinOverAtMost(A, n, pred, i, n, q);
    }
  }

  /** No order visiting the cities of t is cheaper than the table entry for
      its mask and last city. */
  lemma {:induction false} OptLowerBound(A: seq<seq<int>>, n: nat, t: seq<nat>)
    requires Square(A, n) && |t| > 0 && Distinct(t) && InRange(t, n)
    ensures Has(MaskOf(t), t[|t| - 1]) && Opt(A, n, MaskOf(t), t[|t| - 1]).Fin?
    ensures Opt(A, n, MaskOf(t), t[|t| - 1]).value <= TourCost(A, n, t)
    decreases |t|
  {
    var t', c := t[..|t| - 1], t[|t| - 1];
    var m', m := MaskOf(t'), MaskOf(t);
    MaskBits(t, n);
    MaskBits(t', n);
    assert c !in t' by {
      assert forall k | 0 <= k < |t'| :: t'[k] == t[k];
    }
    AddBit(m', c);
    EarlierIsRowSum(A, n, c, t');
    if |t'| == 0 {
      ZeroRowSum(A, n, c, n);
    } else {
      var p := t'[|t'| - 1];
      OptLowerBound(A, n, t');
      RemoveBit(m', p);
      assert m != Pow2(c);
      assert m - Pow2(c) == m';
      MinOverAtMost(A, n, m', c, n, p);
    }
  }

  /** Some order of the cities of m ending at i costs exactly the table
      entry. */
  lemma {:induction false} OptAchieved(A: seq<seq<int>>, n: nat, m: nat, i: nat) returns (t: seq<nat>)
    requires Square(A, n) && i < n && Has(m, i) && m < Pow2(n)
    ensures |t| > 0 && Distinct(t) && InRange(t, n) && MaskOf(t) == m && t[|t| - 1] == i
    ensures Opt(A, n, m, i).Fin? && TourCost(A, n, t) == Opt(A, n, m, i).value
    decreases m
  {
    OptFinite(A, n, m, i);
    if m == Pow2(i) {
      t := [i];
      assert t[..0] == [];
    } else {
      RemoveBit(m, i);
      var pred := m - Pow2(i);
      var p := MinOverAttained(A, n, pred, i, n);
      var t' := OptAchieved(A, n, pred, p);
      MaskBits(t', n);
      t := t' + [i];
      assert t[..|t| - 1] == t';
      EarlierIsRowSum(A, n, i, t');
    }
  }

  /** The cheapest entry of the first k of the full row is one of them and
      no larger than any of them. */
  lemma {:induction false} MinEndIsMin(A: seq<seq<int>>, n: nat, k: nat) returns (best: nat)
    requires Square(A, n) && 1 <= k <= n
    ensures best < k && MinEnd(A, n, k) == Opt(A, n, Full(n), best) && MinEnd(A, n, k).Fin?
    ensures forall i: nat | i < k :: !Less(Opt(A, n, Full(n), i), MinEnd(A, n, k))
  {
    OptFinite(A, n, Full(n), k - 1);
    if k == 1 {
      best := 0;
    } else {
      best := MinEndIsMin(A, n, k - 1);
      if MinEnd(A, n, k) != MinEnd(A, n, k - 1) {
        best := k - 1;
      }
    }
  }

  /** The cheapest entry of the full row is the cost of the cheapest tour. */
  lemma CheapestTour(A: seq<seq<int>>, n: nat)
    requires Square(A, n) && 1 <= n
    ensures MinEnd(A, n, n).Fin?
    ensures forall t | IsTour(t, n) :: MinEnd(A, n, n).value <= TourCost(A, n, t)
    ensures exists t :: IsTour(t, n) && TourCost(A, n, t) == MinEnd(A, n, n).value
  {
    var best := MinEndIsMin(A, n, n);
    var full := Full(n);
    forall t | IsTour(t, n)
      ensures MinEnd(A, n, n).value <= TourCost(A, n, t)
    {
      assert 0 in t;
      MaskBits(t, n);
      SameBits(MaskOf(t), full, n);
      OptLowerBound(A, n, t);
    }
    var t := OptAchieved(A, n, full, best);
    MaskBits(t, n);
    assert IsTour(t, n);
  }

  // ---------------------------------------------------------------------
  // The table as the loops fill it

  /** C[t][i] after the masks below M are done, and for mask M the cities
      p < P (and p = P for the cities i < I). */
  function Expected(A: seq<seq<int>>, n: nat, t: nat, i: nat, M: nat, P: nat, I: nat): Cost
    requires Square(A, n) && i < n && P <= n && (I > 0 ==> P < n)
  {
    if !Has(t, i) then Inf
    else if t == Pow2(i) then Fin(A[i][i])
    else
      RemoveBit(t, i);
      var pred := t - Pow2(i);
      if pred < M then MinOver(A, n, pred, i, n)
      else if pred == M then MinOver(A, n, M, i, if i < I then P + 1 else P)
      else Inf
  }

  ghost predicate Filled(C: array2<Cost>, A: seq<seq<int>>, n: nat, M: nat, P: nat, I: nat)
    reads C
  {
    Square(A, n) && P <= n && (I > 0 ==> P < n) &&
    C.Length0 == Pow2(n) && C.Length1 == n &&
    forall t, i {:trigger C[t, i]} | 0 <= t < Pow2(n) && 0 <= i < n :: C[t, i] == Expected(A, n, t, i, M, P, I)
  }

  /** The table after std::fill and the singletons. */
  lemma ExpectedAtStart(A: seq<seq<int>>, n: nat, t: nat, i: nat)
    requires Square(A, n) && i < n
    ensures Expected(A, n, t, i, 1, 0, 0) == if t == Pow2(i) then Fin(A[i][i]) else Inf
  {
    if t == Pow2(i) {
      NoBits(i);
      AddBit(0, i);
    } else if Has(t, i) {
      RemoveBit(t, i);
    }
  }

  /** A final entry of the current mask is the cheapest order. */
  lemma ExpectedFinal(A: seq<seq<int>>, n: nat, m: nat, p: nat, P: nat, I: nat)
    requires Square(A, n) && p < n && P <= n && (I > 0 ==> P < n) && Has(m, p)
    ensures Expected(A, n, m, p, m, P, I) == Opt(A, n, m, p)
  {
    RemoveBit(m, p);
  }

  /** One relaxation C[M | 1 << I][I] changes only that entry. */
  lemma ExpectedRelax(A: seq<seq<int>>, n: nat, M: nat, P: nat, I: nat, t: nat, i: nat)
    requires Square(A, n) && P < n && I < n && i < n && M >= 1 && Has(M, P)
    ensures Expected(A, n, t, i, M, P, I + 1) ==
      if t == M + Pow2(I) && i == I && !Has(M, I) then MinOver(A, n, M, I, P + 1)
      else Expected(A, n, t, i, M, P, I)
  {
    if Has(t, i) && t != Pow2(i) {
      RemoveBit(t, i);
    }
    if t == M + Pow2(I) && i == I && !Has(M, I) {
      AddBit(M, I);
    }
  }

  /** The relaxed value is the running minimum with candidate p = P. */
  lemma RelaxValue(A: seq<seq<int>>, n: nat, M: nat, P: nat, I: nat, s: int)
    requires Square(A, n) && P < n && I < n && M >= 1 && Has(M, P) && !Has(M, I)
    requires Opt(A, n, M, P).Fin? && s == Step(A, n, M, I)
    ensures Expected(A, n, M + Pow2(I), I, M, P, I) == MinOver(A, n, M, I, P)
    ensures MinOver(A, n, M, I, P + 1) == MinCost(MinOver(A, n, M, I, P), Fin(Opt(A, n, M, P).value + s))
  {
    AddBit(M, I);
    RemoveBit(M + Pow2(I), I);
  }

  /** A city p outside the mask adds no candidate. */
  lemma ExpectedSkip(A: seq<seq<int>>, n: nat, M: nat, P: nat, t: nat, i: nat)
    requires Square(A, n) && P < n && i < n && !Has(M, P)
    ensures Expected(A, n, t, i, M, P + 1, 0) == Expected(A, n, t, i, M, P, 0)
  {
  }

  /** After the last city of mask M its targets are final. */
  lemma ExpectedNextMask(A: seq<seq<int>>, n: nat, M: nat, t: nat, i: nat)
    requires Square(A, n) && i < n
    ensures Expected(A, n, t, i, M, n, 0) == Expected(A, n, t, i, M + 1, 0, 0)
  {
  }

  /** The innermost loop: s = A[i][i] plus A[i][j] for each j of m. */
  method StepCost(A: seq<seq<int>>, n: nat, m: nat, i: nat) returns (s: int)
    requires Square(A, n) && i < n
    ensures s == Step(A, n, m, i)
  {
    s := A[i][i];
    for j := 0 to n
      invariant s == A[i][i] + RowSum(A, n, i, m, j)
    {
      s := s + A[i][j] * (if Has(m, j) then 1 else 0);
    }
  }

  /** The loop over i for a fixed mask m and a city p of m. */
  method RelaxFrom(C: array2<Cost>, A: seq<seq<int>>, n: nat, m: nat, p: nat)
    requires 1 <= m < Pow2(n) && p < n && Has(m, p) && Filled(C, A, n, m, p, 0)
    modifies C
    ensures Filled(C, A, n, m, p + 1, 0)
  {
    ExpectedFinal(A, n, m, p, p, 0);
    OptFinite(A, n, m, p);
    for i := 0 to n
      invariant Filled(C, A, n, m, p, i)
      invariant C[m, p] == Opt(A, n, m, p)
    {
      if !Has(m, i) {
        var s := StepCost(A, n, m, i);
        AddBound(m, i, n);
        var t := m + Pow2(i);
        RelaxValue(A, n, m, p, i, s);
        assert C[t, i] == Expected(A, n, t, i, m, p, i);
        C[t, i] := MinCost(C[t, i], Fin(C[m, p].value + s));
      }
      forall t', i' | 0 <= t' < Pow2(n) && 0 <= i' < n
        ensures C[t', i'] == Expected(A, n, t', i', m, p, i + 1)
      {
        ExpectedRelax(A, n, m, p, i, t', i');
      }
      ExpectedFinal(A, n, m, p, p, i + 1);
    }
  }

  /** std::fill with the sentinel, then C[1 << i][i] = A[i][i]. */
  method StartTable(A: seq<seq<int>>, n: nat) returns (C: array2<Cost>)
    requires Square(A, n)
    ensures fresh(C) && Filled(C, A, n, 1, 0, 0)
  {
    var nMask := Pow2(n);
    C := new Cost[nMask, n]((_, _) => Inf);
    for i := 0 to n
      invariant forall t, i' {:trigger C[t, i']} | 0 <= t < nMask && 0 <= i' < n ::
        C[t, i'] == if t == Pow2(i') && i' < i then Fin(A[i'][i']) else Inf
    {
      NoBits(i);
      AddBound(0, i, n);
      C[Pow2(i), i] := Fin(A[i][i]);
    }
    forall t, i | 0 <= t < nMask && 0 <= i < n
      ensures C[t, i] == Expected(A, n, t, i, 1, 0, 0)
    {
      ExpectedAtStart(A, n, t, i);
    }
  }

  /** The loops over the masks m = 1 .. n_mask - 1 and their cities p. */
  method FillMasks(C: array2<Cost>, A: seq<seq<int>>, n: nat)
    requires Filled(C, A, n, 1, 0, 0)
    modifies C
    ensures Filled(C, A, n, Pow2(n), 0, 0)
  {
    var nMask := Pow2(n);
    var m := 1;
    while m < nMask
      invariant 1 <= m <= nMask && Filled(C, A, n, m, 0, 0)
    {
      for p := 0 to n
        invariant Filled(C, A, n, m, p, 0)
      {
        if Has(m, p) {
          RelaxFrom(C, A, n, m, p);
        } else {
          forall t, i | 0 <= t < nMask && 0 <= i < n
            ensures C[t, i] == Expected(A, n, t, i, m, p + 1, 0)
          {
            ExpectedSkip(A, n, m, p, t, i);
          }
        }
      }
      forall t, i | 0 <= t < nMask && 0 <= i < n
        ensures C[t, i] == Expected(A, n, t, i, m + 1, 0, 0)
      {
        ExpectedNextMask(A, n, m, t, i);
      }
      m := m + 1;
    }
  }

  /** find_min_travel_cost(n, A): the cost of the cheapest order of visiting
      all n cities. */
  method FindMinTravelCost(n: nat, A: seq<seq<int>>) returns (r: int)
    requires 1 <= n && Square(A, n)
    ensures Fin(r) == MinEnd(A, n, n)
    ensures forall t | IsTour(t, n) :: r <= TourCost(A, n, t)
    ensures exists t :: IsTour(t, n) && TourCost(A, n, t) == r
  {
    var C := StartTable(A, n);
    FillMasks(C, A, n);
    var full := Pow2(n) - 1;
    assert full == Full(n);
    forall i | 0 <= i < n
      ensures C[full, i] == Opt(A, n, full, i)
    {
      ExpectedFinal(A, n, full, i, 0, 0);
      RemoveBit(full, i);
    }
    var best := 0;
    for k := 1 to n
      invariant best < k && C[full, best] == MinEnd(A, n, k)
    {
      if Less(C[full, k], C[full, best]) {
        best := k;
      }
    }
    var _ := MinEndIsMin(A, n, n);
    r := C[full, best].value;
    CheapestTour(A, n);
  }
}

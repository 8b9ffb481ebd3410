/** find_lcs (assignment-9/1.cpp): the longest common subsequence of two
    strings, from a table L of prefix results filled row by row and a
    traceback from its last cell.

    The code as written compares x[i] with y[i] where y[j] is meant, and its
    traceback takes the diagonal step on the table value alone.  Both
    readings are modelled: `AsWritten` follows the code, `Intended` compares
    x[i] with y[j] and steps diagonally only over a matching pair. */
module Lcs {

  datatype Version = AsWritten | Intended

  const NUL: char := 0 as char

  // ---------------------------------------------------------------------
  // Subsequences

  /** z can be obtained from s by deleting characters: either the last
      characters are kept as a pair, or the last character of s is
      deleted. */
  predicate IsSubsequence(z: string, s: string)
    decreases |s|
  {
    |z| == 0 ||
    (|s| > 0 &&
     ((z[|z| - 1] == s[|s| - 1] && IsSubsequence(z[..|z| - 1], s[..|s| - 1])) ||
      IsSubsequence(z, s[..|s| - 1])))
  }

  /** A subsequence of s is no longer than s. */
  lemma {:induction false} SubsequenceShorter(z: string, s: string)
    requires IsSubsequence(z, s)
    ensures |z| <= |s|
    decreases |s|
  {
    if |z| > 0 {
      if z[|z| - 1] == s[|s| - 1] && IsSubsequence(z[..|z| - 1], s[..|s| - 1]) {
        SubsequenceShorter(z[..|z| - 1], s[..|s| - 1]);
      } else {
        SubsequenceShorter(z, s[..|s| - 1]);
      }
    }
  }

  /** Deleting the last character of a subsequence leaves a subsequence. */
  lemma {:induction false} DropLast(z: string, s: string)
    requires IsSubsequence(z, s) && |z| > 0
    ensures IsSubsequence(z[..|z| - 1], s)
    decreases |s|
  {
    var s' := s[..|s| - 1];
    if !(z[|z| - 1] == s[|s| - 1] && IsSubsequence(z[..|z| - 1], s')) {
      DropLast(z, s');
    }
  }

  /** A subsequence whose last character differs from the last character of
      s is a subsequence of s without it. */
  lemma LastDiffers(z: string, s: string)
    requires IsSubsequence(z, s) && |z| > 0 && z[|z| - 1] != s[|s| - 1]
    ensures IsSubsequence(z, s[..|s| - 1])
  {
  }

  /** When the last characters agree, the rest of z is a subsequence of the
      rest of s. */
  lemma LastAgrees(z: string, s: string)
    requires IsSubsequence(z, s) && |z| > 0 && z[|z| - 1] == s[|s| - 1]
    ensures IsSubsequence(z[..|z| - 1], s[..|s| - 1])
  {
    if !IsSubsequence(z[..|z| - 1], s[..|s| - 1]) {
      DropLast(z, s[..|s| - 1]);
    }
  }

  /** z is a common subsequence of x and y, and no common subsequence is
      longer. */
  ghost predicate IsLongestCommon(z: string, x: string, y: string)
  {
    IsSubsequence(z, x) && IsSubsequence(z, y) &&
    forall w | IsSubsequence(w, x) && IsSubsequence(w, y) :: |w| <= |z|
  }

  // ---------------------------------------------------------------------
  // The table

  /** y[k] as std::string reads it: the terminating NUL at k == |y|. */
  function CharAt(y: string, k: nat): char
    requires k <= |y|
  {
    if k < |y| then y[k] else NUL
  }

  /** The code as written reads y[i] for every row i < |x| as soon as y is
      non-empty; past the terminator that read is undefined. */
  predicate Readable(x: string, y: string, v: Version)
  {
    v == Intended || |y| == 0 || |x| <= |y| + 1
  }

  /** Whether cell (i+1, j+1) counts a match. */
  predicate Matches(x: string, y: string, v: Version, i: nat, j: nat)
    requires i < |x| && j < |y| && Readable(x, y, v)
  {
    match v
    case AsWritten => x[i] == CharAt(y, i)
    case Intended => x[i] == y[j]
  }

  function Max(a: int, b: int): int
  {
    if a < b then b else a
  }

  /** L[i][j]: zero on the first row and column, one more than the diagonal
      on a match, else the larger of the left and upper neighbours. */
  function Table(x: string, y: string, v: Version, i: nat, j: nat): (r: nat)
    requires i <= |x| && j <= |y| && Readable(x, y, v)
    ensures r <= i && r <= j
  {
    if i == 0 || j == 0 then 0
    else if Matches(x, y, v, i - 1, j - 1) then Table(x, y, v, i - 1, j - 1) + 1
    else Max(Table(x, y, v, i, j - 1), Table(x, y, v, i - 1, j))
  }

  /** The loops at the top of find_lcs fill the whole table. */
  method FillTable(x: string, y: string, v: Version) returns (L: array2<int>)
    requires Readable(x, y, v)
    ensures fresh(L) && L.Length0 == |x| + 1 && L.Length1 == |y| + 1
    ensures forall i, j {:trigger L[i, j]} | 0 <= i <= |x| && 0 <= j <= |y| :: L[i, j] == Table(x, y, v, i, j)
  {
    var n, m := |x|, |y|;
    L := new int[n + 1, m + 1];
    for i := 0 to n + 1
      invariant forall a | 0 <= a < i :: L[a, 0] == 0
    {
      L[i, 0] := 0;
    }
    for j := 0 to m + 1
      invariant forall a | 0 <= a <= n :: L[a, 0] == 0
      invariant forall b | 0 <= b < j :: L[0, b] == 0
    {
      L[0, j] := 0;
    }
    for i := 0 to n
      invariant forall a, b {:trigger L[a, b]} | 0 <= a <= i && 0 <= b <= m :: L[a, b] == Table(x, y, v, a, b)
      invariant forall a | i < a <= n :: L[a, 0] == 0
    {
      for j := 0 to m
        invariant forall a, b {:trigger L[a, b]} | 0 <= a <= i && 0 <= b <= m :: L[a, b] == Table(x, y, v, a, b)
        invariant forall b {:trigger L[i + 1, b]} | 0 <= b <= j :: L[i + 1, b] == Table(x, y, v, i + 1, b)
        invariant forall a | i + 1 < a <= n :: L[a, 0] == 0
      {
        L[i + 1, j + 1] := if Matches(x, y, v, i, j) then L[i, j] + 1 else Max(L[i + 1, j], L[i, j + 1]);
      }
    }
  }

  // ---------------------------------------------------------------------
  // The traceback

  /** The traceback steps diagonally from (i, j): as written whenever the
      table grows along the diagonal, as intended over a matching pair. */
  predicate Diagonal(x: string, y: string, v: Version, i: nat, j: nat)
    requires 0 < i <= |x| && 0 < j <= |y| && Readable(x, y, v)
  {
    match v
    case AsWritten => Table(x, y, v, i, j) == Table(x, y, v, i - 1, j - 1) + 1
    case Intended => x[i - 1] == y[j - 1]
  }

  /** trace_lcs(i, j): the characters the traceback appends, in order.  When
      no branch applies nothing is appended. */
  function Traced(x: string, y: string, v: Version, i: nat, j: nat): string
    requires i <= |x| && j <= |y| && Readable(x, y, v)
    decreases i + j
  {
    if i == 0 || j == 0 then []
    else if Diagonal(x, y, v, i, j) then Traced(x, y, v, i - 1, j - 1) + [x[i - 1]]
    else if Table(x, y, v, i, j) == Table(x, y, v, i, j - 1) then Traced(x, y, v, i, j - 1)
    else if Table(x, y, v, i, j) == Table(x, y, v, i - 1, j) then Traced(x, y, v, i - 1, j)
    else []
  }

  /** The recursive lambda: trace the rest, then append x[i-1] on a diagonal
      step. */
  method TraceLcs(L: array2<int>, x: string, y: string, v: Version, i: nat, j: nat, lcs: string)
    returns (out: string)
    requires Readable(x, y, v) && i <= |x| && j <= |y|
    requires L.Length0 == |x| + 1 && L.Length1 == |y| + 1
    requires forall a, b {:trigger L[a, b]} | 0 <= a <= |x| && 0 <= b <= |y| :: L[a, b] == Table(x, y, v, a, b)
    ensures out == lcs + Traced(x, y, v, i, j)
    decreases i + j
  {
    out := lcs;
    if i > 0 && j > 0 {
      var diagonal := match v
        case AsWritten => L[i, j] == L[i - 1, j - 1] + 1
        case Intended => x[i - 1] == y[j - 1];
      if diagonal {
        out := TraceLcs(L, x, y, v, i - 1, j - 1, lcs);
        out := out + [x[i - 1]];
      } else if L[i, j] == L[i, j - 1] {
        out := TraceLcs(L, x, y, v, i, j - 1, lcs);
      } else if L[i, j] == L[i - 1, j] {
        out := TraceLcs(L, x, y, v, i - 1, j, lcs);
      }
    }
  }

  /** find_lcs(x, y).  Both readings return a subsequence of x as long as
      the last table cell, empty when either string is; as intended it is a
      longest common subsequence. */
  method FindLcs(x: string, y: string, v: Version) returns (lcs: string)
    requires Readable(x, y, v)
    ensures lcs == Traced(x, y, v, |x|, |y|)
    ensures |lcs| == Table(x, y, v, |x|, |y|) && IsSubsequence(lcs, x)
    ensures |x| == 0 || |y| == 0 ==> lcs == []
    ensures v == Intended ==> IsLongestCommon(lcs, x, y)
  {
    var L := FillTable(x, y, v);
    lcs := TraceLcs(L, x, y, v, |x|, |y|, []);
    TracedLength(x, y, v, |x|, |y|);
    TracedInX(x, y, v, |x|, |y|);
    assert x[..|x|] == x && y[..|y|] == y;
    if v == Intended {
      TracedInY(x, y, |x|, |y|);
      forall w | IsSubsequence(w, x) && IsSubsequence(w, y)
        ensures |w| <= |lcs|
      {
        TableIsOptimal(x, y, |x|, |y|, w);
      }
    }
  }

  // ---------------------------------------------------------------------
  // What the traceback produces

  /** Some branch of the traceback always applies, so it appends exactly as
      many characters as the cell it starts from holds. */
  lemma {:induction false} TracedLength(x: string, y: string, v: Version, i: nat, j: nat)
    requires i <= |x| && j <= |y| && Readable(x, y, v)
    ensures |Traced(x, y, v, i, j)| == Table(x, y, v, i, j)
    decreases i + j
  {
    if i > 0 && j > 0 {
      if Diagonal(x, y, v, i, j) {
        TracedLength(x, y, v, i - 1, j - 1);
      } else if Table(x, y, v, i, j) == Table(x, y, v, i, j - 1) {
        TracedLength(x, y, v, i, j - 1);
      } else {
        TracedLength(x, y, v, i - 1, j);
      }
    }
  }

  /** x[i-1] is appended only after everything traced from the rows above,
      so the result is a subsequence of x. */
  lemma {:induction false} TracedInX(x: string, y: string, v: Version, i: nat, j: nat)
    requires i <= |x| && j <= |y| && Readable(x, y, v)
    ensures IsSubsequence(Traced(x, y, v, i, j), x[..i])
    decreases i + j
  {
    var t := Traced(x, y, v, i, j);
    if i > 0 && j > 0 {
      if Diagonal(x, y, v, i, j) {
        TracedInX(x, y, v, i - 1, j - 1);
        assert x[..i][..i - 1] == x[..i - 1];
        assert t[..|t| - 1] == Traced(x, y, v, i - 1, j - 1);
      } else if Table(x, y, v, i, j) == Table(x, y, v, i, j - 1) {
        TracedInX(x, y, v, i, j - 1);
      } else if Table(x, y, v, i, j) == Table(x, y, v, i - 1, j) {
        TracedInX(x, y, v, i - 1, j);
        assert x[..i][..i - 1] == x[..i - 1];
      }
    }
  }

  /** As intended, the diagonal step is taken over a matching pair, so the
      result is a subsequence of y as well. */
  lemma {:induction false} TracedInY(x: string, y: string, i: nat, j: nat)
    requires i <= |x| && j <= |y|
    ensures IsSubsequence(Traced(x, y, Intended, i, j), y[..j])
    decreases i + j
  {
    var t := Traced(x, y, Intended, i, j);
    if i > 0 && j > 0 {
      if Diagonal(x, y, Intended, i, j) {
        TracedInY(x, y, i - 1, j - 1);
        assert y[..j][..j - 1] == y[..j - 1];
        assert t[..|t| - 1] == Traced(x, y, Intended, i - 1, j - 1);
      } else if Table(x, y, Intended, i, j) == Table(x, y, Intended, i, j - 1) {
        TracedInY(x, y, i, j - 1);
        assert y[..j][..j - 1] == y[..j - 1];
      } else if Table(x, y, Intended, i, j) == Table(x, y, Intended, i - 1, j) {
        TracedInY(x, y, i - 1, j);
      }
    }
  }

  /** As intended, no common subsequence of the prefixes x[..i] and y[..j]
      is longer than L[i][j]. */
  lemma {:induction false} TableIsOptimal(x: string, y: string, i: nat, j: nat, w: string)
    requires i <= |x| && j <= |y|
    requires IsSubsequence(w, x[..i]) && IsSubsequence(w, y[..j])
    ensures |w| <= Table(x, y, Intended, i, j)
    decreases i + j
  {
    if i == 0 || j == 0 {
      SubsequenceShorter(w, x[..i]);
      SubsequenceShorter(w, y[..j]);
      return;
    }
    if |w| == 0 {
      return;
    }
    assert x[..i][..i - 1] == x[..i - 1] && y[..j][..j - 1] == y[..j - 1];
    var c := w[|w| - 1];
    if x[i - 1] == y[j - 1] {
      if c == x[i - 1] {
        LastAgrees(w, x[..i]);
        LastAgrees(w, y[..j]);
      } else {
        LastDiffers(w, x[..i]);
        LastDiffers(w, y[..j]);
        DropLast(w, x[..i - 1]);
        DropLast(w, y[..j - 1]);
      }
      TableIsOptimal(x, y, i - 1, j - 1, w[..|w| - 1]);
    } else if c != x[i - 1] {
      LastDiffers(w, x[..i]);
      TableIsOptimal(x, y, i - 1, j, w);
    } else {
      LastDiffers(w, y[..j]);
      TableIsOptimal(x, y, i, j - 1, w);
    }
  }

  // ---------------------------------------------------------------------
  // The code as written

  /** Comparing x[i] with y[i] misses matches: for "ab" and "ca" the table
      ends at 0 although "a" is common to both; as intended it ends at 1. */
  lemma AsWrittenMissesMatch()
    ensures Table("ab", "ca", AsWritten, 2, 2) == 0
    ensures IsSubsequence("a", "ab") && IsSubsequence("a", "ca")
    ensures Table("ab", "ca", Intended, 2, 2) == 1
  {
    var x, y := "ab", "ca";
    assert Table(x, y, AsWritten, 1, 1) == 0;
    assert Table(x, y, AsWritten, 1, 2) == 0;
    assert Table(x, y, AsWritten, 2, 1) == 0;
    assert "a"[..0] == "" && "ab"[..1] == "a" && "ca"[..1] == "c";
    assert IsSubsequence("a", "a");
    assert IsSubsequence("a", "ca"[..1]) || IsSubsequence("", "c");
    assert Table(x, y, Intended, 1, 2) == 1;
  }

  /** The value-only diagonal step appends characters y does not have: for
      "ba" and "b" the traceback returns "a". */
  lemma AsWrittenLeavesY()
    ensures Traced("ba", "b", AsWritten, 2, 1) == "a"
    ensures !IsSubsequence("a", "b")
  {
    var x, y := "ba", "b";
    assert Table(x, y, AsWritten, 1, 1) == 1;
    assert Table(x, y, AsWritten, 2, 1) == 1;
    assert Traced(x, y, AsWritten, 1, 0) == [];
    assert "b"[..0] == "";
  }
}

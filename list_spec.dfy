/** The cursor list of assignment-1 seen from outside: a sequence and a cursor
    index.  The two stores disagree on what the cursor may point at, so the
    operations come in a linked-list flavour (cursor always on an element of a
    non-empty list) and an array-list flavour (cursor may stand at `length`). */
module ListSpec {
  import opened Outcomes
  import Text

  /** `npos`, the not-found result of search: (size_t)-1 for a 64-bit size_t. */
  const NPOS: nat := 0xFFFF_FFFF_FFFF_FFFF

  /** The client-visible state of a list: its elements and the cursor. */
  datatype Cursor<T> = Cursor(items: seq<T>, pos: nat)

  /** The linked list's CHECK_STATE on the abstract level: an empty list has
      cursor 0, a non-empty one has its cursor on an element. */
  predicate LinkedWellFormed<T>(c: Cursor<T>)
  {
    if |c.items| == 0 then c.pos == 0 else c.pos < |c.items|
  }

  /** The array list keeps its cursor in [0, length]. */
  predicate ArrayWellFormed<T>(c: Cursor<T>)
  {
    c.pos <= |c.items|
  }

  // ---------------------------------------------------------------------
  // Operations common to both stores

  function Clear<T>(c: Cursor<T>): Cursor<T>
  {
    Cursor([], 0)
  }

  /** insert: the item becomes the element at the cursor. */
  function Insert<T>(c: Cursor<T>, x: T): Cursor<T>
    requires c.pos <= |c.items|
  {
    Cursor(c.items[..c.pos] + [x] + c.items[c.pos..], c.pos)
  }

  /** append: the item goes after the last element, the cursor stays. */
  function Append<T>(c: Cursor<T>, x: T): Cursor<T>
  {
    Cursor(c.items + [x], c.pos)
  }

  function MoveToStart<T>(c: Cursor<T>): Cursor<T>
  {
    Cursor(c.items, 0)
  }

  /** The items without the one at index k. */
  function Without<T>(s: seq<T>, k: nat): seq<T>
    requires k < |s|
  {
    s[..k] + s[k + 1..]
  }

  /** Least index holding x, or NPOS. */
  function Search<T(==)>(s: seq<T>, x: T): (r: nat)
    requires |s| < NPOS
    ensures r == NPOS <==> x !in s
    ensures r != NPOS ==> r < |s| && s[r] == x && x !in s[..r]
  {
    if |s| == 0 then NPOS
    else if s[0] == x then 0
    else
      var k := Search(s[1..], x);
      if k == NPOS then NPOS
      else
        assert s[..k + 1] == [s[0]] + s[1..][..k];
        k + 1
  }

  /** Search's result is characterised by the first match, in both directions. */
  lemma SearchIsFirstMatch<T>(s: seq<T>, x: T, i: nat)
    requires |s| < NPOS && i < |s|
    ensures Search(s, x) == i <==> s[i] == x && x !in s[..i]
  {
  }

  // ---------------------------------------------------------------------
  // Linked-list flavour (assignment-1/linkedlist.h)

  /** remove: the element under the cursor leaves; a cursor on the last
      element of a list of two or more steps back. */
  function LinkedRemove<T>(c: Cursor<T>): Result<(T, Cursor<T>)>
    requires LinkedWellFormed(c)
  {
    if |c.items| == 0 then Err(EmptyContainer)
    else
      var n := |c.items|;
      Ok((c.items[c.pos],
          Cursor(Without(c.items, c.pos), if n > 1 && c.pos == n - 1 then c.pos - 1 else c.pos)))
  }

  function LinkedMoveToEnd<T>(c: Cursor<T>): Cursor<T>
  {
    if |c.items| > 0 then Cursor(c.items, |c.items| - 1) else c
  }

  function LinkedPrev<T>(c: Cursor<T>): Cursor<T>
  {
    if c.pos == 0 then c else Cursor(c.items, c.pos - 1)
  }

  /** next stops on the last element. */
  function LinkedNext<T>(c: Cursor<T>): Cursor<T>
  {
    if c.pos + 1 >= |c.items| then c else Cursor(c.items, c.pos + 1)
  }

  function LinkedMoveToPos<T>(c: Cursor<T>, p: nat): Result<Cursor<T>>
  {
    if p >= |c.items| then Err(OutOfRange) else Ok(Cursor(c.items, p))
  }

  function LinkedGetValue<T>(c: Cursor<T>): Result<T>
    requires LinkedWellFormed(c)
  {
    if |c.items| == 0 then Err(EmptyContainer) else Ok(c.items[c.pos])
  }

  // ---------------------------------------------------------------------
  // Array-list flavour (assignment-1/arraylist.h)

  /** remove as the shifting loop is written: it copies from the top down,
      so every slot from the cursor up receives the last element. */
  function ArrayRemoveAsWritten<T>(c: Cursor<T>): Result<(T, Cursor<T>)>
    requires ArrayWellFormed(c)
  {
    if |c.items| == 0 then Err(EmptyContainer)
    else if c.pos >= |c.items| then Err(PastEnd)
    else
      var n := |c.items|;
      Ok((c.items[c.pos], Cursor(c.items[..c.pos] + seq(n - 1 - c.pos, _ => c.items[n - 1]), c.pos)))
  }

  /** remove as its comment intends: the elements after the cursor move one
      slot left.  The cursor is left where it was, as in the source. */
  function ArrayRemove<T>(c: Cursor<T>): Result<(T, Cursor<T>)>
    requires ArrayWellFormed(c)
  {
    if |c.items| == 0 then Err(EmptyContainer)
    else if c.pos >= |c.items| then Err(PastEnd)
    else Ok((c.items[c.pos], Cursor(Without(c.items, c.pos), c.pos)))
  }

  function ArrayMoveToEnd<T>(c: Cursor<T>): Cursor<T>
  {
    Cursor(c.items, |c.items|)
  }

  function ArrayPrev<T>(c: Cursor<T>): Cursor<T>
  {
    if c.pos > 0 then Cursor(c.items, c.pos - 1) else c
  }

  function ArrayNext<T>(c: Cursor<T>): Cursor<T>
  {
    if c.pos < |c.items| then Cursor(c.items, c.pos + 1) else c
  }

  /** moveToPos clamps instead of throwing. */
  function ArrayMoveToPos<T>(c: Cursor<T>, p: nat): Cursor<T>
  {
    Cursor(c.items, if p > |c.items| then |c.items| else p)
  }

  function ArrayGetValue<T>(c: Cursor<T>): Result<T>
    requires ArrayWellFormed(c)
  {
    if |c.items| == 0 then Err(EmptyContainer)
    else if c.pos == |c.items| then Err(PastEnd)
    else Ok(c.items[c.pos])
  }

  // ---------------------------------------------------------------------
  // Rendering (assignment-1/list.h operator<<)

  /** Element i as printed: "| " in front of the element at the cursor. */
  function Shown<T>(items: seq<T>, mark: nat, i: nat, show: T -> string): string
    requires i < |items|
  {
    (if i == mark then "| " else "") + show(items[i])
  }

  /** Elements i.. as printed, separated by single spaces. */
  function ShownFrom<T>(items: seq<T>, mark: nat, i: nat, show: T -> string): string
    requires i < |items|
    decreases |items| - i
  {
    if i == |items| - 1 then Shown(items, mark, i, show)
    else Shown(items, mark, i, show) + " " + ShownFrom(items, mark, i + 1, show)
  }

  /** "<>" for an empty list, else "<" elements ">". */
  function Render<T>(c: Cursor<T>, show: T -> string): string
  {
    if |c.items| == 0 then "<>" else "<" + ShownFrom(c.items, c.pos, 0, show) + ">"
  }

  /** The space-separated rendering is the join of the marked elements. */
  lemma {:induction false} ShownFromIsJoin<T>(items: seq<T>, mark: nat, i: nat, show: T -> string)
    requires i < |items|
    ensures ShownFrom(items, mark, i, show)
         == Text.Join(seq(|items| - i, k requires 0 <= k < |items| - i => Shown(items, mark, i + k, show)), " ")
    decreases |items| - i
  {
    var parts := seq(|items| - i, k requires 0 <= k < |items| - i => Shown(items, mark, i + k, show));
    if i < |items| - 1 {
      ShownFromIsJoin(items, mark, i + 1, show);
      assert parts[1..] == seq(|items| - (i + 1), k requires 0 <= k < |items| - (i + 1) => Shown(items, mark, i + 1 + k, show));
    }
  }

  // ---------------------------------------------------------------------
  // Properties of the operations

  /** Every linked-list operation keeps the cursor on an element. */
  lemma LinkedOperationsKeepWellFormed<T>(c: Cursor<T>, x: T, p: nat)
    requires LinkedWellFormed(c)
    ensures LinkedWellFormed(Clear(c)) && LinkedWellFormed(MoveToStart(c))
    ensures LinkedWellFormed(Insert(c, x)) && LinkedWellFormed(Append(c, x))
    ensures LinkedWellFormed(LinkedMoveToEnd(c)) && LinkedWellFormed(LinkedPrev(c)) && LinkedWellFormed(LinkedNext(c))
    ensures LinkedMoveToPos(c, p).Ok? ==> LinkedWellFormed(LinkedMoveToPos(c, p).value)
    ensures LinkedRemove(c).Ok? ==> LinkedWellFormed(LinkedRemove(c).value.1)
  {
  }

  /** Every array-list operation keeps the cursor within [0, length]. */
  lemma ArrayOperationsKeepWellFormed<T>(c: Cursor<T>, x: T, p: nat)
    requires ArrayWellFormed(c)
    ensures ArrayWellFormed(Clear(c)) && ArrayWellFormed(MoveToStart(c))
    ensures ArrayWellFormed(Insert(c, x)) && ArrayWellFormed(Append(c, x))
    ensures ArrayWellFormed(ArrayMoveToEnd(c)) && ArrayWellFormed(ArrayPrev(c)) && ArrayWellFormed(ArrayNext(c))
    ensures ArrayWellFormed(ArrayMoveToPos(c, p))
    ensures ArrayRemove(c).Ok? ==> ArrayWellFormed(ArrayRemove(c).value.1)
    ensures ArrayRemoveAsWritten(c).Ok? ==> ArrayWellFormed(ArrayRemoveAsWritten(c).value.1)
  {
  }

  /** Removing right after inserting gives back the item and the list. */
  lemma LinkedInsertThenRemove<T>(c: Cursor<T>, x: T)
    requires LinkedWellFormed(c)
    ensures LinkedRemove(Insert(c, x)) == Ok((x, c))
  {
    var d := Insert(c, x);
    assert Without(d.items, c.pos) == c.items;
  }

  lemma ArrayInsertThenRemove<T>(c: Cursor<T>, x: T)
    requires ArrayWellFormed(c)
    ensures ArrayRemove(Insert(c, x)) == Ok((x, c))
  {
    var d := Insert(c, x);
    assert Without(d.items, c.pos) == c.items;
  }

  /** The as-written array remove loses elements: from <| 0 1 2> it leaves
      <| 2 2> where the left shift gives <| 1 2>. */
  lemma ArrayRemoveAsWrittenCounterexample()
    ensures ArrayRemoveAsWritten(Cursor([0, 1, 2], 0)) == Ok((0, Cursor([2, 2], 0)))
    ensures ArrayRemove(Cursor([0, 1, 2], 0)) == Ok((0, Cursor([1, 2], 0)))
  {
    assert Without([0, 1, 2], 0) == [1, 2];
    assert [0, 1, 2][..0] + seq(2, _ => 2) == [2, 2];
  }

  /** The two removes agree exactly when the cursor is on the last element or
      everything after the cursor already equals the last element. */
  lemma ArrayRemoveAsWrittenAgreement<T>(c: Cursor<T>)
    requires ArrayWellFormed(c) && c.pos < |c.items|
    ensures ArrayRemoveAsWritten(c) == ArrayRemove(c)
        <==> forall i :: c.pos < i < |c.items| ==> c.items[i] == c.items[|c.items| - 1]
  {
    var n := |c.items|;
    var w := c.items[..c.pos] + seq(n - 1 - c.pos, _ => c.items[n - 1]);
    var v := Without(c.items, c.pos);
    assert |w| == |v|;
    if forall i :: c.pos < i < n ==> c.items[i] == c.items[n - 1] {
      forall k | 0 <= k < |w| ensures w[k] == v[k] {
        if k >= c.pos { assert v[k] == c.items[k + 1]; }
      }
      assert w == v;
    } else {
      var i :| c.pos < i < n && c.items[i] != c.items[n - 1];
      assert v[i - 1] == c.items[i];
      assert w[i - 1] == c.items[n - 1];
    }
  }

  /** next then prev returns to the same element, and so does prev then next,
      away from the ends. */
  lemma LinkedNextPrevInverse<T>(c: Cursor<T>)
    requires LinkedWellFormed(c)
    ensures c.pos + 1 < |c.items| ==> LinkedPrev(LinkedNext(c)) == c
    ensures c.pos > 0 ==> LinkedNext(LinkedPrev(c)) == c
  {
  }

  /** Append never disturbs the element under the cursor. */
  lemma AppendKeepsSelection<T>(c: Cursor<T>, x: T)
    requires LinkedWellFormed(c) && |c.items| > 0
    ensures LinkedGetValue(Append(c, x)) == LinkedGetValue(c)
  {
  }

  /** The two flavours agree on every query and move except at the end: the
      linked list's end is the last element, the array list's is past it. */
  lemma StoresAgreeAwayFromEnd<T>(c: Cursor<T>)
    requires LinkedWellFormed(c) && |c.items| > 0
    ensures ArrayGetValue(c) == LinkedGetValue(c)
    ensures c.pos + 1 < |c.items| ==> ArrayNext(c) == LinkedNext(c)
    ensures ArrayPrev(c) == LinkedPrev(c)
    ensures ArrayMoveToEnd(c).pos == LinkedMoveToEnd(c).pos + 1
  {
  }

  /** The single digits the scenarios below print. */
  lemma SmallNumbersShown()
    ensures forall d: int :: 0 <= d < 5 ==> Text.IntToString(d) == [Text.DigitChar(d)]
  {
    forall d: int | 0 <= d < 5 ensures Text.IntToString(d) == [Text.DigitChar(d)] {}
  }

  /** The renderings assignment-1/tests.cpp:19 and :30 expect. */
  lemma RenderScenarios()
    ensures Render(Cursor([], 0), Text.IntToString) == "<>"
    ensures Render(Cursor([0, 1, 2, 3, 4], 3), Text.IntToString) == "<0 1 2 | 3 4>"
  {
    var s := [0, 1, 2, 3, 4];
    SmallNumbersShown();
    assert ShownFrom(s, 3, 4, Text.IntToString) == "4";
    assert ShownFrom(s, 3, 3, Text.IntToString) == "| 3 4";
    assert ShownFrom(s, 3, 2, Text.IntToString) == "2 | 3 4";
    assert ShownFrom(s, 3, 1, Text.IntToString) == "1 2 | 3 4";
  }
}

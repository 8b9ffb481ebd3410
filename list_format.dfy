/** The functions assignment-1/list.h defines over any list: the `<a b | c>`
    printer, which walks the cursor over the list and puts it back, and the
    element-wise equality operator, whose loop has no exit for equal lists.

    Both are written once per store, as the template is instantiated for
    each.  The printer appends to the text already in the stream `os`. */
module ListFormat {
  import opened Outcomes
  import opened ListSpec
  import opened LinkedLists
  import opened ArrayLists

  /** How a call of operator== ends.  `Endless`: the loop reached a state
      that its body leaves as it is, so it runs forever from there. */
  datatype Comparison = Unequal | Threw(failure: Failure) | Endless

  /** The stream after the printer's loop has run k full rounds, in the
      order the loop writes: "<", then per element the cursor mark, the
      element and a space. */
  function Emitted<T>(os: string, items: seq<T>, mark: nat, k: nat, show: T -> string): string
    requires k <= |items|
  {
    if k == 0 then os + "<"
    else Marked(Emitted(os, items, mark, k - 1, show), mark, k - 1) + show(items[k - 1]) + " "
  }

  /** The "| " written in front of the element at the saved cursor. */
  function Marked(out: string, mark: nat, k: nat): string
  {
    if mark == k then out + "| " else out
  }

  /** What the printer writes in all: the full rounds, the last element and
      the closing ">". */
  function Printed<T>(os: string, items: seq<T>, mark: nat, show: T -> string): string
    requires |items| > 0
  {
    Marked(Emitted(os, items, mark, |items| - 1, show), mark, |items| - 1) + show(items[|items| - 1]) + ">"
  }

  lemma Associative(a: string, b: string, c: string)
    ensures (a + b) + c == a + (b + c)
  {
  }

  /** Regrouping the text of one round: mark, element, space, rest. */
  lemma Regroup(e: string, m: string, s: string, r: string)
    ensures ((e + m) + s) + " " + r == e + ((m + s) + " " + r)
  {
    calc {
      ((e + m) + s) + " " + r;
      == { Associative((e + m) + s, " ", r); }
      ((e + m) + s) + (" " + r);
      == { Associative(e + m, s, " " + r); }
      (e + m) + (s + (" " + r));
      == { Associative(e, m, s + (" " + r)); }
      e + (m + (s + (" " + r)));
      == { Associative(m, s, " " + r); Associative(m + s, " ", r); }
      e + ((m + s) + " " + r);
    }
  }

  lemma {:induction false} EmittedThenRest<T>(os: string, items: seq<T>, mark: nat, k: nat, show: T -> string)
    requires k < |items|
    ensures Emitted(os, items, mark, k, show) + ShownFrom(items, mark, k, show) == os + "<" + ShownFrom(items, mark, 0, show)
  {
    if k > 0 {
      EmittedThenRest(os, items, mark, k - 1, show);
      var e := Emitted(os, items, mark, k - 1, show);
      var m := if mark == k - 1 then "| " else "";
      var x, r := show(items[k - 1]), ShownFrom(items, mark, k, show);
      assert Emitted(os, items, mark, k, show) == ((e + m) + x) + " ";
      assert ShownFrom(items, mark, k - 1, show) == (m + x) + " " + r;
      Regroup(e, m, x, r);
    }
  }

  /** The loop writes exactly the rendering the list's specification gives. */
  lemma PrintedIsRender<T>(os: string, items: seq<T>, mark: nat, show: T -> string)
    requires |items| > 0
    ensures Printed(os, items, mark, show) == os + Render(Cursor(items, mark), show)
  {
    var n := |items|;
    EmittedThenRest(os, items, mark, n - 1, show);
    var e := Emitted(os, items, mark, n - 1, show);
    var m := if mark == n - 1 then "| " else "";
    var sf := ShownFrom(items, mark, 0, show);
    assert Marked(e, mark, n - 1) == e + m;
    assert ShownFrom(items, mark, n - 1, show) == m + show(items[n - 1]);
    calc {
      Printed(os, items, mark, show);
      (e + m) + show(items[n - 1]) + ">";
      == { Associative(e, m, show(items[n - 1])); }
      (os + "<" + sf) + ">";
      == { Associative(os, "<", sf); Associative(os, "<" + sf, ">"); }
      os + ("<" + sf + ">");
    }
  }

  // -----------------------------------------------------------------------
  // operator<< and to_string on the linked list

  method WriteLinked<T(0, ==, !new)>(os: string, l: LinkedList<T>, show: T -> string) returns (out: string)
    requires l.Valid()
    modifies l
    ensures l.Valid() && l.Repr == old(l.Repr)
    ensures l.State() == old(l.State())
    ensures out == os + Render(old(l.State()), show)
  {
    ghost var start := l.State();
    out := os + "<";
    var n := l.Length();
    if n > 0 {
      var prevPos := l.CurrPos();
      l.MoveToStart();
      while true
        invariant l.Valid() && l.Repr == old(l.Repr) && l.items == start.items
        invariant l.pos < n
        invariant out == Emitted(os, start.items, prevPos, l.pos, show)
        decreases n - l.pos
      {
        var last;
        out, last := RoundLinked(os, l, start.items, prevPos, n, out, show);
        if last {
          break;
        }
      }
      PrintedIsRender(os, start.items, prevPos, show);
      var _ := l.MoveToPos(prevPos);
    }
    out := out + ">";
  }

  /** One round of the printer's loop: the mark, the element, and unless the
      cursor is on the last element, a space and a step of the cursor. */
  method RoundLinked<T(0, ==, !new)>(os: string, l: LinkedList<T>, ghost items: seq<T>, prevPos: nat, n: nat,
                                    out: string, show: T -> string)
      returns (out': string, last: bool)
    requires l.Valid() && l.items == items && |items| == n && l.pos < n
    requires out == Emitted(os, items, prevPos, l.pos, show)
    modifies l
    ensures l.Valid() && l.Repr == old(l.Repr) && l.items == items
    ensures last ==> l.pos == n - 1 && out' + ">" == Printed(os, items, prevPos, show)
    ensures !last ==> l.pos == old(l.pos) + 1 < n && out' == Emitted(os, items, prevPos, l.pos, show)
  {
    var p := l.CurrPos();
    out' := out;
    if prevPos == p {
      out' := out' + "| ";
    }
    var v := l.GetValue();
    out' := out' + show(v.value);
    if p == n - 1 {
      return out', true;
    }
    out' := out' + " ";
    l.Next();
    last := false;
  }

  method ToStringLinked<T(0, ==, !new)>(l: LinkedList<T>, show: T -> string) returns (s: string)
    requires l.Valid()
    modifies l
    ensures l.Valid() && l.Repr == old(l.Repr)
    ensures l.State() == old(l.State())
    ensures s == Render(old(l.State()), show)
  {
    s := WriteLinked("", l, show);
  }

  // -----------------------------------------------------------------------
  // operator<< and to_string on the array list

  method WriteArray<T(==)>(os: string, l: ArrayList<T>, show: T -> string) returns (out: string)
    requires l.Valid()
    modifies l
    ensures l.Valid() && l.data == old(l.data) && l.capacity == old(l.capacity)
    ensures l.State() == old(l.State())
    ensures out == os + Render(old(l.State()), show)
  {
    ghost var start := l.State();
    out := os + "<";
    var n := l.Length();
    if n > 0 {
      var prevPos := l.CurrPos();
      l.MoveToStart();
      while true
        invariant l.Valid() && l.data == old(l.data) && l.capacity == old(l.capacity)
        invariant l.State() == Cursor(start.items, l.pos) && l.pos < n
        invariant out == Emitted(os, start.items, prevPos, l.pos, show)
        decreases n - l.pos
      {
        var p := l.CurrPos();
        ghost var before := out;
        if prevPos == p {
          out := out + "| ";
        }
        assert out == Marked(before, prevPos, p);
        var v := l.GetValue();
        assert v.value == start.items[p];
        out := out + show(v.value);
        if p == n - 1 {
          break;
        }
        out := out + " ";
        assert out == Emitted(os, start.items, prevPos, p + 1, show);
        l.Next();
      }
      assert out + ">" == Printed(os, start.items, prevPos, show);
      PrintedIsRender(os, start.items, prevPos, show);
      l.MoveToPos(prevPos);
    }
    out := out + ">";
  }

  method ToStringArray<T(==)>(l: ArrayList<T>, show: T -> string) returns (s: string)
    requires l.Valid()
    modifies l
    ensures l.Valid() && l.data == old(l.data) && l.capacity == old(l.capacity)
    ensures l.State() == old(l.State())
    ensures s == Render(old(l.State()), show)
  {
    s := WriteArray("", l, show);
  }

  // -----------------------------------------------------------------------
  // operator== as written

  /** Index of the first position where two equally long sequences differ. */
  function FirstDifference<T(==)>(s: seq<T>, t: seq<T>): (k: nat)
    requires |s| == |t| && s != t
    ensures k < |s| && s[k] != t[k] && s[..k] == t[..k]
  {
    if s[0] != t[0] then 0
    else
      var k := FirstDifference(s[1..], t[1..]);
      assert s[..k + 1] == [s[0]] + s[1..][..k] && t[..k + 1] == [t[0]] + t[1..][..k];
      k + 1
  }

  /** Equal prefixes grow by one equal element; at the last index the
      sequences are equal. */
  lemma PrefixStep<T>(xs: seq<T>, ys: seq<T>, p: nat)
    requires p < |xs| == |ys| && xs[..p] == ys[..p] && xs[p] == ys[p]
    ensures xs[..p + 1] == ys[..p + 1]
    ensures p + 1 == |xs| ==> xs == ys
  {
    assert xs[..p + 1] == xs[..p] + [xs[p]] && ys[..p + 1] == ys[..p] + [ys[p]];
    assert xs == xs[..p + 1] && ys == ys[..p + 1] <== p + 1 == |xs|;
  }

  /** operator== on two linked lists, as written.  Different lists make it
      false, leaving both cursors on the first difference; two empty lists
      make getValue throw; two equal non-empty lists make it loop on the
      last element, because next stops there.  It never returns true.  The
      same list may stand on both sides. */
  method EqualLinked<T(0, ==, !new)>(a: LinkedList<T>, b: LinkedList<T>) returns (r: Comparison)
    requires a.Valid() && b.Valid() && (a == b || a.Repr !! b.Repr)
    modifies a, b
    ensures a.Valid() && b.Valid() && a.Repr == old(a.Repr) && b.Repr == old(b.Repr)
    ensures a.items == old(a.items) && b.items == old(b.items)
    ensures r == Unequal <==> a.items != b.items
    ensures r == Threw(EmptyContainer) <==> a.items == b.items == []
    ensures r == Endless <==> a.items == b.items != []
    ensures r == Unequal && |a.items| == |b.items| ==> a.pos == b.pos == FirstDifference(a.items, b.items)
    ensures |a.items| != |b.items| ==> a.pos == old(a.pos) && b.pos == old(b.pos)
  {
    ghost var xs, ys := a.items, b.items;
    var la := a.Length();
    var lb := b.Length();
    if la != lb {
      return Unequal;
    }
    if a == b {
      r := SelfCompareLinked(a);
      return;
    }
    var posA := a.CurrPos();
    var posB := b.CurrPos();
    RewindBoth(a, b);
    while true
      invariant a.Valid() && b.Valid() && a.Repr == old(a.Repr) && b.Repr == old(b.Repr)
      invariant a.items == xs && b.items == ys
      invariant a.pos == b.pos && (la == 0 || a.pos < la)
      invariant xs[..a.pos] == ys[..a.pos]
      decreases la - a.pos
    {
      var done;
      done, r := CompareRoundLinked(a, b, xs, ys);
      if done {
        if r == Unequal {
          FirstDifferenceIsFirst(xs, ys, a.pos);
        }
        return;
      }
    }
  }

  /** operator== with one linked list on both sides: each round reads the
      selected element twice, which always agrees with itself, and steps
      the one cursor twice.  An empty list makes getValue throw; otherwise
      the cursor reaches the last element, where next stops, and the loop
      runs on forever. */
  method SelfCompareLinked<T(0, ==, !new)>(l: LinkedList<T>) returns (r: Comparison)
    requires l.Valid()
    modifies l
    ensures l.Valid() && l.Repr == old(l.Repr) && l.items == old(l.items)
    ensures r == Threw(EmptyContainer) <==> l.items == []
    ensures r == Endless <==> l.items != []
    ensures r != Unequal
  {
    ghost var xs := l.items;
    var n := l.Length();
    l.MoveToStart();
    while true
      invariant l.Valid() && l.Repr == old(l.Repr) && l.items == xs
      invariant n == |xs| && (n == 0 || l.pos < n)
      decreases n - l.pos
    {
      var va := l.GetValue();
      var vb := l.GetValue();
      if va.Err? || vb.Err? {
        return Threw(EmptyContainer);
      }
      var p := l.CurrPos();
      l.Next();
      l.Next();
      if l.CurrPos() == p {
        return Endless;
      }
    }
  }

  /** One round of operator=='s loop: compare the selected elements, then
      step both cursors.  `done` says whether the call ends in this round;
      a step that leaves the cursors where they were ends it as Endless,
      since the next round would start from the same state. */
  method CompareRoundLinked<T(0, ==, !new)>(a: LinkedList<T>, b: LinkedList<T>, ghost xs: seq<T>, ghost ys: seq<T>)
      returns (done: bool, r: Comparison)
    requires a.Valid() && b.Valid() && a.Repr !! b.Repr
    requires a.items == xs && b.items == ys && |xs| == |ys|
    requires a.pos == b.pos && xs[..a.pos] == ys[..a.pos]
    modifies a, b
    ensures a.Valid() && b.Valid() && a.Repr == old(a.Repr) && b.Repr == old(b.Repr)
    ensures a.items == xs && b.items == ys && a.pos == b.pos
    ensures !done ==> a.pos == old(a.pos) + 1 < |xs| && xs[..a.pos] == ys[..a.pos]
    ensures done ==>
      (r == Unequal && a.pos == old(a.pos) < |xs| && xs[a.pos] != ys[a.pos]) ||
      (r == Threw(EmptyContainer) && xs == ys == []) ||
      (r == Endless && xs == ys != [])
  {
    var va := a.GetValue();
    var vb := b.GetValue();
    if va.Err? || vb.Err? {
      return true, Threw(EmptyContainer);
    }
    if va.value != vb.value {
      return true, Unequal;
    }
    var p := a.CurrPos();
    PrefixStep(xs, ys, p);
    StepBoth(a, b);
    if a.CurrPos() == p {
      return true, Endless;
    }
    done, r := false, Unequal;
  }

  /** moveToStart on both lists. */
  method RewindBoth<T(0, ==, !new)>(a: LinkedList<T>, b: LinkedList<T>)
    requires a.Valid() && b.Valid() && a.Repr !! b.Repr
    modifies a, b
    ensures a.Valid() && b.Valid() && a.Repr == old(a.Repr) && b.Repr == old(b.Repr)
    ensures a.items == old(a.items) && b.items == old(b.items)
    ensures a.pos == b.pos == 0
  {
    a.MoveToStart();
    b.MoveToStart();
  }

  /** next on both lists, whose cursors stand at the same index. */
  method StepBoth<T(0, ==, !new)>(a: LinkedList<T>, b: LinkedList<T>)
    requires a.Valid() && b.Valid() && a.Repr !! b.Repr
    requires |a.items| == |b.items| && a.pos == b.pos
    modifies a, b
    ensures a.Valid() && b.Valid() && a.Repr == old(a.Repr) && b.Repr == old(b.Repr)
    ensures a.items == old(a.items) && b.items == old(b.items)
    ensures a.pos == b.pos == if old(a.pos) + 1 < |a.items| then old(a.pos) + 1 else old(a.pos)
  {
    a.Next();
    b.Next();
  }

  /** operator== on two array lists, as written: next moves the cursors past
      the last element, so equal lists make getValue throw there.  The same
      list may stand on both sides. */
  method EqualArray<T(==)>(a: ArrayList<T>, b: ArrayList<T>) returns (r: Comparison)
    requires a.Valid() && b.Valid()
    modifies a, b
    ensures a.Valid() && b.Valid() && a.data == old(a.data) && b.data == old(b.data)
    ensures a.State().items == old(a.State().items) && b.State().items == old(b.State().items)
    ensures r == Unequal <==> a.State().items != b.State().items
    ensures r == Threw(EmptyContainer) <==> a.State().items == b.State().items == []
    ensures r == Threw(PastEnd) <==> a.State().items == b.State().items != []
    ensures r != Endless
    ensures r == Unequal && a.length == b.length ==> a.pos == b.pos == FirstDifference(a.State().items, b.State().items)
  {
    ghost var xs, ys := a.State().items, b.State().items;
    var la := a.Length();
    var lb := b.Length();
    if la != lb {
      return Unequal;
    }
    if a == b {
      r := SelfCompareArray(a);
      return;
    }
    var posA := a.CurrPos();
    var posB := b.CurrPos();
    a.MoveToStart();
    b.MoveToStart();
    while true
      invariant a.Valid() && b.Valid() && a.data == old(a.data) && b.data == old(b.data)
      invariant a.State().items == xs && b.State().items == ys
      invariant a.pos == b.pos <= la
      invariant xs[..a.pos] == ys[..a.pos]
      decreases la - a.pos
    {
      var va := a.GetValue();
      var vb := b.GetValue();
      if va.Err? || vb.Err? {
        assert xs == xs[..a.pos] && ys == ys[..a.pos];
        return Threw(va.failure);
      }
      if va.value != vb.value {
        FirstDifferenceIsFirst(xs, ys, a.pos);
        return Unequal;
      }
      var p := a.pos;
      a.Next();
      b.Next();
      assert xs[..a.pos] == xs[..p] + [xs[p]];
      assert ys[..a.pos] == ys[..p] + [ys[p]];
    }
  }

  /** operator== with one array list on both sides: the cursor steps twice
      per round and stops one past the last element, where getValue
      throws; an empty list throws at once. */
  method SelfCompareArray<T(==)>(l: ArrayList<T>) returns (r: Comparison)
    requires l.Valid()
    modifies l
    ensures l.Valid() && l.data == old(l.data) && l.State().items == old(l.State().items)
    ensures r == Threw(EmptyContainer) <==> l.State().items == []
    ensures r == Threw(PastEnd) <==> l.State().items != []
  {
    ghost var xs := l.State().items;
    var n := l.Length();
    l.MoveToStart();
    while true
      invariant l.Valid() && l.data == old(l.data) && l.State().items == xs
      invariant n == |xs| && l.pos <= n
      decreases n - l.pos
    {
      var va := l.GetValue();
      var vb := l.GetValue();
      if va.Err? || vb.Err? {
        return Threw(va.failure);
      }
      l.Next();
      l.Next();
    }
  }

  /** The first difference is the only index with a difference before it
      and none after. */
  lemma FirstDifferenceIsFirst<T>(s: seq<T>, t: seq<T>, k: nat)
    requires |s| == |t| && k < |s| && s[k] != t[k] && s[..k] == t[..k]
    ensures s != t && FirstDifference(s, t) == k
  {
  }

  // -----------------------------------------------------------------------
  // operator== as intended

  /** The comparison the operator's comment describes: equal lengths and
      equal elements at every index; both cursors are put back. */
  method EqualLinkedCorrected<T(0, ==, !new)>(a: LinkedList<T>, b: LinkedList<T>) returns (r: bool)
    requires a.Valid() && b.Valid() && (a == b || a.Repr !! b.Repr)
    modifies a, b
    ensures a.Valid() && b.Valid() && a.Repr == old(a.Repr) && b.Repr == old(b.Repr)
    ensures a.State() == old(a.State()) && b.State() == old(b.State())
    ensures r <==> a.items == b.items
  {
    ghost var xs, ys := a.items, b.items;
    var la := a.Length();
    var lb := b.Length();
    if la != lb {
      return false;
    }
    if la == 0 || a == b {
      return true;
    }
    var posA := a.CurrPos();
    var posB := b.CurrPos();
    RewindBoth(a, b);
    while true
      invariant a.Valid() && b.Valid() && a.Repr == old(a.Repr) && b.Repr == old(b.Repr)
      invariant a.items == xs && b.items == ys
      invariant a.pos == b.pos < la
      invariant xs[..a.pos] == ys[..a.pos]
      decreases la - a.pos
    {
      var done;
      done, r := MatchRoundLinked(a, b, xs, ys);
      if done {
        break;
      }
    }
    RestoreBoth(a, b, posA, posB);
  }

  /** One round of the corrected loop: a differing pair ends it with
      false, equal elements at the last index with true; otherwise both
      cursors step on. */
  method MatchRoundLinked<T(0, ==, !new)>(a: LinkedList<T>, b: LinkedList<T>, ghost xs: seq<T>, ghost ys: seq<T>)
      returns (done: bool, same: bool)
    requires a.Valid() && b.Valid() && a.Repr !! b.Repr
    requires a.items == xs && b.items == ys && |xs| == |ys|
    requires a.pos == b.pos < |xs| && xs[..a.pos] == ys[..a.pos]
    modifies a, b
    ensures a.Valid() && b.Valid() && a.Repr == old(a.Repr) && b.Repr == old(b.Repr)
    ensures a.items == xs && b.items == ys
    ensures !done ==> a.pos == b.pos == old(a.pos) + 1 < |xs| && xs[..a.pos] == ys[..a.pos]
    ensures done ==> (same <==> xs == ys)
  {
    var va := a.GetValue();
    var vb := b.GetValue();
    if va.value != vb.value {
      return true, false;
    }
    var p := a.CurrPos();
    PrefixStep(xs, ys, p);
    if p == a.Length() - 1 {
      return true, true;
    }
    StepBoth(a, b);
    done, same := false, false;
  }

  /** moveToPos on both lists, back to the saved cursors. */
  method RestoreBoth<T(0, ==, !new)>(a: LinkedList<T>, b: LinkedList<T>, pa: nat, pb: nat)
    requires a.Valid() && b.Valid() && a.Repr !! b.Repr
    requires pa < |a.items| && pb < |b.items|
    modifies a, b
    ensures a.Valid() && b.Valid() && a.Repr == old(a.Repr) && b.Repr == old(b.Repr)
    ensures a.State() == Cursor(old(a.items), pa) && b.State() == Cursor(old(b.items), pb)
  {
    var _ := a.MoveToPos(pa);
    var _ := b.MoveToPos(pb);
  }
}

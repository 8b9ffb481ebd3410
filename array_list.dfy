/** The array-backed cursor list of assignment-1/arraylist.h: a buffer of
    `capacity` slots of which the first `length` hold the elements, and an
    index cursor `pos` in [0, length].

    Several members are written twice.  The `...AsWritten` members follow the
    code line by line: `expand` copies from the new buffer into the old one,
    `remove` shifts from the top down, and the copy constructor and copy
    assignment copy only the slots before the cursor.  The plain members
    perform what the comments promise, and the rest of the class uses those.

    A freshly allocated buffer holds default-constructed elements; `blank` is
    that value.  A moved-from list has capacity 0 and a buffer of length 0 in
    place of the null pointer. */
module ArrayLists {
  import opened Outcomes
  import opened ListSpec

  const DEFAULT_CAPACITY: nat := 8

  /** The capacity expand leaves: a moved-from (capacity 0) list restarts from
      the default, and every capacity doubles. */
  function Grown(capacity: nat): (c: nat)
    ensures c > capacity && c % 2 == 0
    ensures capacity > 0 ==> c == 2 * capacity
  {
    if capacity == 0 then 2 * DEFAULT_CAPACITY else 2 * capacity
  }

  /** The elements after the as-written expand: every slot holds a freshly
      constructed element. */
  function ExpandedAsWritten<T>(c: Cursor<T>, blank: T): (r: Cursor<T>)
    ensures |r.items| == |c.items| && r.pos == c.pos
  {
    Cursor(seq(|c.items|, _ => blank), c.pos)
  }

  /** The state an as-written copy ends in: the slots before the cursor are
      copied, the others keep the fresh buffer's elements. */
  function CopiedAsWritten<T>(c: Cursor<T>, blank: T): (r: Cursor<T>)
    requires ArrayWellFormed(c)
    ensures |r.items| == |c.items| && r.pos == c.pos
    ensures r.items[..c.pos] == c.items[..c.pos]
  {
    Cursor(c.items[..c.pos] + seq(|c.items| - c.pos, _ => blank), c.pos)
  }

  /** The as-written expand keeps a list only when it held nothing but blanks. */
  lemma ExpandedAsWrittenKeepsOnlyBlanks<T>(c: Cursor<T>, blank: T)
    ensures ExpandedAsWritten(c, blank) == c <==> forall i :: 0 <= i < |c.items| ==> c.items[i] == blank
  {
    if forall i :: 0 <= i < |c.items| ==> c.items[i] == blank {
      assert ExpandedAsWritten(c, blank).items == c.items;
    }
  }

  /** The as-written copy is exact only when every element from the cursor on
      is a blank. */
  lemma CopiedAsWrittenExactOnlyOnBlanks<T>(c: Cursor<T>, blank: T)
    requires ArrayWellFormed(c)
    ensures CopiedAsWritten(c, blank) == c <==> forall i :: c.pos <= i < |c.items| ==> c.items[i] == blank
  {
    var r := CopiedAsWritten(c, blank);
    if forall i :: c.pos <= i < |c.items| ==> c.items[i] == blank {
      forall i | 0 <= i < |c.items| ensures r.items[i] == c.items[i] {
        if i < c.pos { assert r.items[i] == r.items[..c.pos][i]; }
      }
      assert r.items == c.items;
    } else {
      var i :| c.pos <= i < |c.items| && c.items[i] != blank;
      assert r.items[i] == blank;
    }
  }

  /** Appending 1 to the full list <| 1> loses the 1 when expand is run as
      written; copying <| 1 2> loses both elements.  new T[] leaves int's
      slots with an indeterminate value, the model's blank, here 0. */
  lemma AsWrittenCounterexamples()
    ensures ExpandedAsWritten(Cursor([1], 0), 0) == Cursor([0], 0)
    ensures CopiedAsWritten(Cursor([1, 2], 0), 0) == Cursor([0, 0], 0)
  {
    assert seq(1, _ => 0) == [0];
    assert [1, 2][..0] + seq(2, _ => 0) == [0, 0];
  }

  class ArrayList<T(==)> {
    var data: array<T>
    var capacity: nat
    var length: nat
    var pos: nat
    const blank: T

    ghost predicate Valid()
      reads this, data
    {
      data.Length == capacity && length <= capacity && pos <= length
    }

    /** The elements and the cursor. */
    ghost function State(): (c: Cursor<T>)
      requires Valid()
      reads this, data
      ensures ArrayWellFormed(c)
    {
      Cursor(data[..length], pos)
    }

    constructor (blank: T)
      ensures Valid() && fresh(data) && capacity == DEFAULT_CAPACITY
      ensures State() == Cursor([], 0) && this.blank == blank
    {
      data := new T[DEFAULT_CAPACITY](_ => blank);
      capacity, length, pos := DEFAULT_CAPACITY, 0, 0;
      this.blank := blank;
    }

    constructor WithCapacity(initialCapacity: nat, blank: T)
      ensures Valid() && fresh(data) && capacity == initialCapacity
      ensures State() == Cursor([], 0) && this.blank == blank
    {
      data := new T[initialCapacity](_ => blank);
      capacity, length, pos := initialCapacity, 0, 0;
      this.blank := blank;
    }

    /** The static-array and the pointer constructors: the items, the cursor
        at 0, and at least the requested capacity. */
    constructor FromSeq(items: seq<T>, initialCapacity: nat, blank: T)
      ensures Valid() && fresh(data)
      ensures capacity == if initialCapacity < |items| then |items| else initialCapacity
      ensures State() == Cursor(items, 0) && this.blank == blank
    {
      var cap := if initialCapacity < |items| then |items| else initialCapacity;
      var d := new T[cap](_ => blank);
      for i := 0 to |items|
        invariant d[..i] == items[..i]
      {
        d[i] := items[i];
      }
      data := d;
      capacity, length, pos := cap, |items|, 0;
      this.blank := blank;
      assert d[..|items|] == items;
    }

    /** The copy constructor as written: only the slots before the cursor are
        copied. */
    constructor CopyAsWritten(other: ArrayList<T>)
      requires other.Valid()
      ensures Valid() && fresh(data) && capacity == other.capacity && blank == other.blank
      ensures State() == CopiedAsWritten(other.State(), other.blank)
    {
      var d := new T[other.capacity](_ => other.blank);
      CopyPrefix(other.data, d, other.pos);
      data := d;
      capacity, length, pos := other.capacity, other.length, other.pos;
      blank := other.blank;
      CopiedThenBlank(d[..], other.data[..other.length], other.pos, other.length, other.blank);
    }

    /** The copy constructor as intended: the copy has the source's elements
        and cursor in a buffer of its own. */
    constructor Copy(other: ArrayList<T>)
      requires other.Valid()
      ensures Valid() && fresh(data) && capacity == other.capacity && blank == other.blank
      ensures State() == other.State()
    {
      var d := new T[other.capacity](_ => other.blank);
      CopyPrefix(other.data, d, other.length);
      data := d;
      capacity, length, pos := other.capacity, other.length, other.pos;
      blank := other.blank;
      CopiedPrefix(d[..], other.data[..other.length], other.length);
    }

    /** The move constructor takes the buffer and leaves `other` empty with
        capacity 0. */
    constructor Move(other: ArrayList<T>)
      requires other.Valid()
      modifies other
      ensures Valid() && other.Valid() && capacity == old(other.capacity)
      ensures State() == old(other.State()) && blank == other.blank
      ensures other.capacity == 0 && other.State() == Cursor([], 0)
    {
      data := other.data;
      capacity, length, pos := other.capacity, other.length, other.pos;
      blank := other.blank;
      new;
      other.capacity, other.length, other.pos := 0, 0, 0;
      other.data := new T[0];
    }

    /** Copy assignment as written: the fields are taken over, a buffer is
        allocated and the slots before the cursor are copied from the buffer
        `other` has by then.  For a self-assignment that is the new buffer,
        so every element is lost. */
    method AssignAsWritten(other: ArrayList<T>)
      requires Valid() && other.Valid()
      modifies this
      ensures Valid() && fresh(data) && capacity == old(other.capacity)
      ensures this != other ==> State() == CopiedAsWritten(old(other.State()), blank)
      ensures this == other ==> State() == ExpandedAsWritten(old(State()), blank)
    {
      capacity := other.capacity;
      length := other.length;
      pos := other.pos;
      ghost var source := other.data[..other.length];
      var d := new T[capacity](_ => blank);
      data := d;
      CopyPrefix(other.data, d, other.pos);
      if this == other {
        CopiedThenBlank(d[..], [], 0, length, blank);
      } else {
        CopiedThenBlank(d[..], source, pos, length, blank);
      }
    }

    /** Copy assignment as intended: afterwards the list equals `other`, a
        self-assignment included. */
    method Assign(other: ArrayList<T>)
      requires Valid() && other.Valid()
      modifies this
      ensures Valid() && fresh(data) && capacity == old(other.capacity)
      ensures State() == old(other.State())
    {
      var source := other.data;
      var d := new T[other.capacity](_ => blank);
      CopyPrefix(source, d, other.length);
      capacity, length, pos := other.capacity, other.length, other.pos;
      data := d;
      CopiedPrefix(d[..], source[..length], length);
    }

    /** Move assignment: the buffer changes hands and `other` is left empty
        with capacity 0; a self-move therefore empties the list. */
    method MoveAssign(other: ArrayList<T>)
      requires Valid() && other.Valid()
      modifies this, other
      ensures Valid() && other.Valid()
      ensures other.capacity == 0 && other.State() == Cursor([], 0)
      ensures this != other ==> State() == old(other.State()) && capacity == old(other.capacity)
    {
      capacity := other.capacity;
      length := other.length;
      pos := other.pos;
      data := other.data;
      other.capacity := 0;
      other.length := 0;
      other.pos := 0;
      other.data := new T[0];
    }

    /** expand as written: the new buffer's slots before the cursor are copied
        into the old buffer, which is then released, so the list keeps its
        length but not its elements. */
    method ExpandAsWritten()
      requires Valid()
      modifies this, data
      ensures Valid() && fresh(data) && capacity == Grown(old(capacity))
      ensures State() == ExpandedAsWritten(old(State()), blank)
    {
      var oldData := data;
      if capacity == 0 {
        capacity := DEFAULT_CAPACITY;
      }
      capacity := capacity * 2;
      data := new T[capacity](_ => blank);
      CopyPrefix(data, oldData, pos);
      CopiedThenBlank(data[..], [], 0, length, blank);
    }

    /** expand as intended: a buffer of the grown capacity holding the same
        elements. */
    method Expand()
      requires Valid()
      modifies this
      ensures Valid() && fresh(data) && capacity == Grown(old(capacity))
      ensures State() == old(State())
    {
      var oldData := data;
      var d := new T[Grown(capacity)](_ => blank);
      CopyPrefix(oldData, d, length);
      capacity := Grown(capacity);
      data := d;
      CopiedPrefix(d[..], oldData[..length], length);
    }

    /** clear keeps the buffer and its capacity. */
    method Clear()
      requires Valid()
      modifies this
      ensures Valid() && data == old(data) && capacity == old(capacity)
      ensures State() == ListSpec.Clear(old(State()))
    {
      pos, length := 0, 0;
    }

    method Insert(x: T)
      requires Valid()
      modifies this, data
      ensures Valid() && capacity >= old(capacity)
      ensures State() == ListSpec.Insert(old(State()), x)
    {
      if length >= capacity {
        Expand();
      }
      ghost var before := data[..length];
      ShiftUp(data, pos, length);
      data[pos] := x;
      length := length + 1;
      OpenedAt(data[..], before, pos, x);
    }

    method Append(x: T)
      requires Valid()
      modifies this, data
      ensures Valid() && capacity >= old(capacity)
      ensures State() == ListSpec.Append(old(State()), x)
    {
      if length >= capacity {
        Expand();
      }
      data[length] := x;
      length := length + 1;
    }

    /** remove as written: the loop copies each slot from the one above it,
        starting at the top, so the last element fills every slot from the
        cursor up. */
    method RemoveAsWritten() returns (r: Result<T>)
      requires Valid()
      modifies this, data
      ensures Valid() && data == old(data) && capacity == old(capacity)
      ensures ArrayRemoveAsWritten(old(State())).Err? ==> r == Err(ArrayRemoveAsWritten(old(State())).failure) && State() == old(State())
      ensures ArrayRemoveAsWritten(old(State())).Ok? ==>
        r == Ok(ArrayRemoveAsWritten(old(State())).value.0) && State() == ArrayRemoveAsWritten(old(State())).value.1
    {
      if length == 0 {
        return Err(EmptyContainer);
      }
      if pos >= length {
        return Err(PastEnd);
      }
      var v := data[pos];
      ghost var before := data[..length];
      ShiftDownAsWritten(data, pos, length);
      length := length - 1;
      FilledFrom(data[..], before, pos);
      r := Ok(v);
    }

    /** remove as its comment promises: the elements after the cursor shift
        one slot left. */
    method Remove() returns (r: Result<T>)
      requires Valid()
      modifies this, data
      ensures Valid() && data == old(data) && capacity == old(capacity)
      ensures ArrayRemove(old(State())).Err? ==> r == Err(ArrayRemove(old(State())).failure) && State() == old(State())
      ensures ArrayRemove(old(State())).Ok? ==>
        r == Ok(ArrayRemove(old(State())).value.0) && State() == ArrayRemove(old(State())).value.1
    {
      if length == 0 {
        return Err(EmptyContainer);
      }
      if pos >= length {
        return Err(PastEnd);
      }
      var v := data[pos];
      ghost var before := data[..length];
      ShiftDown(data, pos, length);
      length := length - 1;
      ClosedAt(data[..], before, pos);
      r := Ok(v);
    }

    method MoveToStart()
      requires Valid()
      modifies this
      ensures Valid() && data == old(data) && capacity == old(capacity)
      ensures State() == ListSpec.MoveToStart(old(State()))
    {
      pos := 0;
    }

    /** The end of an array list is one past its last element. */
    method MoveToEnd()
      requires Valid()
      modifies this
      ensures Valid() && data == old(data) && capacity == old(capacity)
      ensures State() == ArrayMoveToEnd(old(State()))
    {
      pos := length;
    }

    method Prev()
      requires Valid()
      modifies this
      ensures Valid() && data == old(data) && capacity == old(capacity)
      ensures State() == ArrayPrev(old(State()))
    {
      if pos > 0 {
        pos := pos - 1;
      }
    }

    method Next()
      requires Valid()
      modifies this
      ensures Valid() && data == old(data) && capacity == old(capacity)
      ensures State() == ArrayNext(old(State()))
    {
      if pos < length {
        pos := pos + 1;
      }
    }

    function Length(): (n: nat)
      requires Valid()
      reads this, data
      ensures n == |State().items|
    {
      length
    }

    function CurrPos(): (p: nat)
      requires Valid()
      reads this, data
      ensures p == State().pos && p <= |State().items|
    {
      pos
    }

    /** moveToPos clamps a position beyond the end to the end. */
    method MoveToPos(p: nat)
      requires Valid()
      modifies this
      ensures Valid() && data == old(data) && capacity == old(capacity)
      ensures State() == ArrayMoveToPos(old(State()), p)
    {
      pos := p;
      if pos > length {
        pos := length;
      }
    }

    function GetValue(): (r: Result<T>)
      requires Valid()
      reads this, data
      ensures r == ArrayGetValue(State())
      ensures r.Ok? <==> pos < length
    {
      if length == 0 then Err(EmptyContainer)
      else if pos == length then Err(PastEnd)
      else Ok(data[pos])
    }

    method Search(x: T) returns (r: nat)
      requires Valid() && length < NPOS
      ensures r == ListSpec.Search(State().items, x)
      ensures r == NPOS <==> x !in State().items
      ensures r != NPOS ==> r < length && data[r] == x && x !in data[..r]
    {
      for i := 0 to length
        invariant x !in data[..i]
      {
        if data[i] == x {
          SearchIsFirstMatch(data[..length], x, i);
          assert data[..length][..i] == data[..i];
          return i;
        }
        assert data[..i + 1] == data[..i] + [data[i]];
      }
      assert data[..length] == data[..length][..length];
      r := NPOS;
    }
  }

  /** std::copy of the first n slots of `src` into `dst`. */
  method CopyPrefix<T>(src: array<T>, dst: array<T>, n: nat)
    requires n <= src.Length && n <= dst.Length
    modifies dst
    ensures forall k :: 0 <= k < n ==> dst[k] == old(src[k])
    ensures forall k :: n <= k < dst.Length ==> dst[k] == old(dst[k])
  {
    for i := 0 to n
      invariant forall k :: 0 <= k < i ==> dst[k] == old(src[k])
      invariant forall k :: i <= k < dst.Length ==> dst[k] == old(dst[k])
      invariant src != dst ==> forall k :: 0 <= k < src.Length ==> src[k] == old(src[k])
    {
      dst[i] := src[i];
    }
  }

  /** The insert loop: the slots [lo, hi) move one slot up. */
  method ShiftUp<T>(a: array<T>, lo: nat, hi: nat)
    requires lo <= hi < a.Length
    modifies a
    ensures forall k :: 0 <= k < lo ==> a[k] == old(a[k])
    ensures forall k :: lo < k <= hi ==> a[k] == old(a[k - 1])
    ensures forall k :: hi < k < a.Length ==> a[k] == old(a[k])
  {
    var i := hi;
    while i > lo
      invariant lo <= i <= hi
      invariant forall k :: 0 <= k < i ==> a[k] == old(a[k])
      invariant forall k :: i < k <= hi ==> a[k] == old(a[k - 1])
      invariant forall k :: hi < k < a.Length ==> a[k] == old(a[k])
    {
      a[i] := a[i - 1];
      i := i - 1;
    }
  }

  /** The remove loop as written: each slot from hi - 2 down to lo takes the
      slot above it, which already holds the element of slot hi - 1. */
  method ShiftDownAsWritten<T>(a: array<T>, lo: nat, hi: nat)
    requires lo < hi <= a.Length
    modifies a
    ensures forall k :: 0 <= k < lo ==> a[k] == old(a[k])
    ensures forall k :: lo <= k < hi ==> a[k] == old(a[hi - 1])
    ensures forall k :: hi <= k < a.Length ==> a[k] == old(a[k])
  {
    var i := hi - 1;
    while i > lo
      invariant lo <= i <= hi - 1
      invariant forall k :: 0 <= k < i ==> a[k] == old(a[k])
      invariant forall k :: i <= k < hi ==> a[k] == old(a[hi - 1])
      invariant forall k :: hi <= k < a.Length ==> a[k] == old(a[k])
    {
      a[i - 1] := a[i];
      i := i - 1;
    }
  }

  /** The left shift remove's comment promises: the slots (lo, hi) move one
      slot down. */
  method ShiftDown<T>(a: array<T>, lo: nat, hi: nat)
    requires lo < hi <= a.Length
    modifies a
    ensures forall k :: 0 <= k < lo ==> a[k] == old(a[k])
    ensures forall k :: lo <= k < hi - 1 ==> a[k] == old(a[k + 1])
    ensures forall k :: hi - 1 <= k < a.Length ==> a[k] == old(a[k])
  {
    for i := lo to hi - 1
      invariant forall k :: 0 <= k < lo ==> a[k] == old(a[k])
      invariant forall k :: lo <= k < i ==> a[k] == old(a[k + 1])
      invariant forall k :: i <= k < a.Length ==> a[k] == old(a[k])
    {
      a[i] := a[i + 1];
    }
  }

  // Reading a buffer back as a sequence after the loops above.

  lemma CopiedPrefix<T>(s: seq<T>, src: seq<T>, n: nat)
    requires n <= |s| && n <= |src|
    requires forall i :: 0 <= i < n ==> s[i] == src[i]
    ensures s[..n] == src[..n]
  {
  }

  lemma CopiedThenBlank<T>(s: seq<T>, src: seq<T>, k: nat, n: nat, blank: T)
    requires k <= n <= |s| && k <= |src|
    requires forall i :: 0 <= i < k ==> s[i] == src[i]
    requires forall i :: k <= i < n ==> s[i] == blank
    ensures s[..n] == src[..k] + seq(n - k, _ => blank)
  {
  }

  lemma OpenedAt<T>(s: seq<T>, before: seq<T>, pos: nat, x: T)
    requires pos <= |before| < |s|
    requires forall i :: 0 <= i < pos ==> s[i] == before[i]
    requires s[pos] == x
    requires forall i :: pos < i <= |before| ==> s[i] == before[i - 1]
    ensures s[..|before| + 1] == before[..pos] + [x] + before[pos..]
  {
  }

  lemma ClosedAt<T>(s: seq<T>, before: seq<T>, pos: nat)
    requires pos < |before| <= |s|
    requires forall i :: 0 <= i < pos ==> s[i] == before[i]
    requires forall i :: pos <= i < |before| - 1 ==> s[i] == before[i + 1]
    ensures s[..|before| - 1] == Without(before, pos)
  {
  }

  lemma FilledFrom<T>(s: seq<T>, before: seq<T>, pos: nat)
    requires pos < |before| <= |s|
    requires forall i :: 0 <= i < pos ==> s[i] == before[i]
    requires forall i :: pos <= i < |before| - 1 ==> s[i] == before[|before| - 1]
    ensures s[..|before| - 1] == before[..pos] + seq(|before| - 1 - pos, _ => before[|before| - 1])
  {
  }
}

/** The array stack of assignment-2/arraystack.h.  The elements sit in a
    buffer of `capacity` slots, growing from slot 0 upwards when the
    direction `dir` is 1 and from the last slot downwards when it is -1, so
    that two stacks can share one buffer from its two ends.  A stack either
    owns its buffer, and then doubles it when full, or borrows a buffer from
    its caller, and then fails instead of growing.

    A freshly allocated buffer holds default-constructed elements; `blank` is
    that value.  A moved-from stack has capacity 0 and a buffer of length 0
    in place of the null pointer.

    The copy constructor and copy assignment are written twice: the
    `...AsWritten` members follow the code, which writes the copied elements
    to the bottom of the buffer whatever the direction; the plain members
    place them where the direction puts them. */
module ArrayStacks {
  import opened Outcomes
  import StackSpec

  const DEFAULT_CAPACITY: nat := 8

  predicate IsDirection(dir: int)
  {
    dir == 1 || dir == -1
  }

  /** Slot of the i-th element from the bottom: counted from slot 0 upwards,
      or from the last slot downwards. */
  function Slot(i: int, dir: int, capacity: int): int
  {
    if dir == 1 then i else capacity - 1 - i
  }

  /** array_pos: the slot of the top element. */
  function ArrayPos(length: int, dir: int, capacity: int): int
  {
    (length - 1) * dir + (if dir < 0 then 1 else 0) * (capacity - 1)
  }

  /** next_array_pos: the slot the next push writes. */
  function NextArrayPos(length: int, dir: int, capacity: int): int
  {
    length * dir + (if dir < 0 then 1 else 0) * (capacity - 1)
  }

  /** With dir 1 the elements occupy [0, length) and the top is at
      length - 1; with dir -1 they occupy [capacity - length, capacity) and
      the top is at capacity - length.  Distinct elements have distinct
      slots, and the next push goes right past the top. */
  lemma Layout(length: nat, dir: int, capacity: nat)
    requires IsDirection(dir) && length <= capacity
    ensures length > 0 ==> ArrayPos(length, dir, capacity) == Slot(length - 1, dir, capacity)
    ensures length > 0 ==> ArrayPos(length, dir, capacity) == if dir == 1 then length - 1 else capacity - length
    ensures NextArrayPos(length, dir, capacity) == Slot(length, dir, capacity)
    ensures forall i :: 0 <= i < length ==>
      if dir == 1 then 0 <= Slot(i, dir, capacity) < length
      else capacity - length <= Slot(i, dir, capacity) < capacity
    ensures forall i, j :: 0 <= i < j <= length ==> Slot(i, dir, capacity) != Slot(j, dir, capacity)
  {
    if dir == 1 {
      assert ArrayPos(length, dir, capacity) == length - 1;
      assert NextArrayPos(length, dir, capacity) == length;
    } else {
      assert ArrayPos(length, dir, capacity) == capacity - length;
      assert NextArrayPos(length, dir, capacity) == capacity - 1 - length;
    }
  }

  /** The stack, bottom first, that a buffer holds. */
  function StackOf<T>(buf: seq<T>, length: nat, dir: int, capacity: nat): (s: seq<T>)
    requires IsDirection(dir) && length <= capacity <= |buf|
    ensures |s| == length
  {
    seq(length, i requires 0 <= i < length => buf[Slot(i, dir, capacity)])
  }

  /** The occupied slots in buffer order: bottom first for dir 1, top first
      for dir -1. */
  function Region<T>(buf: seq<T>, length: nat, dir: int, capacity: nat): (r: seq<T>)
    requires IsDirection(dir) && length <= capacity <= |buf|
    ensures |r| == length
  {
    if dir == 1 then buf[..length] else buf[capacity - length..capacity]
  }

  /** The first occupied slot. */
  function RegionStart(length: nat, dir: int, capacity: nat): nat
    requires length <= capacity
  {
    if dir == 1 then 0 else capacity - length
  }

  /** A buffer with `part` written from slot `at` on. */
  function Placed<T>(buf: seq<T>, at: nat, part: seq<T>): (r: seq<T>)
    requires at + |part| <= |buf|
    ensures |r| == |buf|
  {
    buf[..at] + part + buf[at + |part|..]
  }

  /** Writing one stack's occupied region at the start of the region the
      same length and direction take in another buffer gives the same stack
      there. */
  lemma RegionPlacedKeepsStack<T>(src: seq<T>, dst: seq<T>, length: nat, dir: int, capacity: nat, dcapacity: nat)
    requires IsDirection(dir) && length <= capacity <= |src| && length <= dcapacity <= |dst|
    ensures StackOf(Placed(dst, RegionStart(length, dir, dcapacity), Region(src, length, dir, capacity)), length, dir, dcapacity)
         == StackOf(src, length, dir, capacity)
  {
    var b := Placed(dst, RegionStart(length, dir, dcapacity), Region(src, length, dir, capacity));
    forall i | 0 <= i < length
      ensures b[Slot(i, dir, dcapacity)] == src[Slot(i, dir, capacity)]
    {
      if dir == 1 {
        assert b[i] == Region(src, length, dir, capacity)[i];
      } else {
        var k := dcapacity - 1 - i - (dcapacity - length);
        assert b[dcapacity - 1 - i] == Region(src, length, dir, capacity)[k];
      }
    }
  }

  /** Pushing writes the slot past the top. */
  lemma PushedOnto<T>(before: seq<T>, after: seq<T>, length: nat, dir: int, capacity: nat, x: T)
    requires IsDirection(dir) && length < capacity <= |before| == |after|
    requires after == before[Slot(length, dir, capacity) := x]
    ensures StackOf(after, length + 1, dir, capacity) == StackOf(before, length, dir, capacity) + [x]
  {
    Layout(length + 1, dir, capacity);
  }

  /** Popping reads the top slot and forgets it. */
  lemma PoppedFrom<T>(buf: seq<T>, length: nat, dir: int, capacity: nat)
    requires IsDirection(dir) && 0 < length <= capacity <= |buf|
    ensures StackOf(buf, length - 1, dir, capacity) == StackOf(buf, length, dir, capacity)[..length - 1]
    ensures StackOf(buf, length, dir, capacity)[length - 1] == buf[ArrayPos(length, dir, capacity)]
  {
    Layout(length, dir, capacity);
  }

  /** Overwriting the top slot replaces the top element only. */
  lemma TopOverwritten<T>(before: seq<T>, after: seq<T>, length: nat, dir: int, capacity: nat, x: T)
    requires IsDirection(dir) && 0 < length <= capacity <= |before| == |after|
    requires after == before[Slot(length - 1, dir, capacity) := x]
    ensures StackOf(after, length, dir, capacity) == StackOf(before, length, dir, capacity)[length - 1 := x]
  {
    Layout(length, dir, capacity);
  }

  /** Capacity after expand: a moved-from stack restarts from the default,
      then the capacity doubles. */
  function Grown(capacity: nat): (c: nat)
    ensures c > capacity && c % 2 == 0
    ensures capacity > 0 ==> c == 2 * capacity
  {
    if capacity == 0 then 2 * DEFAULT_CAPACITY else 2 * capacity
  }

  /** The capacity fit_and_allocate's loop reaches: doubled until it holds
      n elements.  From 0 the loop never ends, hence the precondition. */
  function Fitted(c: nat, n: nat): (r: nat)
    requires c > 0 || n == 0
    ensures r >= n && r >= c
    ensures r == c || r < 2 * n
    decreases n - c
  {
    if c >= n then c else Fitted(2 * c, n)
  }

  /** The capacity after k rounds of fit_and_allocate's loop. */
  function Doubled(c: nat, k: nat): nat
    decreases k
  {
    if k == 0 then c else Doubled(2 * c, k - 1)
  }

  /** From capacity 0 no number of rounds reaches a positive length, so
      fit_and_allocate never returns for a non-empty initialiser list with
      initial capacity 0, nor for a copy assignment into a moved-from stack. */
  lemma {:induction false} FitLoopStaysAtZero(n: nat, k: nat)
    requires n > 0
    ensures Doubled(0, k) == 0 < n
  {
    if k > 0 {
      FitLoopStaysAtZero(n, k - 1);
    }
  }

  /** fit_and_allocate as intended: like expand, a capacity of 0 starts
      again from the default. */
  function FittedCorrected(c: nat, n: nat): (r: nat)
    ensures r >= n && r >= 1 && r >= c
    ensures c > 0 ==> r == Fitted(c, n)
  {
    Fitted(if c == 0 then DEFAULT_CAPACITY else c, n)
  }

  class ArrayStack<T> {
    var capacity: nat
    var length: nat
    var data: array<T>
    var owns: bool
    var dir: int
    const blank: T

    ghost predicate Valid()
      reads this
    {
      IsDirection(dir) && length <= capacity <= data.Length
    }

    /** The elements, bottom first. */
    ghost function Elements(): seq<T>
      requires Valid()
      reads this, data
    {
      StackOf(data[..], length, dir, capacity)
    }

    /** An empty stack owning a buffer of the given capacity. */
    constructor (initialCapacity: nat, blank: T)
      ensures Valid() && fresh(data) && Elements() == []
      ensures capacity == initialCapacity == data.Length && owns && dir == 1 && this.blank == blank
    {
      data := new T[initialCapacity](_ => blank);
      capacity, length, owns, dir := initialCapacity, 0, true, 1;
      this.blank := blank;
    }

    /** The initialiser-list constructor: the capacity grows by doubling
        until the items fit, then the items are copied in, the last one on
        top. */
    constructor FromSeq(items: seq<T>, initialCapacity: nat, blank: T)
      requires initialCapacity > 0 || |items| == 0
      ensures Valid() && fresh(data) && Elements() == items
      ensures capacity == Fitted(initialCapacity, |items|) == data.Length && owns && dir == 1
    {
      var c, d := FitAndAllocate(initialCapacity, |items|, blank);
      for i := 0 to |items|
        invariant forall k :: 0 <= k < i ==> d[k] == items[k]
      {
        d[i] := items[i];
      }
      data, capacity, length, owns, dir := d, c, |items|, true, 1;
      this.blank := blank;
    }

    /** A stack on a caller's buffer, which it does not own; the direction
        is checked by Borrowing. */
    constructor Borrow(capacity: nat, buffer: array<T>, dir: int, blank: T)
      requires capacity <= buffer.Length && IsDirection(dir)
      ensures Valid() && Elements() == [] && data == buffer
      ensures this.capacity == capacity && !owns && this.dir == dir
    {
      data, this.capacity, length, owns, this.dir := buffer, capacity, 0, false, dir;
      this.blank := blank;
    }

    /** The copy constructor as written: the copy keeps the source's
        direction, but copy_from writes the occupied slots to the bottom of
        the new buffer. */
    constructor CopyAsWritten(other: ArrayStack<T>)
      requires other.Valid()
      ensures Valid() && fresh(data) && owns && dir == other.dir && capacity == other.capacity
      ensures Elements() == StackOf(CopiedAsWritten(other.data[..], other.length, other.dir, other.capacity, seq(other.capacity, _ => other.blank)),
                                    other.length, other.dir, other.capacity)
    {
      var d := new T[other.capacity](_ => other.blank);
      CopyFromAsWritten(other.data, other.length, other.dir, other.capacity, d);
      data, capacity, length, owns, dir := d, other.capacity, other.length, true, other.dir;
      blank := other.blank;
    }

    /** The copy constructor as intended: the copy holds the same stack. */
    constructor Copy(other: ArrayStack<T>)
      requires other.Valid()
      ensures Valid() && fresh(data) && owns && dir == other.dir && capacity == other.capacity
      ensures Elements() == other.Elements()
    {
      var d := new T[other.capacity](_ => other.blank);
      CopyFrom(other.data, other.length, other.dir, other.capacity, d, other.capacity);
      data, capacity, length, owns, dir := d, other.capacity, other.length, true, other.dir;
      blank := other.blank;
    }

    /** The move constructor takes the buffer; `other` is left empty with
        capacity 0 and owning (nothing), so its next push allocates. */
    constructor Move(other: ArrayStack<T>)
      requires other.Valid()
      modifies other
      ensures Valid() && other.Valid()
      ensures Elements() == old(other.Elements()) && data == old(other.data)
      ensures capacity == old(other.capacity) && owns == old(other.owns) && dir == old(other.dir)
      ensures other.capacity == 0 && other.length == 0 && other.owns && other.dir == old(other.dir)
      ensures other.Elements() == []
    {
      data, capacity, length, owns, dir := other.data, other.capacity, other.length, other.owns, other.dir;
      blank := other.blank;
      new;
      other.capacity, other.length, other.owns := 0, 0, true;
      other.data := new T[0];
    }

    /** Copy assignment as written.  The length is taken over before the
        capacity check, so when a borrowed buffer is too small the stack is
        left claiming more elements than its capacity; the copied elements
        go to the bottom of the buffer whatever the direction. */
    method AssignAsWritten(other: ArrayStack<T>) returns (r: Result<()>)
      requires Valid() && other.Valid() && (this != other ==> data != other.data)
      requires this == other || capacity > 0 || other.length <= capacity || !owns
      modifies this, data
      ensures r.Err? <==> this != other && old(capacity) < old(other.length) && !old(owns)
      ensures r.Err? ==> r.failure == CapacityExceeded
      ensures r.Err? ==> length == old(other.length) > capacity == old(capacity) && !Valid()
      ensures r.Ok? ==> Valid() && owns == old(owns)
      ensures r.Ok? && this == other ==> Elements() == old(Elements())
      ensures r.Ok? && this != other ==> Valid() && dir == old(other.dir) && length == old(other.length)
      ensures r.Ok? && this != other && old(capacity) >= old(other.length) ==> capacity == old(capacity) && data == old(data)
      ensures r.Ok? && this != other ==>
        data[..] == CopiedAsWritten(old(other.data[..]), length, dir, old(other.capacity),
                                    if old(capacity) < length then seq(capacity, _ => blank) else old(data[..]))
    {
      if this == other {
        return Ok(());
      }
      length := other.length;
      if capacity < other.length {
        if !owns {
          return Err(CapacityExceeded);
        }
        var c, d := FitAndAllocate(capacity, length, blank);
        capacity, data := c, d;
      }
      assert data[..] == if old(capacity) < length then seq(capacity, _ => blank) else old(data[..]);
      CopyFromAsWritten(other.data, other.length, other.dir, other.capacity, data);
      dir := other.dir;
      r := Ok(());
    }

    /** Copy assignment as intended: the capacity check comes first and
        changes nothing when it fails, a moved-from stack grows from the
        default capacity, and the elements go where the direction puts
        them. */
    method Assign(other: ArrayStack<T>) returns (r: Result<()>)
      requires Valid() && other.Valid() && (this != other ==> data != other.data)
      modifies this, data
      ensures Valid() && owns == old(owns)
      ensures r.Err? <==> this != other && old(capacity) < old(other.length) && !old(owns)
      ensures r.Err? ==> r.failure == CapacityExceeded && Elements() == old(Elements()) && dir == old(dir)
      ensures r.Ok? ==> Elements() == old(other.Elements()) && dir == old(other.dir)
      ensures capacity == if r.Ok? && old(capacity) < old(other.length) then FittedCorrected(old(capacity), old(other.length)) else old(capacity)
    {
      if this == other {
        return Ok(());
      }
      if capacity < other.length {
        if !owns {
          return Err(CapacityExceeded);
        }
        var c := FittedCorrected(capacity, other.length);
        data := new T[c](_ => blank);
        capacity := c;
      }
      CopyFrom(other.data, other.length, other.dir, other.capacity, data, capacity);
      length, dir := other.length, other.dir;
      r := Ok(());
    }

    /** Move assignment: the lengths and directions go over, the capacities,
        buffers and ownership are swapped, and `other` is left empty on this
        stack's old buffer. */
    method MoveAssign(other: ArrayStack<T>)
      requires Valid() && other.Valid()
      modifies this, other
      ensures Valid() && other.Valid()
      ensures this != other ==> Elements() == old(other.Elements()) && dir == old(other.dir)
      ensures this != other ==> data == old(other.data) && capacity == old(other.capacity) && owns == old(other.owns)
      ensures this != other ==> other.data == old(data) && other.capacity == old(capacity) && other.owns == old(owns)
      ensures this != other ==> other.Elements() == [] && other.dir == old(other.dir)
      ensures this == other ==> Elements() == old(Elements())
    {
      if this == other {
        return;
      }
      length, dir := other.length, other.dir;
      capacity, other.capacity := other.capacity, capacity;
      data, other.data := other.data, data;
      owns, other.owns := other.owns, owns;
      other.length := 0;
    }

    /** expand: only an owned buffer grows.  It is called when the stack is
        full, so for dir -1 the elements fill the old buffer and move to
        the upper half of the new one. */
    method Expand() returns (r: Result<()>)
      requires Valid() && length == capacity
      modifies this
      ensures Valid() && length == old(length) && dir == old(dir) && owns == old(owns)
      ensures r.Err? <==> !owns
      ensures r.Err? ==> r.failure == CapacityExceeded && capacity == old(capacity) && data == old(data)
      ensures r.Ok? ==> fresh(data) && capacity == Grown(old(capacity)) == data.Length
      ensures Elements() == old(Elements())
    {
      if !owns {
        return Err(CapacityExceeded);
      }
      var oldData := data;
      if capacity == 0 {
        capacity := DEFAULT_CAPACITY;
      }
      capacity := capacity * 2;
      var d := new T[capacity](_ => blank);
      ghost var blanks := d[..];
      if dir > 0 {
        CopySlice(oldData, 0, d, 0, length);
        CopiedIsPlaced(d[..], blanks, oldData[..], 0, 0, length);
      } else {
        CopySlice(oldData, 0, d, length, length);
        CopiedIsPlaced(d[..], blanks, oldData[..], 0, length, length);
      }
      data := d;
      if length > 0 {
        assert capacity == 2 * length;
        RegionPlacedKeepsStack(oldData[..], blanks, length, dir, length, capacity);
      }
      r := Ok(());
    }

    /** clear keeps the buffer, its capacity and the direction. */
    method Clear()
      requires Valid()
      modifies this
      ensures Valid() && Elements() == []
      ensures data == old(data) && capacity == old(capacity) && dir == old(dir) && owns == old(owns)
    {
      length := 0;
    }

    /** push: a full stack expands first, which fails on a borrowed buffer
        before anything changes. */
    method Push(x: T) returns (r: Result<()>)
      requires Valid()
      modifies this, data
      ensures Valid() && dir == old(dir) && owns == old(owns)
      ensures r.Err? <==> old(length == capacity) && !owns
      ensures r.Err? ==> r.failure == CapacityExceeded && Elements() == old(Elements())
      ensures r.Ok? ==> Elements() == old(Elements()) + [x]
      ensures capacity == if old(length == capacity) && owns then Grown(old(capacity)) else old(capacity)
      ensures old(length) < old(capacity) ==> data == old(data)
      ensures data == old(data) || (fresh(data) && data.Length == capacity)
    {
      if length >= capacity {
        r := Expand();
        if r.Err? {
          return;
        }
      }
      ghost var before := data[..];
      Layout(length, dir, capacity);
      data[NextArrayPos(length, dir, capacity)] := x;
      PushedOnto(before, data[..], length, dir, capacity, x);
      length := length + 1;
      r := Ok(());
    }

    /** pop: the top element comes off; an empty stack fails. */
    method Pop() returns (r: Result<T>)
      requires Valid()
      modifies this
      ensures Valid() && data == old(data) && capacity == old(capacity) && dir == old(dir) && owns == old(owns)
      ensures StackSpec.Pop(old(Elements())).Err? ==> r == Err(EmptyContainer) && Elements() == old(Elements())
      ensures StackSpec.Pop(old(Elements())).Ok? ==>
        r == Ok(StackSpec.Pop(old(Elements())).value.0) && Elements() == StackSpec.Pop(old(Elements())).value.1
    {
      if length == 0 {
        return Err(EmptyContainer);
      }
      PoppedFrom(data[..], length, dir, capacity);
      var v := data[ArrayPos(length, dir, capacity)];
      length := length - 1;
      r := Ok(v);
    }

    function Length(): (n: nat)
      requires Valid()
      reads this, data
      ensures n == |Elements()|
    {
      length
    }

    /** topValue: the element in the top slot. */
    function TopValue(): (r: Result<T>)
      requires Valid()
      reads this, data
      ensures r == StackSpec.Top(Elements())
    {
      if length == 0 then Err(EmptyContainer)
      else
        PoppedFrom(data[..], length, dir, capacity);
        Ok(data[ArrayPos(length, dir, capacity)])
    }

    /** An assignment through the reference topValue returns: the top
        element is replaced. */
    method SetTop(x: T) returns (r: Result<()>)
      requires Valid()
      modifies data
      ensures Valid()
      ensures r.Err? <==> length == 0
      ensures r.Err? ==> r.failure == EmptyContainer
      ensures Elements() == if length == 0 then old(Elements()) else old(Elements())[length - 1 := x]
    {
      if length == 0 {
        return Err(EmptyContainer);
      }
      ghost var before := data[..];
      Layout(length, dir, capacity);
      data[ArrayPos(length, dir, capacity)] := x;
      TopOverwritten(before, data[..], length, dir, capacity, x);
      r := Ok(());
    }

    /** setDirection: only an empty stack may change direction, and only
        to 1 or -1. */
    method SetDirection(d: int) returns (r: Result<()>)
      requires Valid()
      modifies this
      ensures Valid() && length == old(length) && capacity == old(capacity) && data == old(data) && owns == old(owns)
      ensures r == if old(length) > 0 then Err(NonEmptyStack) else if !IsDirection(d) then Err(InvalidDirection) else Ok(())
      ensures dir == if r.Ok? then d else old(dir)
    {
      if length > 0 {
        return Err(NonEmptyStack);
      }
      if d != 1 && d != -1 {
        return Err(InvalidDirection);
      }
      dir := d;
      r := Ok(());
    }
  }

  /** The borrowing constructor with its check: a direction other than 1 or
      -1 throws. */
  method Borrowing<T>(capacity: nat, buffer: array<T>, dir: int, blank: T) returns (r: Result<ArrayStack<T>>)
    requires capacity <= buffer.Length
    ensures r.Err? <==> !IsDirection(dir)
    ensures r.Err? ==> r.failure == InvalidDirection
    ensures r.Ok? ==> fresh(r.value) && r.value.Valid() && r.value.Elements() == [] && r.value.data == buffer
    ensures r.Ok? ==> r.value.capacity == capacity && !r.value.owns && r.value.dir == dir
  {
    if dir != 1 && dir != -1 {
      return Err(InvalidDirection);
    }
    var s := new ArrayStack.Borrow(capacity, buffer, dir, blank);
    r := Ok(s);
  }

  /** operator<<: the stack is drained into a temporary stack, then the
      temporary is popped, each element written and pushed back, so the
      stack ends as it began and the text shows it bottom first. */
  method Write<T>(os: string, stack: ArrayStack<T>, show: T -> string) returns (out: string)
    requires stack.Valid()
    modifies stack, stack.data
    ensures stack.Valid() && stack.Elements() == old(stack.Elements())
    ensures stack.data == old(stack.data) && stack.capacity == old(stack.capacity)
    ensures out == os + StackSpec.Render(old(stack.Elements()), show)
  {
    ghost var orig := stack.Elements();
    var temp := new ArrayStack(DEFAULT_CAPACITY, stack.blank);
    DrainAll(stack, temp, orig);
    out := RefillAll(os + "<", stack, temp, orig, show, ", ");
    StackSpec.PrintingRendered(os, orig, show);
    out := out + ">";
  }

  /** The draining loop: every element of `s` moves onto the owning
      stack `t`. */
  method DrainAll<T>(s: ArrayStack<T>, t: ArrayStack<T>, ghost orig: seq<T>)
    requires s.Valid() && t.Valid() && t.owns && s != t && s.data != t.data
    requires orig == s.Elements() + StackSpec.Reversed(t.Elements())
    modifies s, t, t.data
    ensures s.Valid() && t.Valid() && s.Elements() == [] && s.data != t.data && s.owns == old(s.owns)
    ensures s.data == old(s.data) && s.capacity == old(s.capacity)
    ensures t.data == old(t.data) || fresh(t.data)
    ensures orig == s.Elements() + StackSpec.Reversed(t.Elements())
  {
    while s.Length() > 0
      invariant s.Valid() && t.Valid() && t.owns && s.data != t.data && s.owns == old(s.owns)
      invariant s.data == old(s.data) && s.capacity == old(s.capacity)
      invariant t.data == old(t.data) || fresh(t.data)
      invariant orig == s.Elements() + StackSpec.Reversed(t.Elements())
      decreases s.length
    {
      DrainStep(s, t, orig);
    }
  }

  /** The refilling loop: every element of `t` is written behind `pre`,
      separated by `sep`, and pushed back onto `s`, which has room for
      them all. */
  method RefillAll<T>(pre: string, s: ArrayStack<T>, t: ArrayStack<T>, ghost orig: seq<T>, show: T -> string, sep: string)
      returns (out: string)
    requires s.Valid() && t.Valid() && s != t && s.data != t.data && s.Elements() == []
    requires orig == StackSpec.Reversed(t.Elements()) && |orig| <= s.capacity
    modifies s, s.data, t
    ensures s.Valid() && s.Elements() == orig && s.owns == old(s.owns)
    ensures s.data == old(s.data) && s.capacity == old(s.capacity)
    ensures out == StackSpec.Printing(pre, orig, |orig|, show, sep)
  {
    out := pre;
    assert orig == s.Elements() + StackSpec.Reversed(t.Elements());
    while t.Length() > 0
      invariant s.Valid() && t.Valid() && t.data == old(t.data) && s.owns == old(s.owns)
      invariant s.data == old(s.data) && s.capacity == old(s.capacity)
      invariant orig == s.Elements() + StackSpec.Reversed(t.Elements())
      invariant out == StackSpec.Printing(pre, orig, |s.Elements()|, show, sep)
      decreases t.length
    {
      out := RefillStep(pre, s, t, orig, out, show, sep);
    }
    assert s.Elements() == orig;
  }

  /** One round of the draining loop: the top of `s` moves onto `t`. */
  method DrainStep<T>(s: ArrayStack<T>, t: ArrayStack<T>, ghost orig: seq<T>)
    requires s.Valid() && t.Valid() && t.owns && s != t && s.data != t.data && s.length > 0
    requires orig == s.Elements() + StackSpec.Reversed(t.Elements())
    modifies s, t, t.data
    ensures s.Valid() && t.Valid() && t.owns && s.length == old(s.length) - 1
    ensures s.data == old(s.data) && s.capacity == old(s.capacity) && s.owns == old(s.owns)
    ensures t.data == old(t.data) || fresh(t.data)
    ensures orig == s.Elements() + StackSpec.Reversed(t.Elements())
  {
    ghost var rest := s.Elements()[..s.length - 1];
    var v := s.Pop();
    var _ := t.Push(v.value);
    StackSpec.MovedTop(rest, old(t.Elements()), v.value);
  }

  /** One round of the refilling loop: the top of `t` is written, followed
      by a separator unless it was the last, and pushed back onto `s`. */
  method RefillStep<T>(pre: string, s: ArrayStack<T>, t: ArrayStack<T>, ghost orig: seq<T>, out: string, show: T -> string, sep: string)
      returns (out': string)
    requires s.Valid() && t.Valid() && s != t && s.data != t.data && t.length > 0
    requires orig == s.Elements() + StackSpec.Reversed(t.Elements()) && |orig| <= s.capacity
    requires out == StackSpec.Printing(pre, orig, |s.Elements()|, show, sep)
    modifies s, s.data, t
    ensures s.Valid() && t.Valid() && t.length == old(t.length) - 1 && s.owns == old(s.owns)
    ensures s.data == old(s.data) && s.capacity == old(s.capacity) && t.data == old(t.data)
    ensures orig == s.Elements() + StackSpec.Reversed(t.Elements())
    ensures out' == StackSpec.Printing(pre, orig, |s.Elements()|, show, sep)
  {
    ghost var below := s.Elements();
    var v := t.Pop();
    var more := t.Length() > 0;
    var _ := s.Push(v.value);
    out' := out + show(v.value) + (if more then sep else "");
    StackSpec.RefillPrinted(pre, orig, below, t.Elements(), v.value, show, sep);
  }

  /** The buffer copy_from leaves, as written: the source's occupied slots
      written from slot 0 of the destination buffer `dst`. */
  function CopiedAsWritten<T>(src: seq<T>, length: nat, dir: int, capacity: nat, dst: seq<T>): seq<T>
    requires IsDirection(dir) && length <= capacity <= |src| && length <= |dst|
  {
    Placed(dst, 0, Region(src, length, dir, capacity))
  }

  /** The as-written copy holds the source's stack when the direction is 1
      or the stack fills the destination's capacity. */
  lemma CopiedAsWrittenExactWhen<T>(src: seq<T>, dst: seq<T>, length: nat, dir: int, capacity: nat, dcapacity: nat)
    requires IsDirection(dir) && length <= capacity <= |src| && length <= dcapacity <= |dst|
    requires dir == 1 || length == dcapacity
    ensures StackOf(CopiedAsWritten(src, length, dir, capacity, dst), length, dir, dcapacity) == StackOf(src, length, dir, capacity)
  {
    RegionPlacedKeepsStack(src, dst, length, dir, capacity, dcapacity);
  }

  /** A downward stack of capacity 2 holding 5 is copied as a stack whose
      one element is slot 1 of the new buffer, which was allocated but never
      constructed (the model's blank, here 0): the 5 lands in slot 0 and the
      copy reads slot 1. */
  lemma CopyAsWrittenCounterexample()
    ensures StackOf([0, 5], 1, -1, 2) == [5]
    ensures StackOf(CopiedAsWritten([0, 5], 1, -1, 2, [0, 0]), 1, -1, 2) == [0]
  {
    assert CopiedAsWritten([0, 5], 1, -1, 2, [0, 0]) == [5, 0];
  }

  /** copy_from as written: the source's occupied slots, in buffer order,
      go to the destination from slot 0 on. */
  method CopyFromAsWritten<T>(src: array<T>, length: nat, dir: int, capacity: nat, dst: array<T>)
    requires src != dst && IsDirection(dir) && length <= capacity <= src.Length && length <= dst.Length
    modifies dst
    ensures dst[..] == CopiedAsWritten(src[..], length, dir, capacity, old(dst[..]))
  {
    ghost var before := dst[..];
    var from := if dir > 0 then 0 else capacity - length;
    CopySlice(src, from, dst, 0, length);
    CopiedIsPlaced(dst[..], before, src[..], from, 0, length);
  }

  /** copy_from as intended: the occupied slots go where the same length and
      direction put them in a buffer of capacity `dcapacity`, so the
      destination holds the source's stack. */
  method CopyFrom<T>(src: array<T>, length: nat, dir: int, capacity: nat, dst: array<T>, dcapacity: nat)
    requires src != dst && IsDirection(dir) && length <= capacity <= src.Length && length <= dcapacity <= dst.Length
    modifies dst
    ensures StackOf(dst[..], length, dir, dcapacity) == StackOf(src[..], length, dir, capacity)
  {
    ghost var before := dst[..];
    var from := RegionStart(length, dir, capacity);
    var to := RegionStart(length, dir, dcapacity);
    CopySlice(src, from, dst, to, length);
    CopiedIsPlaced(dst[..], before, src[..], from, to, length);
    RegionPlacedKeepsStack(src[..], before, length, dir, capacity, dcapacity);
  }

  /** fit_and_allocate: double the capacity until `length` elements fit,
      then allocate a buffer of that capacity. */
  method FitAndAllocate<T>(capacity: nat, length: nat, blank: T) returns (c: nat, d: array<T>)
    requires capacity > 0 || length == 0
    ensures c == Fitted(capacity, length) && fresh(d) && d.Length == c
    ensures d[..] == seq(c, _ => blank)
  {
    c := capacity;
    while c < length
      invariant c > 0 || length == 0
      invariant Fitted(c, length) == Fitted(capacity, length)
      decreases length - c
    {
      c := c * 2;
    }
    d := new T[c](_ => blank);
  }

  /** std::copy (or std::move) of n slots of `src` from `from` on into
      `dst` from `to` on. */
  method CopySlice<T>(src: array<T>, from: nat, dst: array<T>, to: nat, n: nat)
    requires src != dst && from + n <= src.Length && to + n <= dst.Length
    modifies dst
    ensures forall k :: 0 <= k < to ==> dst[k] == old(dst[k])
    ensures forall k :: to <= k < to + n ==> dst[k] == src[from + k - to]
    ensures forall k :: to + n <= k < dst.Length ==> dst[k] == old(dst[k])
  {
    for i := 0 to n
      invariant forall k :: 0 <= k < to ==> dst[k] == old(dst[k])
      invariant forall k :: to <= k < to + i ==> dst[k] == src[from + k - to]
      invariant forall k :: to + i <= k < dst.Length ==> dst[k] == old(dst[k])
    {
      dst[to + i] := src[from + i];
    }
  }

  /** Reading a buffer back as a sequence after CopySlice. */
  lemma CopiedIsPlaced<T>(after: seq<T>, before: seq<T>, src: seq<T>, from: nat, to: nat, n: nat)
    requires |after| == |before| && from + n <= |src| && to + n <= |before|
    requires forall k :: 0 <= k < to ==> after[k] == before[k]
    requires forall k :: to <= k < to + n ==> after[k] == src[from + k - to]
    requires forall k :: to + n <= k < |after| ==> after[k] == before[k]
    ensures after == Placed(before, to, src[from..from + n])
  {
  }
}

/** The array queue of assignment-3/arrayqueue.h: a circular buffer of
    `capacity` slots whose i-th element, counted from the front, sits in
    slot (front + i) mod capacity.  A queue either owns its buffer, and then
    doubles it when full, or borrows a buffer from its caller, and then
    fails instead of growing.

    A freshly allocated buffer holds `blank` in every slot.  A moved-from
    queue has capacity 0 and a buffer of length 0 in place of the null
    pointer.

    Two members are written twice.  The copy constructor as written leaves
    the front index of a copy of an empty queue uninitialised, and move
    assignment as written leaves the moved-from queue with its old front
    index against the capacity it receives; the `...AsWritten` members
    follow the code, taking the uninitialised index as a parameter, and the
    plain members reset the front to 0. */
module ArrayQueues {
  import opened Outcomes
  import QueueSpec
  import ArrayStacks

  const DEFAULT_CAPACITY: nat := 8

  /** Slot of the i-th element from the front: past the end of the buffer
      the count wraps round to its start. */
  function Slot(front: nat, i: nat, capacity: nat): (k: nat)
    requires front < capacity && i <= capacity
    ensures k < capacity
  {
    if front + i < capacity then front + i else front + i - capacity
  }

  /** The slot is the remainder the source computes. */
  lemma SlotIsRemainder(front: nat, i: nat, capacity: nat)
    requires front < capacity && i <= capacity
    ensures (front + i) % capacity == Slot(front, i, capacity)
  {
    if front + i >= capacity {
      assert front + i == capacity + (front + i - capacity);
    }
  }

  /** rear_pos: the slot of the last element. */
  function RearPos(front: nat, length: nat, capacity: nat): (k: nat)
    requires front < capacity && 0 < length <= capacity
    ensures k == Slot(front, length - 1, capacity)
  {
    SlotIsRemainder(front, length - 1, capacity);
    (front + length - 1) % capacity
  }

  /** The front after a dequeue: one slot on, modulo the capacity. */
  function NextFront(front: nat, capacity: nat): (f: nat)
    requires front < capacity
    ensures f == Slot(front, 1, capacity) && f < capacity
  {
    SlotIsRemainder(front, 1, capacity);
    (front + 1) % capacity
  }

  /** A front index every slot computation can start from: inside the
      buffer, or 0 when there is none. */
  predicate FrontInside(front: nat, capacity: nat)
  {
    if capacity == 0 then front == 0 else front < capacity
  }

  /** Distinct elements have distinct slots. */
  lemma SlotsDistinct(front: nat, capacity: nat)
    requires front < capacity
    ensures forall i, j :: 0 <= i < j < capacity ==> Slot(front, i, capacity) != Slot(front, j, capacity)
  {
  }

  /** The queue, front first, that a buffer holds. */
  function QueueOf<T>(buf: seq<T>, front: nat, length: nat, capacity: nat): (q: seq<T>)
    requires length <= capacity <= |buf| && (length > 0 ==> front < capacity)
    ensures |q| == length
  {
    seq(length, i requires 0 <= i < length => buf[Slot(front, i, capacity)])
  }

  /** Enqueueing writes the slot behind the rear. */
  lemma Enqueued<T>(before: seq<T>, after: seq<T>, front: nat, length: nat, capacity: nat, x: T)
    requires front < capacity && length < capacity <= |before| == |after|
    requires after == before[Slot(front, length, capacity) := x]
    ensures QueueOf(after, front, length + 1, capacity) == QueueOf(before, front, length, capacity) + [x]
  {
    SlotsDistinct(front, capacity);
  }

  /** Dequeueing reads the front slot, and the queue behind it starts one
      slot on. */
  lemma Dequeued<T>(buf: seq<T>, front: nat, length: nat, capacity: nat)
    requires front < capacity && 0 < length <= capacity <= |buf|
    ensures QueueOf(buf, front, length, capacity)[0] == buf[front]
    ensures QueueOf(buf, NextFront(front, capacity), length - 1, capacity) == QueueOf(buf, front, length, capacity)[1..]
  {
  }

  /** Capacity after expand: a moved-from queue restarts from the default,
      any other queue doubles. */
  function Grown(capacity: nat): (c: nat)
    ensures c > capacity
    ensures capacity > 0 ==> c == 2 * capacity
  {
    if capacity == 0 then DEFAULT_CAPACITY else 2 * capacity
  }

  class ArrayQueue<T> {
    var capacity: nat
    var length: nat
    var front: nat
    var data: array<T>
    var owns: bool
    const blank: T

    ghost predicate Valid()
      reads this
    {
      length <= capacity <= data.Length && FrontInside(front, capacity)
    }

    /** The elements, front first. */
    ghost function Elements(): seq<T>
      requires Valid()
      reads this, data
    {
      QueueOf(data[..], front, length, capacity)
    }

    /** An empty queue owning a buffer of the given capacity. */
    constructor (initialCapacity: nat, blank: T)
      ensures Valid() && fresh(data) && Elements() == []
      ensures capacity == initialCapacity == data.Length && front == 0 && owns && this.blank == blank
    {
      data := new T[initialCapacity](_ => blank);
      capacity, length, front, owns := initialCapacity, 0, 0, true;
      this.blank := blank;
    }

    /** The initialiser-list constructor: the capacity doubles until the
        items fit, then the items fill the buffer from slot 0, the first
        one at the front.  From capacity 0 the doubling never ends, hence
        the precondition. */
    constructor FromSeq(items: seq<T>, initialCapacity: nat, blank: T)
      requires initialCapacity > 0 || |items| == 0
      ensures Valid() && fresh(data) && Elements() == items
      ensures capacity == ArrayStacks.Fitted(initialCapacity, |items|) == data.Length && front == 0 && owns
    {
      var c, d := ArrayStacks.FitAndAllocate(initialCapacity, |items|, blank);
      for i := 0 to |items|
        invariant forall k :: 0 <= k < i ==> d[k] == items[k]
      {
        d[i] := items[i];
      }
      data, capacity, length, front, owns := d, c, |items|, 0, true;
      this.blank := blank;
      assert forall i :: 0 <= i < |items| ==> Slot(0, i, c) == i;
    }

    /** A queue on a caller's buffer, which it does not own. */
    constructor Borrow(capacity: nat, buffer: array<T>, blank: T)
      requires capacity <= buffer.Length
      ensures Valid() && Elements() == [] && data == buffer
      ensures this.capacity == capacity && front == 0 && !owns
    {
      data, this.capacity, length, front, owns := buffer, capacity, 0, 0, false;
      this.blank := blank;
    }

    /** The copy constructor as written: the member initialisers leave the
        front index unset, and copy_from sets it only when there is
        something to copy, so a copy of an empty queue starts from the
        indeterminate value `indeterminate`. */
    constructor CopyAsWritten(other: ArrayQueue<T>, indeterminate: nat)
      requires other.Valid()
      ensures fresh(data) && owns && capacity == other.capacity == data.Length && length == other.length
      ensures front == if other.length == 0 then indeterminate else 0
      ensures Valid() <==> other.length > 0 || FrontInside(indeterminate, other.capacity)
      ensures Valid() ==> Elements() == other.Elements()
    {
      var d := new T[other.capacity](_ => other.blank);
      var f := indeterminate;
      if other.length > 0 {
        Linearize(other.data, other.front, other.length, other.capacity, d);
        f := 0;
      }
      data, capacity, length, front, owns := d, other.capacity, other.length, f, true;
      blank := other.blank;
      if other.length > 0 {
        assert forall i :: 0 <= i < other.length ==> Slot(0, i, other.capacity) == i;
      }
    }

    /** The copy constructor as intended: the copy starts at slot 0 and
        holds the same queue. */
    constructor Copy(other: ArrayQueue<T>)
      requires other.Valid()
      ensures Valid() && fresh(data) && owns && capacity == other.capacity == data.Length && front == 0
      ensures Elements() == other.Elements()
    {
      var d := new T[other.capacity](_ => other.blank);
      if other.length > 0 {
        Linearize(other.data, other.front, other.length, other.capacity, d);
      }
      data, capacity, length, front, owns := d, other.capacity, other.length, 0, true;
      blank := other.blank;
      assert forall i :: 0 <= i < other.length ==> Slot(0, i, other.capacity) == i;
    }

    /** The move constructor takes the buffer and the layout; `other` is
        left empty with capacity 0, front 0 and owning (nothing), so its
        next enqueue allocates the default capacity. */
    constructor Move(other: ArrayQueue<T>)
      requires other.Valid()
      modifies other
      ensures Valid() && other.Valid()
      ensures Elements() == old(other.Elements()) && data == old(other.data)
      ensures capacity == old(other.capacity) && front == old(other.front) && owns == old(other.owns)
      ensures other.capacity == 0 && other.length == 0 && other.front == 0 && other.owns
      ensures other.Elements() == []
    {
      data, capacity, length, front, owns := other.data, other.capacity, other.length, other.front, other.owns;
      blank := other.blank;
      new;
      other.capacity, other.length, other.front, other.owns := 0, 0, 0, true;
      other.data := new T[0];
    }

    /** Copy assignment as written.  A queue that owns its buffer and is
        too small gets a new buffer of the capacity fit_and_allocate's
        doubling reaches; a borrowed buffer that is too small fails before
        anything changes.  The copy starts at slot 0 unless the source is
        empty.  From capacity 0, the state a move leaves behind, the
        doubling never ends, so that case is the one the precondition
        leaves out. */
    method AssignAsWritten(other: ArrayQueue<T>) returns (r: Result<()>)
      requires Valid() && other.Valid() && (this != other ==> data != other.data)
      requires this == other || capacity > 0 || other.length <= capacity || !owns
      modifies this, data
      ensures Valid() && owns == old(owns)
      ensures r.Err? <==> this != other && old(capacity) < old(other.length) && !old(owns)
      ensures r.Err? ==> r.failure == CapacityExceeded && Elements() == old(Elements())
      ensures r.Ok? ==> Elements() == old(other.Elements())
      ensures capacity == if r.Ok? && old(capacity) < old(other.length) then ArrayStacks.Fitted(old(capacity), old(other.length)) else old(capacity)
      ensures r.Ok? && this != other && old(other.length) > 0 ==> front == 0
    {
      if this == other {
        return Ok(());
      }
      if capacity < other.length {
        if !owns {
          return Err(CapacityExceeded);
        }
        var c, d := ArrayStacks.FitAndAllocate(capacity, other.length, blank);
        data, capacity := d, c;
      }
      length := other.length;
      if length > 0 {
        Linearize(other.data, other.front, other.length, other.capacity, data);
        front := 0;
        assert forall i :: 0 <= i < length ==> Slot(0, i, capacity) == i;
      }
      r := Ok(());
    }

    /** Copy assignment as intended: as written, except that a moved-from
        queue grows from the default capacity, as expand does, where
        fit_and_allocate's doubling would never leave 0. */
    method Assign(other: ArrayQueue<T>) returns (r: Result<()>)
      requires Valid() && other.Valid() && (this != other ==> data != other.data)
      modifies this, data
      ensures Valid() && owns == old(owns)
      ensures r.Err? <==> this != other && old(capacity) < old(other.length) && !old(owns)
      ensures r.Err? ==> r.failure == CapacityExceeded && Elements() == old(Elements())
      ensures r.Ok? ==> Elements() == old(other.Elements())
      ensures capacity == if r.Ok? && old(capacity) < old(other.length) then ArrayStacks.FittedCorrected(old(capacity), old(other.length)) else old(capacity)
      ensures r.Ok? && this != other && old(other.length) > 0 ==> front == 0
    {
      if this == other {
        return Ok(());
      }
      if capacity < other.length {
        if !owns {
          return Err(CapacityExceeded);
        }
        var c := ArrayStacks.FittedCorrected(capacity, other.length);
        data := new T[c](_ => blank);
        capacity := c;
      }
      length := other.length;
      if length > 0 {
        Linearize(other.data, other.front, other.length, other.capacity, data);
        front := 0;
        assert forall i :: 0 <= i < length ==> Slot(0, i, capacity) == i;
      }
      r := Ok(());
    }

    /** Move assignment as written: the length and front go over, the
        capacities, buffers and ownership are swapped, and `other` is
        emptied but keeps its own front index, which may lie outside the
        buffer it receives. */
    method MoveAssignAsWritten(other: ArrayQueue<T>)
      requires Valid() && other.Valid()
      modifies this, other
      ensures Valid() && Elements() == old(other.Elements())
      ensures this != other ==> data == old(other.data) && capacity == old(other.capacity) && owns == old(other.owns)
      ensures this != other ==> other.data == old(data) && other.capacity == old(capacity) && other.owns == old(owns)
      ensures this != other ==> other.length == 0 && other.front == old(other.front)
      ensures this != other ==> (other.Valid() <==> FrontInside(old(other.front), old(capacity)))
    {
      if this == other {
        return;
      }
      length, front := other.length, other.front;
      capacity, other.capacity := other.capacity, capacity;
      data, other.data := other.data, data;
      owns, other.owns := other.owns, owns;
      other.length := 0;
    }

    /** Move assignment as intended: as written, but the moved-from queue
        restarts at slot 0 of the buffer it receives. */
    method MoveAssign(other: ArrayQueue<T>)
      requires Valid() && other.Valid()
      modifies this, other
      ensures Valid() && other.Valid()
      ensures Elements() == old(other.Elements())
      ensures this != other ==> data == old(other.data) && capacity == old(other.capacity) && owns == old(other.owns)
      ensures this != other ==> other.data == old(data) && other.capacity == old(capacity) && other.owns == old(owns)
      ensures this != other ==> other.Elements() == [] && other.front == 0
    {
      if this == other {
        return;
      }
      length, front := other.length, other.front;
      capacity, other.capacity := other.capacity, capacity;
      data, other.data := other.data, data;
      owns, other.owns := other.owns, owns;
      other.length, other.front := 0, 0;
    }

    /** expand: only an owned buffer grows.  A moved-from queue gets the
        default capacity; otherwise the capacity doubles and the elements
        move, in queue order, to the start of the new buffer. */
    method Expand() returns (r: Result<()>)
      requires Valid()
      modifies this
      ensures Valid() && length == old(length) && owns == old(owns)
      ensures r.Err? <==> !owns
      ensures r.Err? ==> r.failure == CapacityExceeded && capacity == old(capacity) && data == old(data) && front == old(front)
      ensures r.Ok? ==> fresh(data) && capacity == Grown(old(capacity)) == data.Length && front == 0
      ensures Elements() == old(Elements())
    {
      if !owns {
        return Err(CapacityExceeded);
      }
      if capacity == 0 {
        capacity := DEFAULT_CAPACITY;
        data := new T[capacity](_ => blank);
        front := 0;
        return Ok(());
      }
      var newCapacity := capacity * 2;
      var newData := new T[newCapacity](_ => blank);
      if length > 0 {
        Linearize(data, front, length, capacity, newData);
      }
      capacity, data, front := newCapacity, newData, 0;
      assert forall i :: 0 <= i < length ==> Slot(0, i, capacity) == i;
      r := Ok(());
    }

    /** clear keeps the buffer, its capacity and the front index. */
    method Clear()
      requires Valid()
      modifies this
      ensures Valid() && Elements() == []
      ensures data == old(data) && capacity == old(capacity) && front == old(front) && owns == old(owns)
    {
      length := 0;
    }

    /** enqueue: a full queue expands first, which fails on a borrowed
        buffer before anything changes; the item goes to the new rear. */
    method Enqueue(x: T) returns (r: Result<()>)
      requires Valid()
      modifies this, data
      ensures Valid() && owns == old(owns)
      ensures r.Err? <==> old(length == capacity) && !owns
      ensures r.Err? ==> r.failure == CapacityExceeded && Elements() == old(Elements())
      ensures r.Ok? ==> Elements() == old(Elements()) + [x]
      ensures capacity == if old(length == capacity) && owns then Grown(old(capacity)) else old(capacity)
      ensures old(length) < old(capacity) ==> data == old(data) && front == old(front)
      ensures data == old(data) || (fresh(data) && data.Length == capacity)
    {
      if length >= capacity {
        r := Expand();
        if r.Err? {
          return;
        }
      }
      ghost var before := data[..];
      length := length + 1;
      data[RearPos(front, length, capacity)] := x;
      Enqueued(before, data[..], front, length - 1, capacity, x);
      r := Ok(());
    }

    /** dequeue: the front element comes off and the front moves one slot
        on; an empty queue fails. */
    method Dequeue() returns (r: Result<T>)
      requires Valid()
      modifies this
      ensures Valid() && data == old(data) && capacity == old(capacity) && owns == old(owns)
      ensures QueueSpec.Dequeue(old(Elements())).Err? ==> r == Err(EmptyContainer) && Elements() == old(Elements())
      ensures QueueSpec.Dequeue(old(Elements())).Ok? ==>
        r == Ok(QueueSpec.Dequeue(old(Elements())).value.0) && Elements() == QueueSpec.Dequeue(old(Elements())).value.1
      ensures front == if old(length) == 0 then old(front) else NextFront(old(front), capacity)
    {
      if length == 0 {
        return Err(EmptyContainer);
      }
      Dequeued(data[..], front, length, capacity);
      var v := data[front];
      front := NextFront(front, capacity);
      length := length - 1;
      r := Ok(v);
    }

    /** leaveQueue: the rear element comes off; the front stays. */
    method LeaveQueue() returns (r: Result<T>)
      requires Valid()
      modifies this
      ensures Valid() && data == old(data) && capacity == old(capacity) && front == old(front) && owns == old(owns)
      ensures QueueSpec.LeaveQueue(old(Elements())).Err? ==> r == Err(EmptyContainer) && Elements() == old(Elements())
      ensures QueueSpec.LeaveQueue(old(Elements())).Ok? ==>
        r == Ok(QueueSpec.LeaveQueue(old(Elements())).value.0) && Elements() == QueueSpec.LeaveQueue(old(Elements())).value.1
    {
      if length == 0 {
        return Err(EmptyContainer);
      }
      var v := data[RearPos(front, length, capacity)];
      length := length - 1;
      r := Ok(v);
    }

    function Length(): (n: nat)
      requires Valid()
      reads this, data
      ensures n == |Elements()|
    {
      length
    }

    /** frontValue: the element in the front slot. */
    function FrontValue(): (r: Result<T>)
      requires Valid()
      reads this, data
      ensures r == QueueSpec.Front(Elements())
    {
      if length == 0 then Err(EmptyContainer)
      else
        assert Slot(front, 0, capacity) == front;
        Ok(data[front])
    }

    /** rearValue: the element in the rear slot. */
    function RearValue(): (r: Result<T>)
      requires Valid()
      reads this, data
      ensures r == QueueSpec.Rear(Elements())
    {
      if length == 0 then Err(EmptyContainer)
      else Ok(data[RearPos(front, length, capacity)])
    }
  }

  /** The copying of copy_from and expand: the elements of the queue at
      `front` in `src`, in queue order, go to the start of `dst` in one
      block when they do not wrap round the end of `src`, in two blocks when
      they do. */
  method Linearize<T>(src: array<T>, front: nat, length: nat, capacity: nat, dst: array<T>)
    requires src != dst && front < capacity && 0 < length <= capacity <= src.Length && length <= dst.Length
    modifies dst
    ensures forall i :: 0 <= i < length ==> dst[i] == src[Slot(front, i, capacity)]
    ensures forall k :: length <= k < dst.Length ==> dst[k] == old(dst[k])
  {
    var rear := RearPos(front, length, capacity) + 1;
    if front < rear {
      ArrayStacks.CopySlice(src, front, dst, 0, rear - front);
    } else {
      ArrayStacks.CopySlice(src, front, dst, 0, capacity - front);
      ArrayStacks.CopySlice(src, 0, dst, capacity - front, rear);
    }
  }

  /** A queue whose front has moved to slot 5 of a buffer of 8 is
      move-assigned into a queue of capacity 2, as written: the moved-from
      queue is left with front 5 and a buffer of 2 slots, so after one
      enqueue, which writes slot (5 + 0) mod 2 = 1, frontValue reads slot 5,
      outside the buffer. */
  method MoveAssignCounterexample() returns (front: nat, capacity: nat, written: nat)
    ensures front == 5 && capacity == 2 && written == 1
    ensures !FrontInside(front, capacity)
  {
    var q := new ArrayQueue.FromSeq([0, 0, 0, 0, 0, 0], 8, 0);
    assert ArrayStacks.Fitted(8, 6) == 8;
    for i := 0 to 5
      invariant q.Valid() && q.capacity == 8 && q.front == i && q.length == 6 - i
    {
      var _ := q.Dequeue();
    }
    var p := new ArrayQueue(2, 0);
    p.MoveAssignAsWritten(q);
    front, capacity := q.front, q.capacity;
    written := (front + 1 - 1) % capacity;
  }

  /** A copy of an empty queue of capacity 8, as written, keeps whatever
      the front index held, 9 say: its first enqueue writes slot
      (9 + 0) mod 8 = 1 and frontValue then reads slot 9, outside the
      buffer. */
  method CopyOfEmptyCounterexample() returns (front: nat, capacity: nat, written: nat)
    ensures front == 9 && capacity == 8 && written == 1
    ensures !FrontInside(front, capacity)
  {
    var q := new ArrayQueue(8, 0);
    var c := new ArrayQueue.CopyAsWritten(q, 9);
    front, capacity := c.front, c.capacity;
    written := (front + 1 - 1) % capacity;
  }
}

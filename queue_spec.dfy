/** The queue interface of assignment-3/queue.h, as the sequence of the
    elements from the front to the rear, with the behaviour both queues of
    the repository share: dequeue, leaveQueue, frontValue and rearValue fail
    on an empty queue, and printing shows the elements from the front to the
    rear between angle brackets, separated by ", " (the same text
    StackSpec.Render gives for the sequence). */
module QueueSpec {
  import opened Outcomes
  import Text
  import StackSpec

  /** dequeue: the front element and the queue behind it. */
  function Dequeue<T>(q: seq<T>): (r: Result<(T, seq<T>)>)
    ensures r.Err? <==> q == []
    ensures r.Err? ==> r.failure == EmptyContainer
    ensures r.Ok? ==> [r.value.0] + r.value.1 == q
  {
    if q == [] then Err(EmptyContainer) else Ok((q[0], q[1..]))
  }

  /** leaveQueue: the rear element leaves, the rest stay in order. */
  function LeaveQueue<T>(q: seq<T>): (r: Result<(T, seq<T>)>)
    ensures r.Err? <==> q == []
    ensures r.Err? ==> r.failure == EmptyContainer
    ensures r.Ok? ==> r.value.1 + [r.value.0] == q
  {
    if q == [] then Err(EmptyContainer) else Ok((q[|q| - 1], q[..|q| - 1]))
  }

  /** frontValue: the element dequeue would return. */
  function Front<T>(q: seq<T>): (r: Result<T>)
    ensures r.Err? <==> q == []
    ensures r.Err? ==> r.failure == EmptyContainer
    ensures r.Ok? ==> Dequeue(q).Ok? && Dequeue(q).value.0 == r.value
  {
    if q == [] then Err(EmptyContainer) else Ok(q[0])
  }

  /** rearValue: the element leaveQueue would return. */
  function Rear<T>(q: seq<T>): (r: Result<T>)
    ensures r.Err? <==> q == []
    ensures r.Err? ==> r.failure == EmptyContainer
    ensures r.Ok? ==> LeaveQueue(q).Ok? && LeaveQueue(q).value.0 == r.value
  {
    if q == [] then Err(EmptyContainer) else Ok(q[|q| - 1])
  }

  /** Taking the rear off a queue is popping a stack that lists it from the
      bottom up: the rear is the most recently added element. */
  lemma LeaveQueueIsPop<T>(q: seq<T>)
    ensures LeaveQueue(q) == StackSpec.Pop(q)
  {
  }

  /** leaveQueue undoes enqueue, and the enqueued element is the rear. */
  lemma EnqueueThenLeave<T>(q: seq<T>, x: T)
    ensures LeaveQueue(q + [x]) == Ok((x, q))
    ensures Rear(q + [x]) == Ok(x)
  {
    assert (q + [x])[..|q|] == q;
  }

  /** Enqueueing behind a non-empty queue does not change its front, and
      dequeue then takes the same element as before. */
  lemma EnqueueBehindFront<T>(q: seq<T>, x: T)
    ensures q == [] ==> Dequeue(q + [x]) == Ok((x, q))
    ensures q != [] ==> Front(q + [x]) == Front(q)
    ensures q != [] ==> Dequeue(q + [x]) == Ok((q[0], q[1..] + [x]))
  {
    if q != [] {
      assert (q + [x])[1..] == q[1..] + [x];
    } else {
      assert q + [x] == [x];
    }
  }

  /** `k` dequeues in a row: the elements in the order they come off, and
      the queue that is left; the first dequeue on an empty queue fails. */
  function DequeueMany<T>(q: seq<T>, k: nat): Result<(seq<T>, seq<T>)>
    decreases k
  {
    if k == 0 then Ok(([], q))
    else match Dequeue(q)
      case Err(f) => Err(f)
      case Ok((x, rest)) =>
        match DequeueMany(rest, k - 1)
        case Err(f) => Err(f)
        case Ok((xs, left)) => Ok(([x] + xs, left))
  }

  /** First in, first out: on a queue that starts with xs, |xs| dequeues
      return xs in order and leave the rest of the queue. */
  lemma {:induction false} FirstInFirstOut<T>(xs: seq<T>, rest: seq<T>)
    ensures DequeueMany(xs + rest, |xs|) == Ok((xs, rest))
    decreases |xs|
  {
    if xs != [] {
      assert (xs + rest)[1..] == xs[1..] + rest;
      assert Dequeue(xs + rest) == Ok((xs[0], xs[1..] + rest));
      FirstInFirstOut(xs[1..], rest);
      assert [xs[0]] + xs[1..] == xs;
    } else {
      assert xs + rest == rest;
    }
  }

  /** The renderings assignment-3/tests.cpp:21 and :60 expect, and the queue
      they come from: {1, 2, 3, 4, 5} after a dequeue and a leaveQueue. */
  lemma BasicScenario()
    ensures Dequeue([1, 2, 3, 4, 5]) == Ok((1, [2, 3, 4, 5]))
    ensures LeaveQueue([2, 3, 4, 5]) == Ok((5, [2, 3, 4]))
    ensures Front([2, 3, 4]) == Ok(2) && Rear([2, 3, 4]) == Ok(4)
    ensures StackSpec.Render([2, 3, 4], Text.IntToString) == "<2, 3, 4>"
    ensures StackSpec.Render([], Text.IntToString) == "<>"
  {
    assert [1, 2, 3, 4, 5][1..] == [2, 3, 4, 5];
    assert [2, 3, 4, 5][..3] == [2, 3, 4];
    var parts := StackSpec.Shown([2, 3, 4], Text.IntToString);
    assert parts == ["2", "3", "4"];
    assert Text.Join(["4"], ", ") == "4";
    assert Text.Join(["3", "4"], ", ") == "3, 4" by {
      assert ["3", "4"][1..] == ["4"];
    }
    assert Text.Join(parts, ", ") == "2, 3, 4" by {
      assert parts[1..] == ["3", "4"];
    }
  }

  /** One round of operator<<'s loop: with `done` already written and
      re-enqueued and [x] + rest still in the temporary copy, x is the next
      element of `orig` to write, followed by a separator when more remain. */
  lemma WritePrinted<T>(pre: string, orig: seq<T>, done: seq<T>, x: T, rest: seq<T>, show: T -> string, sep: string)
    requires orig == done + ([x] + rest)
    ensures |done| < |orig| && orig == (done + [x]) + rest
    ensures StackSpec.Printing(pre, orig, |done| + 1, show, sep)
         == StackSpec.Printing(pre, orig, |done|, show, sep) + show(x) + (if rest != [] then sep else "")
  {
    assert orig[|done|] == x;
    StackSpec.PrintingStep(pre, orig, |done|, show, sep);
  }
}

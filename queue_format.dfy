/** operator<< and to_string of assignment-3/queue.h, for both queues.  The
    queue is copied into a temporary and cleared; then, while the temporary
    is not empty, its front value is written, dequeued and enqueued back
    into the queue, with ", " between values.  The queue ends as it began
    and the text shows it front first between angle brackets. */
module QueueFormat {
  import opened Outcomes
  import StackSpec
  import QueueSpec
  import ArrayQueues
  import LinkedQueues

  /** operator<< on an array queue.  The queue keeps its buffer: clearing
      leaves the capacity, which holds every element put back. */
  method WriteArray<T>(os: string, queue: ArrayQueues.ArrayQueue<T>, show: T -> string) returns (out: string)
    requires queue.Valid()
    modifies queue, queue.data
    ensures queue.Valid() && queue.Elements() == old(queue.Elements())
    ensures queue.data == old(queue.data) && queue.capacity == old(queue.capacity)
    ensures out == os + StackSpec.Render(old(queue.Elements()), show)
  {
    ghost var orig := queue.Elements();
    var temp := new ArrayQueues.ArrayQueue.Copy(queue);
    queue.Clear();
    out := os + "<";
    while temp.Length() > 0
      invariant queue.Valid() && temp.Valid() && queue.data != temp.data
      invariant queue.data == old(queue.data) && queue.capacity == old(queue.capacity) && |orig| <= queue.capacity
      invariant orig == queue.Elements() + temp.Elements()
      invariant out == StackSpec.Printing(os + "<", orig, |queue.Elements()|, show, ", ")
      decreases temp.length
    {
      out := WriteArrayStep(os + "<", queue, temp, orig, out, show, ", ");
    }
    assert queue.Elements() == orig;
    StackSpec.PrintingRendered(os, orig, show);
    out := out + ">";
  }

  /** One round of the loop: the front of `temp` is written, followed by
      the separator unless it was the last, and moved to the rear of `q`. */
  method WriteArrayStep<T>(pre: string, q: ArrayQueues.ArrayQueue<T>, temp: ArrayQueues.ArrayQueue<T>, ghost orig: seq<T>,
                           out: string, show: T -> string, sep: string) returns (out': string)
    requires q.Valid() && temp.Valid() && q != temp && q.data != temp.data && temp.length > 0
    requires orig == q.Elements() + temp.Elements() && |orig| <= q.capacity
    requires out == StackSpec.Printing(pre, orig, |q.Elements()|, show, sep)
    modifies q, q.data, temp
    ensures q.Valid() && temp.Valid() && temp.length == old(temp.length) - 1
    ensures q.data == old(q.data) && q.capacity == old(q.capacity) && temp.data == old(temp.data)
    ensures orig == q.Elements() + temp.Elements()
    ensures out' == StackSpec.Printing(pre, orig, |q.Elements()|, show, sep)
  {
    ghost var done := q.Elements();
    var x := temp.FrontValue().value;
    var v := temp.Dequeue();
    var more := temp.Length() > 0;
    var _ := q.Enqueue(v.value);
    out' := out + show(x) + (if more then sep else "");
    QueueSpec.WritePrinted(pre, orig, done, x, temp.Elements(), show, sep);
  }

  /** to_string on an array queue: the text operator<< writes. */
  method ToStringArray<T>(queue: ArrayQueues.ArrayQueue<T>, show: T -> string) returns (s: string)
    requires queue.Valid()
    modifies queue, queue.data
    ensures queue.Valid() && queue.Elements() == old(queue.Elements())
    ensures s == StackSpec.Render(old(queue.Elements()), show)
  {
    s := WriteArray("", queue, show);
  }

  /** operator<< on a linked queue. */
  method WriteLinked<T(0)>(os: string, queue: LinkedQueues.LinkedQueue<T>, show: T -> string) returns (out: string)
    requires queue.Valid()
    modifies queue, queue.head
    ensures queue.Valid() && queue.Elements() == old(queue.Elements()) && queue.head == old(queue.head)
    ensures out == os + StackSpec.Render(old(queue.Elements()), show)
  {
    ghost var orig := queue.Elements();
    var temp := new LinkedQueues.LinkedQueue.Copy(queue);
    queue.Clear();
    out := os + "<";
    while temp.Length() > 0
      invariant queue.Valid() && temp.Valid() && queue.Repr !! temp.Repr
      invariant queue.head == old(queue.head) && (queue.tail == queue.head || fresh(queue.tail)) && fresh(temp.Repr)
      invariant orig == queue.Elements() + temp.Elements()
      invariant out == StackSpec.Printing(os + "<", orig, |queue.Elements()|, show, ", ")
      decreases temp.length
    {
      out := WriteLinkedStep(os + "<", queue, temp, orig, out, show, ", ");
    }
    assert queue.Elements() == orig;
    StackSpec.PrintingRendered(os, orig, show);
    out := out + ">";
  }

  /** One element moves: the front of `src` is dequeued and enqueued at the
      rear of `dst`. */
  method Transfer<T(0)>(src: LinkedQueues.LinkedQueue<T>, dst: LinkedQueues.LinkedQueue<T>) returns (x: T)
    requires src.Valid() && dst.Valid() && src.Repr !! dst.Repr && src.length > 0
    modifies src, src.head, dst, dst.tail
    ensures src.Valid() && dst.Valid() && src.Repr !! dst.Repr
    ensures dst.head == old(dst.head) && src.Repr == old(src.Repr) && fresh(dst.tail)
    ensures old(src.Elements()) == [x] + src.Elements()
    ensures dst.Elements() == old(dst.Elements()) + [x]
  {
    var v := src.Dequeue();
    x := v.value;
    dst.Enqueue(x);
  }

  /** One round of the loop on linked queues. */
  method WriteLinkedStep<T(0)>(pre: string, q: LinkedQueues.LinkedQueue<T>, temp: LinkedQueues.LinkedQueue<T>, ghost orig: seq<T>,
                               out: string, show: T -> string, sep: string) returns (out': string)
    requires q.Valid() && temp.Valid() && q.Repr !! temp.Repr && temp.length > 0
    requires orig == q.Elements() + temp.Elements()
    requires out == StackSpec.Printing(pre, orig, |q.Elements()|, show, sep)
    modifies q, q.tail, temp, temp.head
    ensures q.Valid() && temp.Valid() && q.Repr !! temp.Repr && temp.length == old(temp.length) - 1
    ensures q.head == old(q.head) && fresh(q.tail) && temp.Repr == old(temp.Repr)
    ensures orig == q.Elements() + temp.Elements()
    ensures out' == StackSpec.Printing(pre, orig, |q.Elements()|, show, sep)
  {
    ghost var done := q.Elements();
    var front := temp.FrontValue().value;
    var x := Transfer(temp, q);
    out' := out + show(front) + (if temp.Length() > 0 then sep else "");
    QueueSpec.WritePrinted(pre, orig, done, x, temp.Elements(), show, sep);
  }

  /** to_string on a linked queue: the text operator<< writes. */
  method ToStringLinked<T(0)>(queue: LinkedQueues.LinkedQueue<T>, show: T -> string) returns (s: string)
    requires queue.Valid()
    modifies queue, queue.head
    ensures queue.Valid() && queue.Elements() == old(queue.Elements())
    ensures s == StackSpec.Render(old(queue.Elements()), show)
  {
    s := WriteLinked("", queue, show);
  }
}

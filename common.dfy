/** Outcome types shared by every container of the repository.  The C++
    code reports misuse by throwing std::runtime_error; the model returns the
    failure instead, so each operation states what it does on the error path. */
module Outcomes {

  /** The condition under which a container operation throws. */
  datatype Failure =
    | EmptyContainer     // remove/pop/dequeue/getValue/... on an empty container
    | PastEnd            // array list: cursor at length, nothing selected
    | OutOfRange         // linked list: moveToPos beyond the last element
    | CapacityExceeded   // growth of a buffer the container does not own
    | InvalidDirection   // stack direction other than 1 or -1
    | NonEmptyStack      // setDirection on a stack that holds elements
    | MissingKey         // BST remove of a key that is not in the tree

  datatype Result<T> = Ok(value: T) | Err(failure: Failure) {
    predicate IsFailure() { Err? }
    function PropagateFailure<U>(): Result<U>
      requires Err?
    {
      Err(failure)
    }
    function Extract(): T
      requires Ok?
    {
      value
    }
  }

  datatype Option<T> = None | Some(value: T)
}

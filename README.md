# cse204 data structures and algorithms, modelled in Dafny

This project models the core of the cse204 course repository: a set of
C++ data structures and the programs built on them, assignment by
assignment.

- **Lists (assignment 1).** A cursor list interface (`list.h`) has two
  stores. `arraylist` keeps a growable buffer and an index cursor.
  `LinkedList` keeps a sentinel-headed singly linked chain whose cursor
  points at the node before the current element. The interface also has
  its `<| a b>` renderer, `to_string` and `operator==`. `tnl.cpp` keeps
  transport-stop flags in a byte and runs its `process`/`task1` over a
  list.
- **Stacks (assignment 2).** `ArrayStack` has a direction (growing up
  from slot 0 or down from the last slot) and an owned or borrowed
  buffer. `LinkedStack` pushes after a sentinel. Both print as
  `<a, b, c>`. `dishwasher.cpp` simulates a dirty stack and a clean
  stack.
- **Queues (assignment 3).** `ArrayQueue` is a circular buffer with a
  front index. `LinkedQueue` is a sentinel-and-tail chain. Both support
  `leaveQueue`, which takes the rear. `queue.h` renders queues, and
  `bank.cpp` runs a two-booth bank with queue switching.
- **Binary search tree (assignment 4), heap and heapsort (assignment 5),
  sorting (assignment 7).** Insertion sort, merge sort, and quick sort
  with Lomuto, Hoare and randomised partitions.
- **Snakes and ladders (assignment 6).** A breadth-first search over the
  board's squares that follows ladder and snake chains. It rebuilds a
  shortest path on a stack and lists the unreachable squares. The
  command-line parser of `utils.cpp` belongs here too.
- **Dynamic programming (assignment 9).** Longest common subsequence
  with its traceback, and the bitmask travel-cost table. The parser of
  `test_generator.cpp` belongs here too.

Classes whose methods update fields in place are Dafny classes. Their
buffers are `array`s, their nodes are heap objects, and a ghost
`Valid()` invariant ties each one to a value-level specification. That
specification lives in modules such as `ListSpec`, `StackSpec`,
`QueueSpec`, `HeapSpec` and `SortSpec`, and the algebraic properties are
proved there. Loops in the source are `while` loops with invariants.
Pure index arithmetic and recursion are functions and lemmas. A C++
exception becomes an `Err` outcome, and the state is left as the source
leaves it.

Where the code and its documentation disagree, the model follows the
code:

- `LinkedList::moveToEnd` puts the cursor on the last element
  (length − 1) and `next` stops there.
- `arraylist::moveToEnd` puts the cursor one past the end, and its
  `moveToPos` clamps to the length instead of failing.
- `arraylist::remove` leaves the cursor where it was.

The model keeps these differences between the two stores.

Where the code has an evident bug, the model keeps the code as written
next to a corrected version (see "## Findings"). The program-level
results are proved about the corrected version. In the snakes and
ladders search, for example, the code queues every square a ladder or
snake chain improves. A snake's head is one of those squares, and no
player can stand on it.

## Model

| member | source | states |
|---|---|---|
| ListSpec.Search | assignment-1/linkedlist.h:386-400 | NPOS exactly when the item is absent; otherwise the least index holding it |
| ListSpec.SearchIsFirstMatch | assignment-1/linkedlist.h:388-399 | Search answers i if and only if the item is at i and at no smaller index |
| ListSpec.LinkedOperationsKeepWellFormed | assignment-1/linkedlist.h:36-54 | every linked-list operation, including successful remove and moveToPos, keeps the cursor on an element of a non-empty list and at 0 on an empty one |
| ListSpec.ArrayOperationsKeepWellFormed | assignment-1/arraylist.h:125-206 | every array-list operation, both removes included, keeps the cursor within [0, length] |
| ListSpec.LinkedInsertThenRemove | assignment-1/linkedlist.h:213-286 | remove right after insert returns the inserted item and restores the list and its cursor |
| ListSpec.ArrayInsertThenRemove | assignment-1/arraylist.h:125-161 | with the intended left shift, remove right after insert returns the item and restores the list |
| ListSpec.ArrayRemoveAsWrittenCounterexample | assignment-1/arraylist.h:146-161 | from <\| 0 1 2> the top-down copy leaves <\| 2 2>, where the left shift gives <\| 1 2> |
| ListSpec.ArrayRemoveAsWrittenAgreement | assignment-1/arraylist.h:155-158 | the as-written remove equals the intended one if and only if every element after the cursor already equals the last element |
| ListSpec.LinkedNextPrevInverse | assignment-1/linkedlist.h:310-343 | away from the ends, next then prev and prev then next return to the same list and cursor |
| ListSpec.AppendKeepsSelection | assignment-1/linkedlist.h:230-246 | append never changes the element under the cursor |
| ListSpec.StoresAgreeAwayFromEnd | assignment-1/arraylist.h:164-206 | on a non-empty list the two lists agree on getValue, prev and next away from the end; moveToEnd puts the array list one past the linked list's end |
| ListSpec.RenderScenarios | assignment-1/list.h:35-57 | an empty list renders "<>" and [0..4] with cursor 3 renders "<0 1 2 \| 3 4>" |
| LinkedLists.ChainDistinct | assignment-1/linkedlist.h:15-33 | the nodes of a null-terminated chain are pairwise distinct |
| LinkedLists.Inserted | assignment-1/linkedlist.h:213-227 | the sequence one longer, the value at index k, the old elements before and after it in order |
| LinkedLists.Removed | assignment-1/linkedlist.h:249-286 | the sequence one shorter, the element at k dropped and the rest in order |
| LinkedLists.LinkedList.constructor | assignment-1/linkedlist.h:58-62 | a fresh empty list with cursor 0 satisfying CHECK_STATE |
| LinkedLists.LinkedList.FromSeq | assignment-1/linkedlist.h:65-85 | appending the items one by one gives exactly those items with cursor 0 |
| LinkedLists.LinkedList.Copy | assignment-1/linkedlist.h:88-91 | fresh nodes holding the same items and the same cursor as the source |
| LinkedLists.LinkedList.Move | assignment-1/linkedlist.h:94-101 | the new list has the source's items and cursor; the source is left empty around a new sentinel |
| LinkedLists.LinkedList.CopyFrom | assignment-1/linkedlist.h:160-195 | rebuilds the chain node by node so that items, cursor and tail match the source; the source is not touched |
| LinkedLists.LinkedList.Assign | assignment-1/linkedlist.h:104-114 | afterwards the list holds the other's old items and cursor; self-assignment changes nothing |
| LinkedLists.LinkedList.MoveAssign | assignment-1/linkedlist.h:117-137 | this list takes the other's items and cursor; the other is left empty |
| LinkedLists.LinkedList.Clear | assignment-1/linkedlist.h:201-210 | the list becomes empty with cursor 0 |
| LinkedLists.LinkedList.Insert | assignment-1/linkedlist.h:213-227 | the item becomes the element at the cursor, the old elements from the cursor on shift right, the cursor index is kept |
| LinkedLists.LinkedList.Append | assignment-1/linkedlist.h:230-246 | the item is added after the last element; cursor and selected element unchanged |
| LinkedLists.LinkedList.Remove | assignment-1/linkedlist.h:249-286 | an error and no change on an empty list; otherwise returns the selected item and removes it, stepping the cursor back when it was on the last of two or more |
| LinkedLists.LinkedList.MoveToStart | assignment-1/linkedlist.h:289-294 | the cursor goes to 0 |
| LinkedLists.LinkedList.MoveToEnd | assignment-1/linkedlist.h:297-306 | the cursor goes to length - 1; nothing changes on an empty list |
| LinkedLists.LinkedList.Prev | assignment-1/linkedlist.h:310-330 | the cursor steps back one, and stays at 0 |
| LinkedLists.LinkedList.Next | assignment-1/linkedlist.h:333-343 | the cursor steps forward one, and stays on the last element |
| LinkedLists.LinkedList.Length | assignment-1/linkedlist.h:346-349 | the number of items |
| LinkedLists.LinkedList.CurrPos | assignment-1/linkedlist.h:352-355 | the cursor, which is 0 or on an element |
| LinkedLists.LinkedList.MoveToPos | assignment-1/linkedlist.h:358-370 | an error and no change when the position is at or past the length; otherwise the cursor is set to it |
| LinkedLists.LinkedList.GetValue | assignment-1/linkedlist.h:373-384 | an error on an empty list, else the item at the cursor |
| LinkedLists.LinkedList.Search | assignment-1/linkedlist.h:388-400 | NPOS exactly when the item is absent, else the least index holding it |
| LinkedLists.Predecessor | assignment-1/linkedlist.h:271-274 | the rescan from the head stops on the node just before the target |
| LinkedLists.CloneChain | assignment-1/linkedlist.h:171-191 | the copy loop builds a fresh chain with the same items and finds the counterparts of the cursor and tail nodes |
| ArrayLists.Grown | assignment-1/arraylist.h:97-103 | the new capacity is larger and even: double the old one, or 16 after a move left it at 0 |
| ArrayLists.ExpandedAsWritten | assignment-1/arraylist.h:97-107 | the as-written expand keeps the length and cursor but not the elements |
| ArrayLists.CopiedAsWritten | assignment-1/arraylist.h:50-54 | the as-written copy has the source's length and cursor and only the elements before the cursor |
| ArrayLists.ExpandedAsWrittenKeepsOnlyBlanks | assignment-1/arraylist.h:104-105 | the as-written expand keeps a list if and only if it holds nothing but default-constructed elements |
| ArrayLists.CopiedAsWrittenExactOnlyOnBlanks | assignment-1/arraylist.h:53 | the as-written copy is exact if and only if every element from the cursor on is default-constructed |
| ArrayLists.AsWrittenCounterexamples | assignment-1/arraylist.h:53-105 | appending to the full list <\| 1> loses the 1; copying <\| 1 2> gives <\| 0 0> |
| ArrayLists.ArrayList.State | assignment-1/arraylist.h:16-20 | the elements in use and a cursor within [0, length] |
| ArrayLists.ArrayList.constructor | assignment-1/arraylist.h:24-26 | an empty list with the default capacity of 8 |
| ArrayLists.ArrayList.WithCapacity | assignment-1/arraylist.h:29-31 | an empty list with the requested capacity |
| ArrayLists.ArrayList.FromSeq | assignment-1/arraylist.h:34-47 | the given items, cursor 0, capacity the larger of the request and the item count |
| ArrayLists.ArrayList.CopyAsWritten | assignment-1/arraylist.h:50-54 | the copy constructor as written: same capacity, length and cursor, only the elements before the cursor copied |
| ArrayLists.ArrayList.Copy | assignment-1/arraylist.h:49-54 | corrected copy: a fresh buffer holding the source's elements and cursor |
| ArrayLists.ArrayList.Move | assignment-1/arraylist.h:57-65 | takes the buffer, elements and cursor; the source is left empty with capacity 0 |
| ArrayLists.ArrayList.AssignAsWritten | assignment-1/arraylist.h:68-75 | copy assignment as written: the as-written copy of the other list, and for a self-assignment a list of fresh elements |
| ArrayLists.ArrayList.Assign | assignment-1/arraylist.h:67-75 | corrected copy assignment: afterwards the list equals the other, self-assignment included |
| ArrayLists.ArrayList.MoveAssign | assignment-1/arraylist.h:78-87 | the buffer changes hands and the other is left empty with capacity 0 |
| ArrayLists.ArrayList.ExpandAsWritten | assignment-1/arraylist.h:97-107 | expand as written: the grown capacity, the same length, the elements lost |
| ArrayLists.ArrayList.Expand | assignment-1/arraylist.h:95-107 | corrected expand: the grown capacity with the same elements and cursor |
| ArrayLists.ArrayList.Clear | assignment-1/arraylist.h:114-122 | empty list with cursor 0, buffer and capacity kept |
| ArrayLists.ArrayList.Insert | assignment-1/arraylist.h:125-135 | the item is placed at the cursor, the later elements shift right, the cursor is kept, capacity grows when full, through the corrected expand (see Findings arraylist.h:104) |
| ArrayLists.ArrayList.Append | assignment-1/arraylist.h:138-143 | the item goes after the last element; cursor kept; growth runs the corrected expand (see Findings arraylist.h:104) |
| ArrayLists.ArrayList.RemoveAsWritten | assignment-1/arraylist.h:146-161 | errors on an empty list or a cursor at the end; otherwise returns the element at the cursor, and the top-down loop fills every slot from the cursor up with the last element |
| ArrayLists.ArrayList.Remove | assignment-1/arraylist.h:145-161 | corrected remove: the same errors; returns the element at the cursor and the later elements shift left |
| ArrayLists.ArrayList.MoveToStart | assignment-1/arraylist.h:164 | the cursor goes to 0 |
| ArrayLists.ArrayList.MoveToEnd | assignment-1/arraylist.h:167 | the cursor goes to length, one past the last element |
| ArrayLists.ArrayList.Prev | assignment-1/arraylist.h:170-174 | the cursor steps back, not below 0 |
| ArrayLists.ArrayList.Next | assignment-1/arraylist.h:177-181 | the cursor steps forward, not beyond length |
| ArrayLists.ArrayList.Length | assignment-1/arraylist.h:184 | the number of elements |
| ArrayLists.ArrayList.CurrPos | assignment-1/arraylist.h:187 | the cursor, at most the length |
| ArrayLists.ArrayList.MoveToPos | assignment-1/arraylist.h:190-194 | sets the cursor, clamped to the length, never an error |
| ArrayLists.ArrayList.GetValue | assignment-1/arraylist.h:197-206 | an error exactly when the cursor is at the end (an empty list included), else the element at the cursor |
| ArrayLists.ArrayList.Search | assignment-1/arraylist.h:209-216 | NPOS exactly when the item is absent, else the least index holding it |
| ArrayLists.CopyPrefix | assignment-1/arraylist.h:38-46 | std::copy: the first n slots take the source's values, the rest are unchanged |
| ArrayLists.ShiftUp | assignment-1/arraylist.h:130-132 | the slots from the cursor to the end move one slot up, nothing else changes |
| ArrayLists.ShiftDownAsWritten | assignment-1/arraylist.h:156-158 | the top-down loop writes the last element into every slot of the range |
| ArrayLists.ShiftDown | assignment-1/arraylist.h:155-158 | the corrected loop moves the slots after the cursor one slot down |
| ListFormat.PrintedIsRender | assignment-1/list.h:35-57 | the text the printer's loop writes is exactly the rendering: "<", the elements separated by spaces with "\| " before the one at the cursor, ">" |
| ListFormat.WriteLinked | assignment-1/list.h:35-57 | printing a linked list appends its rendering to the stream and leaves its items and cursor as they were |
| ListFormat.RoundLinked | assignment-1/list.h:41-50 | one round of the printer writes the mark, the element and, before the last element, a space and one step of the cursor |
| ListFormat.ToStringLinked | assignment-1/list.h:60-64 | to_string of a linked list is its rendering, and the list is unchanged |
| ListFormat.WriteArray | assignment-1/list.h:35-57 | printing an array list appends its rendering and leaves it unchanged |
| ListFormat.ToStringArray | assignment-1/list.h:60-64 | to_string of an array list is its rendering, and the list is unchanged |
| ListFormat.FirstDifference | assignment-1/list.h:72-76 | the first index at which two different lists of one length differ |
| ListFormat.EqualLinked | assignment-1/list.h:67-81 | operator== as written: false exactly when the lists differ; getValue throws on two empty lists; two equal non-empty lists keep the loop going forever; items are never changed; a list compared with itself takes the same outcomes |
| ListFormat.SelfCompareLinked | assignment-1/list.h:67-81 | a linked list compared with itself never yields false: getValue throws when it is empty, and otherwise the loop never ends |
| ListFormat.CompareRoundLinked | assignment-1/list.h:72-76 | one round of the comparison loop: a differing pair ends it with false, otherwise both cursors step, and a step that stays put means it never ends |
| ListFormat.EqualArray | assignment-1/list.h:67-81 | operator== as written on array lists: false exactly when they differ; equal lists throw, at the end or on an empty list; it always returns, also for a list compared with itself |
| ListFormat.SelfCompareArray | assignment-1/list.h:67-81 | an array list compared with itself never yields false: getValue throws on an empty list and one past the end otherwise |
| ListFormat.FirstDifferenceIsFirst | assignment-1/list.h:72-76 | an index with equal elements before it and a difference at it is the first difference |
| ListFormat.EqualLinkedCorrected | assignment-1/list.h:66-81 | corrected comparison: true exactly when the lists hold the same items, a list compared with itself included; both cursors are restored |
| ListFormat.MatchRoundLinked | assignment-1/list.h:72-80 | one round of the corrected loop: it ends with the right answer, or both cursors step on with equal prefixes |
| TransitNetwork.SetThenGet | assignment-1/tnl.cpp:14-22 | after set(bit, v), get(bit) is v and the other two bits are unchanged |
| TransitNetwork.FlagsRoundTrip | assignment-1/tnl.cpp:10-29 | a stop built from three services reads them back, and bits 3 to 7 stay clear |
| TransitNetwork.TNLStop.constructor | assignment-1/tnl.cpp:25-29 | the flags are exactly the three arguments |
| TransitNetwork.TNLStop.Set | assignment-1/tnl.cpp:14-20 | the flag byte with the bit set or cleared |
| TransitNetwork.TNLStop.SetRS | assignment-1/tnl.cpp:31 | sets or clears the rickshaw bit only |
| TransitNetwork.TNLStop.SetBS | assignment-1/tnl.cpp:32 | sets or clears the bus bit only |
| TransitNetwork.TNLStop.SetTS | assignment-1/tnl.cpp:33 | sets or clears the train bit only |
| TransitNetwork.StopAtIsListSelection | assignment-1/tnl.cpp:56-64 | moveToPos then getValue selects stop b exactly when b is in range; otherwise the linked list fails in moveToPos and the array list in getValue |
| TransitNetwork.FirstMiss | assignment-1/tnl.cpp:54-65 | none exactly when every position read names a stop |
| TransitNetwork.Process | assignment-1/tnl.cpp:46-65 | fails exactly when a position read is out of range, reporting the first such failure; otherwise k fresh stops, all with rickshaws, bus and train flags set exactly at the positions read |
| TransitNetwork.Mark | assignment-1/tnl.cpp:54-65 | the marking loop sets the flag on every stop named, stopping at the first bad position |
| TransitNetwork.PrintLine | assignment-1/tnl.cpp:79-88 | the line lists each stop's index if it has the service, comma-separated, one slot per stop |
| TransitNetwork.Task1 | assignment-1/tnl.cpp:77-113 | the rickshaw, bus and train lines, each followed by a newline |
| TransitNetwork.ReportedStops | assignment-1/tnl.cpp:46-113 | after process, bus slot j holds j exactly when j was read as a bus stop, likewise for trains, and every rickshaw slot holds its index |
| StackSpec.Pop | assignment-2/arraystack.h:213-229 | an error exactly on an empty stack; otherwise the top element and the stack below it, which put back together give the stack |
| StackSpec.Top | assignment-2/arraystack.h:235-240 | an error exactly on an empty stack; otherwise the element pop would return |
| StackSpec.PushThenPop | assignment-2/arraystack.h:193-229 | pop right after push returns the pushed item and the stack before it, and topValue sees the item |
| StackSpec.ReversedReversed | assignment-2/arraystack.h:259-276 | reversing twice, as the two loops of operator<< do, gives back the sequence |
| StackSpec.LastInFirstOut | assignment-2/arraystack.h:193-229 | pushing a sequence and popping as many elements returns it reversed and leaves the stack as it was |
| StackSpec.RenderScenarios | assignment-2/arraystack.h:259-276 | an empty stack renders "<>" and [20, 23, 12] renders "<20, 23, 12>" |
| StackSpec.PrintingRendered | assignment-2/arraystack.h:265-274 | "<", every element bottom first separated by ", ", then ">" is the stack's rendering |
| StackSpec.RefillPrinted | assignment-2/arraystack.h:266-273 | each element the refilling loop pops from the temporary is the next one, bottom first, to print and push back |
| ArrayStacks.Layout | assignment-2/arraystack.h:173-181 | with dir 1 the elements occupy [0, length) and the top is at length - 1; with dir -1 they occupy [capacity - length, capacity) and the top is at capacity - length; distinct elements use distinct slots |
| ArrayStacks.RegionPlacedKeepsStack | assignment-2/arraystack.h:123-130 | writing the occupied region at the start of the region the same length and direction use elsewhere reproduces the stack |
| ArrayStacks.PushedOnto | assignment-2/arraystack.h:198-199 | writing the slot past the top and counting it pushes the item |
| ArrayStacks.PoppedFrom | assignment-2/arraystack.h:220-227 | the top slot holds the top element, and dropping it leaves the stack below |
| ArrayStacks.TopOverwritten | assignment-2/arraystack.h:235-240 | writing through the reference topValue returns replaces only the top element |
| ArrayStacks.Grown | assignment-2/arraystack.h:149-153 | the new capacity is larger and even: twice the old one, or 16 from 0 |
| ArrayStacks.Fitted | assignment-2/arraystack.h:134-140 | the capacity fit_and_allocate reaches holds the length, and is the old capacity or less than twice the length |
| ArrayStacks.FitLoopStaysAtZero | assignment-2/arraystack.h:136-138 | from capacity 0 every number of doublings stays at 0, below any positive length, so the loop never ends |
| ArrayStacks.FittedCorrected | assignment-2/arraystack.h:132-140 | corrected fit: starting again from the default when the capacity is 0, it holds the length and agrees with the source otherwise |
| ArrayStacks.ArrayStack.constructor | assignment-2/arraystack.h:27-28 | an empty owning stack with dir 1 and the requested capacity |
| ArrayStacks.ArrayStack.FromSeq | assignment-2/arraystack.h:31-36 | the items with the last on top, in the fitted capacity; from capacity 0 only an empty list is accepted |
| ArrayStacks.ArrayStack.Borrow | assignment-2/arraystack.h:39-45 | an empty stack on the caller's buffer, not owning it, with the given direction |
| ArrayStacks.ArrayStack.CopyAsWritten | assignment-2/arraystack.h:48-56 | copy constructor as written: the copy keeps the direction, but the elements land at the bottom of the new buffer |
| ArrayStacks.ArrayStack.Copy | assignment-2/arraystack.h:47-56 | corrected copy: a fresh owning stack with the same elements and direction |
| ArrayStacks.ArrayStack.Move | assignment-2/arraystack.h:59-68 | the buffer, elements, direction and ownership go over; the source is left empty, capacity 0, owning |
| ArrayStacks.ArrayStack.AssignAsWritten | assignment-2/arraystack.h:71-92 | fails exactly for a too-small borrowed buffer, and then leaves the length larger than the capacity; otherwise the direction and length go over and the buffer holds the as-written copy |
| ArrayStacks.ArrayStack.Assign | assignment-2/arraystack.h:70-92 | corrected copy assignment: the same failure but with nothing changed; otherwise the other's elements and direction |
| ArrayStacks.ArrayStack.MoveAssign | assignment-2/arraystack.h:95-110 | elements and direction go over, capacity, buffer and ownership are swapped, and the other is left empty |
| ArrayStacks.ArrayStack.Expand | assignment-2/arraystack.h:144-161 | fails on a borrowed buffer; otherwise a fresh buffer of the grown capacity holding the same stack |
| ArrayStacks.ArrayStack.Clear | assignment-2/arraystack.h:187-190 | an empty stack with buffer, capacity, direction and ownership kept |
| ArrayStacks.ArrayStack.Push | assignment-2/arraystack.h:193-210 | the item goes on top; a full stack grows first, and a full borrowed one fails with nothing changed |
| ArrayStacks.ArrayStack.Pop | assignment-2/arraystack.h:213-229 | an error on an empty stack; otherwise returns the top and removes it |
| ArrayStacks.ArrayStack.Length | assignment-2/arraystack.h:232 | the number of elements |
| ArrayStacks.ArrayStack.TopValue | assignment-2/arraystack.h:235-240 | an error on an empty stack, else the top element |
| ArrayStacks.ArrayStack.SetTop | assignment-2/arraystack.h:235-240 | assigning through topValue replaces the top element; an error on an empty stack |
| ArrayStacks.ArrayStack.SetDirection | assignment-2/arraystack.h:246-254 | an error on a non-empty stack, then for a direction other than 1 or -1; otherwise the direction changes |
| ArrayStacks.Borrowing | assignment-2/arraystack.h:39-45 | an error exactly for a direction other than 1 and -1; otherwise an empty non-owning stack on the buffer |
| ArrayStacks.Write | assignment-2/arraystack.h:259-276 | operator<< writes the stack bottom first as "<a, b, c>" and leaves it as it was |
| ArrayStacks.DrainAll | assignment-2/arraystack.h:262-264 | the draining loop moves every element onto the temporary, reversed |
| ArrayStacks.RefillAll | assignment-2/arraystack.h:266-273 | the refilling loop prints every element bottom first and pushes all of them back |
| ArrayStacks.CopiedAsWrittenExactWhen | assignment-2/arraystack.h:123-130 | the as-written copy gives the right stack when the direction is 1 or the stack fills the buffer |
| ArrayStacks.CopyAsWrittenCounterexample | assignment-2/arraystack.h:123-130 | a downward stack of capacity 2 holding 5 is copied as a stack holding a slot that was allocated but never constructed (the model's blank) |
| ArrayStacks.CopyFromAsWritten | assignment-2/arraystack.h:123-130 | copy_from as written: the occupied slots go to the new buffer from slot 0 on |
| ArrayStacks.CopyFrom | assignment-2/arraystack.h:122-130 | corrected copy_from: the destination holds the same stack under the same direction |
| ArrayStacks.FitAndAllocate | assignment-2/arraystack.h:134-140 | the fitted capacity and a fresh buffer of that size |
| ArrayStacks.CopySlice | assignment-2/arraystack.h:156-158 | std::move of n slots: that range takes the source's values and the rest is unchanged |
| LinkedStacks.Node.constructor | assignment-2/linkedstack.h:20-21 | a node holds the item and the successor it is given |
| LinkedStacks.LinkedStack.constructor | assignment-2/linkedstack.h:32 | a new stack is a fresh sentinel and holds nothing |
| LinkedStacks.LinkedStack.FromSeq | assignment-2/linkedstack.h:35-39 | the initialiser-list constructor holds the items in order, the last one on top |
| LinkedStacks.LinkedStack.Copy | assignment-2/linkedstack.h:42-46 | the copy holds the same elements as the original, in fresh nodes |
| LinkedStacks.LinkedStack.Move | assignment-2/linkedstack.h:49-54 | the new stack takes the other's nodes and elements; the other is left empty behind a fresh sentinel |
| LinkedStacks.LinkedStack.CopyFrom | assignment-2/linkedstack.h:107-125 | the chain behind the same sentinel becomes a fresh copy of the other's elements in the same order, sharing no node with it |
| LinkedStacks.LinkedStack.Assign | assignment-2/linkedstack.h:57-66 | copy assignment leaves this stack with the other's elements, including on self-assignment |
| LinkedStacks.LinkedStack.MoveAssign | assignment-2/linkedstack.h:69-84 | move assignment gives this stack the other's elements and, unless it is a self-assignment, leaves the other empty behind this stack's old sentinel |
| LinkedStacks.LinkedStack.Reset | assignment-2/linkedstack.h:52-53 | the stack is emptied behind the given sentinel, which is all it owns |
| LinkedStacks.LinkedStack.Clear | assignment-2/linkedstack.h:131-137 | clear empties the stack and keeps the sentinel |
| LinkedStacks.LinkedStack.Push | assignment-2/linkedstack.h:140-155 | the item is added on top and the elements below are unchanged |
| LinkedStacks.LinkedStack.Pop | assignment-2/linkedstack.h:158-177 | fails and changes nothing on an empty stack; otherwise returns the top and leaves the rest, as the stack specification's pop |
| LinkedStacks.LinkedStack.Length | assignment-2/linkedstack.h:180 | the number of elements held |
| LinkedStacks.LinkedStack.TopValue | assignment-2/linkedstack.h:183-189 | the top element, or an error on an empty stack, as the stack specification's top |
| LinkedStacks.LinkedStack.SetDirection | assignment-2/linkedstack.h:195 | has no effect on the elements |
| LinkedStacks.CloneChain | assignment-2/linkedstack.h:116-124 | the copy loop builds a well-formed chain of fresh nodes holding the source chain's items in order |
| LinkedStacks.Write | assignment-2/linkedstack.h:200-217 | printing writes the elements bottom first between '<' and '>' separated by ", ", and leaves the stack as it was |
| LinkedStacks.DrainAll | assignment-2/linkedstack.h:203-205 | the first loop of printing moves every element onto the temporary stack, reversing their order |
| LinkedStacks.RefillAll | assignment-2/linkedstack.h:207-214 | the second loop writes every element bottom first and pushes it back, so the stack is restored |
| LinkedStacks.Transfer | assignment-2/linkedstack.h:204 | the top of one stack is popped and pushed onto the other |
| LinkedStacks.DrainStep | assignment-2/linkedstack.h:203-205 | one round of the draining loop keeps the stack plus the reversed temporary equal to the original |
| LinkedStacks.RefillStep | assignment-2/linkedstack.h:207-214 | one round of the refilling loop writes the next element and moves it back, keeping the same relation |
| Dishwasher.Max | assignment-2/dishwasher.cpp:34-37 | the larger of the two arguments |
| Dishwasher.StartTime | assignment-2/dishwasher.cpp:31-37 | washing starts no earlier than the dish was put down and after the last clean dish was finished |
| Dishwasher.SetThenPop | assignment-2/dishwasher.cpp:39-40 | writing the top through topValue and then popping returns the written value and the stack below |
| Dishwasher.CleanedTopMoves | assignment-2/dishwasher.cpp:31-41 | cleanDish moves the top dirty dish onto the clean stack, finished at least its size after it was put down and after the previous clean dish, and keeps the clean times increasing |
| Dishwasher.CleanedBefore | assignment-2/dishwasher.cpp:77-81 | the cleaning loop stops exactly when no more dishes may be washed before the arrival, takes dishes only from the top of the dirty stack and adds them only on top of the clean stack |
| Dishwasher.CleanedBeforeKeepsOrder | assignment-2/dishwasher.cpp:77-81 | the cleaning loop keeps the clean times strictly increasing |
| Dishwasher.CleanedAll | assignment-2/dishwasher.cpp:86-88 | after the input every dirty dish is washed and the clean stack grows by all of them |
| Dishwasher.CleanedAllKeepsOrder | assignment-2/dishwasher.cpp:86-88 | washing the remaining dishes keeps the clean times strictly increasing |
| Dishwasher.ServedCount | assignment-2/dishwasher.cpp:66-84 | every dish put down is on one of the two stacks, and with positive sizes the clean times increase |
| Dishwasher.FullCourse | assignment-2/dishwasher.cpp:72-74 | at most one diner id per input line |
| Dishwasher.FullCourseMembers | assignment-2/dishwasher.cpp:72-74 | an id is recorded exactly when some input line has that diner eating the last course |
| Dishwasher.OutputFails | assignment-2/dishwasher.cpp:86-90 | the simulation fails, reading the top of an empty clean stack, exactly when there is no input line |
| Dishwasher.OutputLast | assignment-2/dishwasher.cpp:86-90 | otherwise every dish is washed and the first number printed is the latest finishing time |
| Dishwasher.IncreasingAt | assignment-2/dishwasher.cpp:31-41 | in a clean stack whose times increase step by step, any lower dish finished before any higher one |
| Dishwasher.SharedBufferDisjoint | assignment-2/dishwasher.cpp:125-132 | two stacks growing towards each other in one buffer never share a slot exactly when their sizes together fit the buffer |
| Dishwasher.SharedBufferSuffices | assignment-2/dishwasher.cpp:125-132 | with at most n*x input lines the dirty and clean stacks sharing n*x slots never collide |
| Dishwasher.DishwasherSimulator.constructor | assignment-2/dishwasher.cpp:26-29 | the simulator takes over the two stacks and their contents |
| Dishwasher.DishwasherSimulator.CleanDish | assignment-2/dishwasher.cpp:31-41 | the stacks change exactly as the pure cleanDish step says |
| Dishwasher.DishwasherSimulator.CleanBefore | assignment-2/dishwasher.cpp:77-81 | the stacks change exactly as the pure cleaning loop says |
| Dishwasher.DishwasherSimulator.PutDown | assignment-2/dishwasher.cpp:83 | the dish goes on top of the dirty stack and the clean stack is unchanged |
| Dishwasher.DishwasherSimulator.Arrive | assignment-2/dishwasher.cpp:77-83 | one input line changes the stacks as the pure model of a line says |
| Dishwasher.DishwasherSimulator.CleanAll | assignment-2/dishwasher.cpp:86-88 | after the input the stacks change as the pure model of the final washing says |
| Dishwasher.DishwasherSimulator.PrintCleanDishes | assignment-2/dishwasher.cpp:43-55 | prints the clean times bottom first separated by commas and leaves the clean stack as it was |
| Dishwasher.DishwasherSimulator.Simulate | assignment-2/dishwasher.cpp:57-105 | the whole simulation prints exactly the pure model's output, or fails when there is no input line |
| Dishwasher.DishwasherSimulator.Finish | assignment-2/dishwasher.cpp:86-102 | the remaining dishes are washed, then the report is printed, failing when nothing is clean |
| Dishwasher.DishwasherSimulator.Print | assignment-2/dishwasher.cpp:90-102 | prints the last finishing time, the clean times, whether every diner ate the last course, and those diners last first |
| Dishwasher.DishwasherSimulator.ServeAll | assignment-2/dishwasher.cpp:66-84 | the input loop leaves the stacks as the pure model of all lines and records the full-course diners in input order |
| Dishwasher.DishwasherSimulator.ServeLine | assignment-2/dishwasher.cpp:67-83 | one round records the diner when they ate the last course and serves the line |
| Dishwasher.PopAll | assignment-2/dishwasher.cpp:96-101 | the diner stack is popped empty and the ids printed top first separated by commas |
| QueueSpec.Dequeue | assignment-3/arrayqueue.h:263-274 | an error exactly on an empty queue; otherwise the front element and the queue behind it, which put back together give the queue |
| QueueSpec.LeaveQueue | assignment-3/arrayqueue.h:302-311 | an error exactly on an empty queue; otherwise the rear element and the rest in order, which put back together give the queue |
| QueueSpec.Front | assignment-3/arrayqueue.h:280-285 | an error exactly on an empty queue; otherwise the element dequeue would return |
| QueueSpec.Rear | assignment-3/arrayqueue.h:291-296 | an error exactly on an empty queue; otherwise the element leaveQueue would return |
| QueueSpec.LeaveQueueIsPop | assignment-3/linkedqueue.h:237-258 | taking the rear off a queue is popping a stack listed from the bottom up |
| QueueSpec.EnqueueThenLeave | assignment-3/linkedqueue.h:160-166 | leaveQueue undoes enqueue, and the enqueued element is the rear |
| QueueSpec.EnqueueBehindFront | assignment-3/linkedqueue.h:160-207 | enqueueing behind a non-empty queue leaves its front, and what dequeue takes, unchanged |
| QueueSpec.FirstInFirstOut | assignment-3/tests.cpp:26-38 | on a queue that starts with some elements, as many dequeues return them in order and leave the rest |
| QueueSpec.BasicScenario | assignment-3/tests.cpp:12-24 | the queue {1, 2, 3, 4, 5} after a dequeue and a leaveQueue has front 2 and rear 4 and renders as "<2, 3, 4>"; an empty queue renders as "<>" |
| QueueSpec.WritePrinted | assignment-3/queue.h:42-48 | one round of operator<<'s loop writes the next element followed by ", " unless it is the last |
| ArrayQueues.Slot | assignment-3/arrayqueue.h:132-136 | the slot of an element from the front lies inside the buffer |
| ArrayQueues.SlotIsRemainder | assignment-3/arrayqueue.h:135 | the slot is the front plus the position taken modulo the capacity |
| ArrayQueues.RearPos | assignment-3/arrayqueue.h:132-136 | rear_pos is the slot of the last element |
| ArrayQueues.NextFront | assignment-3/arrayqueue.h:271 | after a dequeue the front moves one slot on, wrapping round the buffer |
| ArrayQueues.SlotsDistinct | assignment-3/arrayqueue.h:132-136 | different positions in a queue that fits the buffer occupy different slots |
| ArrayQueues.QueueOf | assignment-3/arrayqueue.h:125-136 | the queue a buffer holds has the queue's length |
| ArrayQueues.Enqueued | assignment-3/arrayqueue.h:238-245 | writing the slot behind the rear adds the item at the end of the queue |
| ArrayQueues.Dequeued | assignment-3/arrayqueue.h:263-274 | the front slot holds the first element, and the queue from the next slot on is the rest |
| ArrayQueues.Grown | assignment-3/arrayqueue.h:180-219 | expand always grows the capacity: a zero capacity becomes the default, any other doubles |
| ArrayQueues.ArrayQueue.constructor | assignment-3/arrayqueue.h:30-32 | an empty queue owning a fresh buffer of the requested capacity, front at slot 0 |
| ArrayQueues.ArrayQueue.FromSeq | assignment-3/arrayqueue.h:35-40 | the capacity doubles until the items fit and the queue holds them in order, the first at the front; from capacity 0 only an empty list is accepted |
| ArrayQueues.ArrayQueue.Borrow | assignment-3/arrayqueue.h:43-45 | an empty queue on the caller's buffer, which it does not own |
| ArrayQueues.ArrayQueue.CopyAsWritten | assignment-3/arrayqueue.h:48-54 | as written, a copy of an empty queue keeps an unset front index, so the copy is well formed only when that index happens to lie in the buffer; a non-empty copy holds the same queue |
| ArrayQueues.ArrayQueue.Copy | assignment-3/arrayqueue.h:48-54 | the copy holds the same queue from slot 0 in a fresh buffer of the same capacity |
| ArrayQueues.ArrayQueue.Move | assignment-3/arrayqueue.h:57-67 | the new queue takes the buffer and layout; the other is left empty with capacity 0, front 0, owning |
| ArrayQueues.ArrayQueue.AssignAsWritten | assignment-3/arrayqueue.h:70-93 | copy assignment as written: fails, changing nothing, exactly when a borrowed buffer is too small; otherwise holds the other's queue, in a buffer of the capacity the doubling reaches when the old one was too small |
| ArrayQueues.ArrayQueue.Assign | assignment-3/arrayqueue.h:70-93 | corrected copy assignment (see Findings arrayqueue.h:170-176): the same failure and queue, with a moved-from queue growing from the default capacity |
| ArrayQueues.ArrayQueue.MoveAssignAsWritten | assignment-3/arrayqueue.h:96-112 | as written, the other queue is emptied but keeps its own front index with this queue's buffer, so it stays well formed only when that index fits |
| ArrayQueues.ArrayQueue.MoveAssign | assignment-3/arrayqueue.h:96-112 | this queue takes the other's queue, buffer and ownership; the other gets this queue's buffer, empty, from slot 0 |
| ArrayQueues.ArrayQueue.Expand | assignment-3/arrayqueue.h:180-219 | fails exactly on a borrowed buffer; otherwise the queue moves in order to the start of a fresh, larger buffer |
| ArrayQueues.ArrayQueue.Clear | assignment-3/arrayqueue.h:251-254 | the queue is emptied and keeps its buffer, capacity and front index |
| ArrayQueues.ArrayQueue.Enqueue | assignment-3/arrayqueue.h:238-260 | fails, changing nothing, exactly when a full queue has a borrowed buffer; otherwise the item joins the rear |
| ArrayQueues.ArrayQueue.Dequeue | assignment-3/arrayqueue.h:263-274 | as the queue specification's dequeue, with the front moving one slot on |
| ArrayQueues.ArrayQueue.LeaveQueue | assignment-3/arrayqueue.h:302-311 | as the queue specification's leaveQueue, with the front unchanged |
| ArrayQueues.ArrayQueue.Length | assignment-3/arrayqueue.h:277 | the number of elements held |
| ArrayQueues.ArrayQueue.FrontValue | assignment-3/arrayqueue.h:280-285 | the front element, or an error on an empty queue |
| ArrayQueues.ArrayQueue.RearValue | assignment-3/arrayqueue.h:291-296 | the rear element, or an error on an empty queue |
| ArrayQueues.Linearize | assignment-3/arrayqueue.h:139-166 | the copying of copy_from and expand puts the elements in queue order at the start of the new buffer, in one block or two, and touches nothing beyond them |
| ArrayQueues.MoveAssignCounterexample | assignment-3/arrayqueue.h:96-112 | a moved-from queue left with front 5 on a buffer of 2 slots lies outside its buffer |
| ArrayQueues.CopyOfEmptyCounterexample | assignment-3/arrayqueue.h:48-54 | a copy of an empty queue whose unset front holds 9, on 8 slots, lies outside its buffer |
| LinkedQueues.Node.constructor | assignment-3/linkedqueue.h:17-23 | a node holds the item and the successor it is given |
| LinkedQueues.LinkedQueue.constructor | assignment-3/linkedqueue.h:45-48 | a new queue is a fresh sentinel, which is also its tail, and holds nothing |
| LinkedQueues.LinkedQueue.FromSeq | assignment-3/linkedqueue.h:51-55 | the queue holds the items in order, the first at the front |
| LinkedQueues.LinkedQueue.Copy | assignment-3/linkedqueue.h:58-63 | the copy holds the same queue in fresh nodes |
| LinkedQueues.LinkedQueue.Move | assignment-3/linkedqueue.h:66-72 | the new queue takes the other's nodes; the other is left empty behind a fresh sentinel |
| LinkedQueues.LinkedQueue.CopyFrom | assignment-3/linkedqueue.h:128-155 | the chain behind the same sentinel becomes a fresh copy of the other's queue, with the tail on the last copy |
| LinkedQueues.LinkedQueue.Assign | assignment-3/linkedqueue.h:75-83 | copy assignment leaves this queue with the other's elements, including on self-assignment |
| LinkedQueues.LinkedQueue.MoveAssign | assignment-3/linkedqueue.h:86-103 | this queue takes the other's elements and, unless it is a self-assignment, the other is emptied behind this queue's old sentinel |
| LinkedQueues.LinkedQueue.Reset | assignment-3/linkedqueue.h:69-71 | the queue is emptied behind the given sentinel |
| LinkedQueues.LinkedQueue.Clear | assignment-3/linkedqueue.h:172-179 | clear empties the queue, keeps the sentinel and makes it the tail again |
| LinkedQueues.LinkedQueue.Enqueue | assignment-3/linkedqueue.h:160-185 | a fresh node holding the item becomes the tail, behind the elements already held |
| LinkedQueues.LinkedQueue.Dequeue | assignment-3/linkedqueue.h:188-207 | as the queue specification's dequeue; the tail returns to the sentinel when the last node goes |
| LinkedQueues.LinkedQueue.LeaveQueue | assignment-3/linkedqueue.h:237-258 | as the queue specification's leaveQueue; the node before the old tail becomes the tail |
| LinkedQueues.LinkedQueue.Length | assignment-3/linkedqueue.h:210 | the number of elements held |
| LinkedQueues.LinkedQueue.FrontValue | assignment-3/linkedqueue.h:213-219 | the front element, or an error on an empty queue |
| LinkedQueues.LinkedQueue.RearValue | assignment-3/linkedqueue.h:225-231 | the item of the tail, which is the rear element, or an error on an empty queue |
| LinkedQueues.CloneChain | assignment-3/linkedqueue.h:138-154 | the copy loop builds a chain of fresh, distinct nodes holding the source's items in order and returns the last as the tail |
| QueueFormat.WriteArray | assignment-3/queue.h:36-51 | printing an array queue writes its elements front first between '<' and '>' separated by ", " and leaves the queue, its buffer and capacity as they were |
| QueueFormat.WriteArrayStep | assignment-3/queue.h:42-48 | one round writes the front of the temporary copy and moves it to the rear of the queue |
| QueueFormat.ToStringArray | assignment-3/queue.h:53-59 | to_string of an array queue is the rendering operator<< writes |
| QueueFormat.WriteLinked | assignment-3/queue.h:36-51 | printing a linked queue writes its elements front first and leaves the queue as it was |
| QueueFormat.Transfer | assignment-3/queue.h:44 | the front of one queue is dequeued and enqueued at the rear of the other |
| QueueFormat.WriteLinkedStep | assignment-3/queue.h:42-48 | one round of the loop on linked queues keeps the written prefix and the two queues in step |
| QueueFormat.ToStringLinked | assignment-3/queue.h:53-59 | to_string of a linked queue is the rendering operator<< writes |
| BankSimulation.Serving | assignment-3/bank.cpp:34-38 | an idle booth takes the customer and stays busy for exactly the customer's service time |
| BankSimulation.WithQueue | assignment-3/bank.cpp:47 | replacing one queue leaves the other queue, the booths and the clock alone |
| BankSimulation.WithBooth | assignment-3/bank.cpp:48 | replacing one booth leaves the other booth, the queues and the clock alone |
| BankSimulation.ConservesChain | assignment-3/bank.cpp:79-106 | two stretches that each lose no customer together lose none |
| BankSimulation.ServedFrom | assignment-3/bank.cpp:83-86 | a booth takes a customer exactly when it is idle and the queue is non-empty, and then takes the front of that queue; otherwise nothing changes |
| BankSimulation.ServedFromConserves | assignment-3/bank.cpp:83-86 | serving moves the customer from its queue to the booth and leaves the other queue as it was |
| BankSimulation.Partner | assignment-3/bank.cpp:92-93 | the queue index is a valid one, and differs from the booth's own exactly when serving from the other queue |
| BankSimulation.Round | assignment-3/bank.cpp:82-96 | a serving loop does not move the clock |
| BankSimulation.RoundConserves | assignment-3/bank.cpp:82-96 | a serving loop loses no customer |
| BankSimulation.Switch | assignment-3/bank.cpp:55-63 | switching touches neither the booths nor the clock |
| BankSimulation.SwitchBalances | assignment-3/bank.cpp:55-63 | switching keeps every waiting customer, changes nothing unless the lengths differ by two or more, and then moves the rear of the longer queue behind the shorter one, narrowing the gap by two |
| BankSimulation.Ticked | assignment-3/bank.cpp:80-100 | one iteration moves the clock on by one |
| BankSimulation.TickConserves | assignment-3/bank.cpp:80-100 | one iteration loses no customer |
| BankSimulation.Elapsed | assignment-3/bank.cpp:79-106 | elapse does nothing when the clock has reached the target; otherwise it stops at the target or earlier once nobody waits and both booths are idle |
| BankSimulation.ElapsedConserves | assignment-3/bank.cpp:79-106 | elapse loses no customer, and when it stops early every customer who was waiting has been handed to a booth |
| BankSimulation.Placed | assignment-3/bank.cpp:117-133 | an arrival is served directly exactly when some booth has an empty queue and is idle |
| BankSimulation.PlacedWhere | assignment-3/bank.cpp:117-133 | the first free booth serves the arrival; otherwise it joins the rear of queue 0 when that is strictly shorter, else of queue 1, and no customer is lost |
| BankSimulation.Admit | assignment-3/bank.cpp:18-19 | a new customer gets the next number and the arrival's times |
| BankSimulation.CustomersNumbered | assignment-3/bank.cpp:11-19 | customers are numbered 1, 2, 3, ... in arrival order, each with its own times |
| BankSimulation.ArrivedConserves | assignment-3/bank.cpp:114-133 | one arrival adds its customer and loses none |
| BankSimulation.ProcessedStep | assignment-3/bank.cpp:113-135 | the state after one more arrival is one more step from the state before |
| BankSimulation.ProcessedByConserves | assignment-3/bank.cpp:113-135 | a loop whose every step keeps its new customer and the others keeps every customer that arrives |
| BankSimulation.CustomersSnoc | assignment-3/bank.cpp:113-116 | the customers of a sequence of arrivals are those of all but the last plus the last one, numbered after them |
| BankSimulation.ProcessedBySnoc | assignment-3/bank.cpp:113-135 | the loop over a sequence of arrivals is the loop over all but the last followed by one step for the last |
| BankSimulation.ConservesSame | assignment-3/bank.cpp:79-106 | the conservation property does not depend on how its arguments are written |
| BankSimulation.ProcessedConserves | assignment-3/bank.cpp:113-135 | every customer who arrives is still waiting or has been handed to a booth |
| BankSimulation.RunLosesNoCustomer | assignment-3/bank.cpp:108-141 | across the whole program no customer is lost, and when the clock stops short of INT_MAX every customer was handed to a booth |
| BankSimulation.Booth.constructor | assignment-3/bank.cpp:29-31 | a booth starts idle from time 0 with no customer |
| BankSimulation.Booth.IsBusy | assignment-3/bank.cpp:33 | busy exactly while the time is before the end of the current service |
| BankSimulation.Booth.ServeCustomer | assignment-3/bank.cpp:34-38 | the booth's state becomes the pure serving step |
| BankSimulation.Bank.constructor | assignment-3/bank.cpp:46-51 | a bank at time 0 with two empty queues and two idle booths |
| BankSimulation.Bank.ServeFrom | assignment-3/bank.cpp:83-86 | the bank changes as the pure serving step says |
| BankSimulation.Bank.ServeRound | assignment-3/bank.cpp:82-96 | one for loop of elapse changes the bank as the pure serving loop says |
| BankSimulation.Bank.SwitchQueues | assignment-3/bank.cpp:55-63 | the bank changes as the pure switch says |
| BankSimulation.Bank.Tick | assignment-3/bank.cpp:80-100 | one iteration of elapse changes the bank as the pure iteration says |
| BankSimulation.Bank.Elapse | assignment-3/bank.cpp:79-106 | elapse changes the bank as the pure elapse says |
| BankSimulation.Bank.Place | assignment-3/bank.cpp:117-133 | the placement changes the bank as the pure placement says |
| BankSimulation.Bank.Arrive | assignment-3/bank.cpp:114-134 | one arrival changes the bank as the pure arrival says and numbers one more customer |
| BankSimulation.Bank.Process | assignment-3/bank.cpp:108-141 | process leaves the bank as the pure model of all arrivals followed by an elapse to INT_MAX, and reports the booths' finishing times |
| BankSimulation.RunBank | assignment-3/bank.cpp:144-157 | a fresh bank run on the arrivals reports the finishing times of the pure model |
| BankSimulation.Move | assignment-3/bank.cpp:58-60 | the rear of one queue is taken off and enqueued at the rear of the other |
| BinarySearchTrees.WithinChildren | assignment-4/bstree.h:84-92 | the children of a subtree are subtrees too |
| BinarySearchTrees.InsertAt | assignment-4/bstree.h:97-106 | insertion yields a node and adds exactly one occurrence of the key |
| BinarySearchTrees.InsertKeepsOrder | assignment-4/bstree.h:97-106 | sending keys at most a node's key to the left and larger ones to the right keeps the search-tree invariant |
| BinarySearchTrees.AddedBelow | assignment-4/bstree.h:101-102 | a key added to the left side keeps that side bounded by the node's key |
| BinarySearchTrees.AddedAbove | assignment-4/bstree.h:103-104 | a key added to the right side keeps that side above the node's key |
| BinarySearchTrees.Rightmost | assignment-4/bstree.h:49-58 | following right links reaches a stored key with no right child, the maximum of a search tree |
| BinarySearchTrees.Leftmost | assignment-4/bstree.h:61-70 | following left links reaches a stored key with no left child, a minimum of a search tree |
| BinarySearchTrees.FindMax | assignment-4/bstree.h:49-58 | null for an empty tree, otherwise the rightmost node |
| BinarySearchTrees.FindMin | assignment-4/bstree.h:61-70 | null for an empty tree, otherwise the leftmost node |
| BinarySearchTrees.FindNode | assignment-4/bstree.h:78-94 | in a search tree the search returns a node holding the key exactly when the key is stored, and null otherwise |
| BinarySearchTrees.RemoveAt | assignment-4/bstree.h:109-134 | a missing key is an error; otherwise the element handed back holds the key searched for |
| BinarySearchTrees.RemoveAtKeys | assignment-4/bstree.h:109-134 | a successful removal takes out exactly one occurrence of the key |
| BinarySearchTrees.RemoveAtOrdered | assignment-4/bstree.h:109-134 | in a search tree the removal succeeds exactly when the key is stored, and what remains is a search tree |
| BinarySearchTrees.RemoveLeft | assignment-4/bstree.h:113-114 | the descent to the left keeps that property |
| BinarySearchTrees.RemoveRight | assignment-4/bstree.h:115-116 | the descent to the right keeps that property |
| BinarySearchTrees.RemoveRoot | assignment-4/bstree.h:120-127 | removing at a node with two children keeps that property |
| BinarySearchTrees.RemoveThinRoot | assignment-4/bstree.h:128-132 | removing at a node with at most one child keeps that property |
| BinarySearchTrees.SubtreeBound | assignment-4/bstree.h:122-124 | keys left after a removal from a subtree bounded above stay bounded above |
| BinarySearchTrees.SubtreeBoundBelow | assignment-4/bstree.h:113-116 | keys left after a removal from a subtree bounded below stay bounded below |
| BinarySearchTrees.RemoveFrom | assignment-4/bstree.h:236-255 | an empty tree is one error and a missing key another |
| BinarySearchTrees.RemoveTakesOneOccurrence | assignment-4/bstree.h:236-255 | removing a stored key succeeds, hands back that key, takes out one occurrence and leaves a search tree |
| BinarySearchTrees.TwoChildRemoval | assignment-4/bstree.h:120-127 | a node with two children takes over the maximum of its left subtree, which leaves that subtree, and keeps its right subtree |
| BinarySearchTrees.InsertThenRemove | assignment-4/bstree.h:202-255 | inserting then removing the same key leaves the same keys |
| BinarySearchTrees.Cancel | assignment-4/bstree.h:202-255 | adding then taking out one occurrence of a key leaves the keys as they were |
| BinarySearchTrees.KeysOfAppend | assignment-4/bstree.h:136-159 | the keys of concatenated traversals are the keys of each |
| BinarySearchTrees.KeysOfHas | assignment-4/bstree.h:136-159 | every entry visited contributes its key |
| BinarySearchTrees.TraversalKeys | assignment-4/bstree.h:136-159 | every order visits every stored key exactly once |
| BinarySearchTrees.KeysOfAppend3 | assignment-4/bstree.h:136-159 | the keys of three concatenated traversals are the keys of each |
| BinarySearchTrees.TraversalsPermute | assignment-4/bstree.h:142-158 | pre-order, post-order and in-order visit the same entries |
| BinarySearchTrees.InOrderSorted | assignment-4/bstree.h:153-157 | in a search tree the in-order walk visits the keys in non-decreasing order |
| BinarySearchTrees.SortedAround | assignment-4/bstree.h:153-157 | a sorted left walk, the node and a sorted right walk above it form a sorted walk |
| BinarySearchTrees.Printed | assignment-4/bstree.h:161-177 | the rendering is empty exactly for an empty tree |
| BinarySearchTrees.UnbracketedAppend | assignment-4/bstree.h:161-177 | removing brackets distributes over concatenation |
| BinarySearchTrees.CountAppend | assignment-4/bstree.h:161-177 | counting a character distributes over concatenation |
| BinarySearchTrees.KeyTextAppend | assignment-4/bstree.h:161-177 | the key text of concatenated walks is the concatenated key texts |
| BinarySearchTrees.NoBrackets | assignment-4/bstree.h:165 | a text without brackets is its own unbracketed form and counts no bracket |
| BinarySearchTrees.KeyHasNoBrackets | assignment-4/bstree.h:165 | a printed key holds no bracket |
| BinarySearchTrees.PrintedIsPreOrder | assignment-4/bstree.h:161-177 | without its brackets the rendering is the keys in pre-order |
| BinarySearchTrees.PreOrderText | assignment-4/bstree.h:143-146 | the pre-order key text is the root key, then the left subtree's, then the right subtree's |
| BinarySearchTrees.UnbracketedWrap | assignment-4/bstree.h:165-176 | the brackets around the children disappear when brackets are removed |
| BinarySearchTrees.UnbracketedAround | assignment-4/bstree.h:165-176 | bracket-only pieces between a key and its children leave only the key and the children's text |
| BinarySearchTrees.UnbracketedMarks | assignment-4/bstree.h:167-175 | the bracket marks the printer writes vanish when brackets are removed |
| BinarySearchTrees.PrintedBalanced | assignment-4/bstree.h:161-177 | the rendering closes every bracket it opens |
| BinarySearchTrees.BracketedCount | assignment-4/bstree.h:165-176 | wrapping the children adds one opening and one closing bracket pair |
| BinarySearchTrees.BSTree.constructor | assignment-4/bstree.h:189 | a new tree is empty with size 0 |
| BinarySearchTrees.BSTree.Insert | assignment-4/bstree.h:202-233 | the tree gains one occurrence of the key and stays a search tree; the recorded size is left as it was, as in the source |
| BinarySearchTrees.BSTree.Remove | assignment-4/bstree.h:236-255 | succeeds exactly when the key is stored, then hands back the removed element's value and loses one occurrence of the key; on an error nothing changes |
| BinarySearchTrees.BSTree.Find | assignment-4/bstree.h:257 | true exactly when the key is stored |
| HeapSpec.Swap | assignment-5/heap.h:43 | swapping two slots keeps the buffer's length |
| HeapSpec.SwapPermutes | assignment-5/heap.h:43 | a swap inside slots 1..n keeps the heap's elements and the slots beyond |
| HeapSpec.SwapPrefix | assignment-5/heap.h:43 | a swap exchanges exactly the two slots' values |
| HeapSpec.Larger | assignment-5/heap.h:31-41 | heapify moves to the larger child only when it beats the parent, to the right child only when it also beats the left one; otherwise no child beats the parent |
| HeapSpec.SiftDown | assignment-5/heap.h:28-49 | heapify(p) touches no slot above p or beyond the heap |
| HeapSpec.SiftDownPermutes | assignment-5/heap.h:28-49 | heapify only moves values among the heap's slots |
| HeapSpec.SiftDownRestores | assignment-5/heap.h:28-49 | heapify(p) restores the heap invariant from p on when it held everywhere below except at p itself |
| HeapSpec.SwapStep | assignment-5/heap.h:42-44 | one swap of heapify moves the one possible violation one level down |
| HeapSpec.SiftDownKeeps | assignment-5/heap.h:28-49 | a slot below p holding at most p's value is never swapped by heapify(p) |
| HeapSpec.SiftUp | assignment-5/heap.h:89-96 | increase_key(q, v) touches no slot beyond q |
| HeapSpec.SiftUpElements | assignment-5/heap.h:89-96 | filling the hole at q with v replaces the hole's old value by v among the heap's elements |
| HeapSpec.Shift | assignment-5/heap.h:92-95 | two replacements in a row compose into one |
| HeapSpec.UpdateElements | assignment-5/heap.h:92 | overwriting one slot replaces its old value by the new one |
| HeapSpec.SiftUpRestores | assignment-5/heap.h:89-96 | when every pair away from the hole is ordered, increase_key leaves a heap |
| HeapSpec.HoleClimbs | assignment-5/heap.h:91-93 | moving a smaller parent down into the hole keeps the hole invariant one level up |
| HeapSpec.RootDominates | assignment-5/heap.h:24-26 | in a heap slot 1 holds at least every other slot's value |
| HeapSpec.RootIsMax | assignment-5/heap.h:131-133 | in a non-empty heap slot 1 holds an element that no element exceeds |
| HeapSpec.HeapOfPrefix | assignment-5/heap.h:51-65 | the heap invariant depends only on slots 1..n |
| HeapSpec.SubtreeAtLeast | assignment-5/heap.h:24-26 | every slot under p is at least p |
| HeapSpec.SubtreeOfRoot | assignment-5/heap.h:24-26 | every slot lies under slot 1 |
| HeapSpec.SubtreeSplit | assignment-5/heap.h:24-26 | the slots under p are p and those under its two children |
| HeapSpec.IsHeapAtMeans | assignment-5/heap.h:51-65 | is_heap(p) holds exactly when every parent-child pair under p is ordered |
| HeapSpec.IsHeapAtRoot | assignment-5/heap.h:51-65 | is_heap(1) decides the max-heap invariant |
| Heaps.Grown | assignment-5/heap.h:79-80 | expand always grows the capacity, to at least 8 |
| Heaps.BorrowedCapacity | assignment-5/heap.h:139-143 | the corrected capacity of a borrowed buffer is one below the vector's, and 0 for an empty one |
| Heaps.BorrowedCapacityAgrees | assignment-5/heap.h:140 | for a vector with a buffer, the capacity the source stores in the class's size_t (uint32_t, heap.h:12) equals the corrected one |
| Heaps.CapacityNarrowedFromSixtyFourBits | assignment-5/heap.h:140 | vec.capacity() - 1, computed in a 64-bit size type and narrowed to the class's uint32_t size_t, is the value the model stores; for an empty vector the 64-bit difference is SIZE_MAX |
| Heaps.EmptyVectorCapacityWraps | assignment-5/heap.h:140 | for a vector without a buffer the source records capacity 4294967295, so insert does not try to grow, while the corrected capacity is 0 |
| Heaps.Heapify | assignment-5/heap.h:28-49 | the loop leaves the buffer as the pure sift-down says |
| Heaps.IncreaseKey | assignment-5/heap.h:89-96 | the loop leaves the buffer as the pure sift-up says |
| Heaps.BuildHeap | assignment-5/heap.h:67-71 | build_heap makes the first n slots a heap of the same elements and leaves the rest alone |
| Heaps.CopySlots | assignment-5/heap.h:83 | expand's copy puts the heap's slots into the new buffer |
| Heaps.Reverse | assignment-5/heap.h:185 | std::reverse leaves each position holding its mirror's old value |
| Heaps.Heap.constructor | assignment-5/heap.h:135-137 | an empty heap owning a fresh buffer of the requested capacity |
| Heaps.Heap.FromVector | assignment-5/heap.h:139-143 | the heap borrows the vector's buffer, holds its elements and arranges them into a heap in place; its capacity is the corrected one (see Findings heap.h:140), 0 rather than 4294967295 for an empty vector |
| Heaps.Heap.Expand | assignment-5/heap.h:73-87 | fails exactly on a borrowed buffer; otherwise a fresh larger buffer holds the same slots |
| Heaps.Heap.Insert | assignment-5/heap.h:108-113 | fails, changing nothing, exactly when a full heap borrows its buffer; otherwise the heap holds one more value and stays a heap |
| Heaps.Heap.ExtractMax | assignment-5/heap.h:115-127 | fails on an empty heap; otherwise returns an element no other exceeds, and the heap holds the others and stays a heap |
| Heaps.Heap.Top | assignment-5/heap.h:131-133 | top and getMax return an element no element of the heap exceeds |
| Heaps.Inserted | assignment-5/heap.h:108-113 | sifting a value up from the new last slot leaves a heap holding one more value |
| Heaps.InsertedElements | assignment-5/heap.h:112 | the heap's elements after insert are the old ones plus the value |
| Heaps.LastSlotIsHole | assignment-5/heap.h:112 | a new last slot is a hole that any value may fill |
| Heaps.ExtractRoot | assignment-5/heap.h:120-122 | takes out an element no other of the first n exceeds and leaves the first n - 1 slots a heap of the rest, the slots from n - 1 on unchanged |
| Heaps.Extracted | assignment-5/heap.h:120-123 | moving the last element to the root and sifting it down leaves a heap of the other elements, and the last slot keeps the moved value |
| Heaps.ExtractedElements | assignment-5/heap.h:120-123 | the elements that remain are the old ones without the root |
| Heaps.HeapShrinks | assignment-5/heap.h:123 | dropping the last slot of a heap leaves a heap |
| Heaps.HeapSort | assignment-5/heap.h:180-186 | heapsort leaves the vector a permutation of its input in non-increasing order |
| Heaps.FillAscending | assignment-5/heap.h:181-184 | the loop leaves the vector a permutation of its input in non-decreasing order |
| Heaps.SortStep | assignment-5/heap.h:182-184 | one round puts the maximum into the freed slot, keeping the elements and extending the sorted tail |
| Heaps.StepPermutes | assignment-5/heap.h:183 | putting the extracted maximum into the freed slot keeps the vector's elements |
| Heaps.StepAscends | assignment-5/heap.h:183 | putting the extracted maximum into the freed slot extends the sorted tail |
| Heaps.AscendingToFront | assignment-5/heap.h:182 | the element left at the front is no larger than the sorted tail |
| Heaps.ReversedPermutes | assignment-5/heap.h:185 | reversing keeps the elements |
| Heaps.ReversedDescends | assignment-5/heap.h:185 | reversing a non-decreasing sequence makes it non-increasing |
| SortSpec.PermutedRefl | assignment-7/sort.h:116-131 | an untouched range is a rearrangement of itself |
| SortSpec.PermutedTrans | assignment-7/sort.h:116-131 | rearrangements of the same range compose |
| SortSpec.PermutedWiden | assignment-7/sort.h:129-130 | a rearrangement of a sub-range is a rearrangement of any range around it |
| SortSpec.SwapPermuted | assignment-7/sort.h:82-85 | swapping two slots of a range rearranges it |
| SortSpec.PermutedKeepsBounds | assignment-7/sort.h:129-130 | rearranging a range keeps any bound on its values |
| SortSpec.SortedJoin | assignment-7/sort.h:116-131 | two sorted ranges, the first no larger than a value and the second no smaller, form one sorted range |
| SortSpec.InsertionPoint | assignment-7/sort.h:27-31 | the shifting loop stops just after the last element no larger than v, with only larger elements behind it |
| SortSpec.Insert | assignment-7/sort.h:26-32 | inserting v makes the run one longer |
| SortSpec.AboveInsertionPoint | assignment-7/sort.h:28 | every element past the insertion point exceeds v |
| SortSpec.InsertElements | assignment-7/sort.h:26-32 | inserting v adds exactly v to the elements |
| SortSpec.InsertSorted | assignment-7/sort.h:26-32 | inserting into a sorted run keeps it sorted |
| SortSpec.Merge | assignment-7/sort.h:45-57 | a merge is as long as the two runs together |
| SortSpec.MergeElements | assignment-7/sort.h:45-57 | a merge holds exactly the elements of the two runs |
| SortSpec.MergeHead | assignment-7/sort.h:45-51 | the head of a merge is the head of one of the runs |
| SortSpec.MergeSorted | assignment-7/sort.h:45-57 | merging two sorted runs gives a sorted run |
| SortSpec.HeadThenSorted | assignment-7/sort.h:45-51 | a value no larger than either run's head may go in front of their sorted merge |
| SortSpec.SortedUnique | assignment-7/tests.cpp:43-60 | a sorted arrangement of a multiset is unique, so every sort of the same input gives the same output |
| SortSpec.TailElements | assignment-7/sort.h:45-57 | two arrangements of the same elements with the same head have the same tails' elements |
| SortSpec.SortedHeadIsMin | assignment-7/sort.h:45-57 | the head of a sorted run is its minimum |
| Sorting.Swap | assignment-7/sort.h:82 | std::swap exchanges exactly the two slots |
| Sorting.InsertionSort | assignment-7/sort.h:24-34 | insertion_sort leaves the range sorted and a rearrangement of what it held, the rest untouched |
| Sorting.ShiftInto | assignment-7/sort.h:26-32 | one round inserts A[i] into the sorted run before it and touches nothing else |
| Sorting.ShiftUp | assignment-7/sort.h:27-31 | the shifting moves every element greater than v one slot up and stops where the slot before holds at most v |
| Sorting.StopsAtInsertionPoint | assignment-7/sort.h:28 | where the shifting loop stops is the insertion point |
| Sorting.InsertedAt | assignment-7/sort.h:26-32 | a run that agrees slot by slot with the insertion is the insertion |
| Sorting.InsertionSortAll | assignment-7/sort.h:36 | the whole array ends sorted and holds the same elements |
| Sorting.MergeRuns | assignment-7/sort.h:38-58 | merge writes the merge of the two runs from slot l on and leaves every other slot alone |
| Sorting.MergeBack | assignment-7/sort.h:45-57 | the three merging loops write the merge, taking the second run's head on a tie |
| Sorting.Drain | assignment-7/sort.h:52-57 | the last two loops copy whichever run is left as it is |
| Sorting.Put | assignment-7/sort.h:47-56 | one slot of the output is written and nothing else |
| Sorting.MergeFromRuns | assignment-7/sort.h:45-57 | the merge taken by indices into the scratch buffer is the merge of its two runs |
| Sorting.TakeFirst | assignment-7/sort.h:46-47 | the first run's head goes next when it is strictly smaller or the second run is used up, keeping the loop's state |
| Sorting.TakeSecond | assignment-7/sort.h:48-49 | otherwise the second run's head goes next, keeping the loop's state |
| Sorting.MergingDone | assignment-7/sort.h:45-57 | when both runs are used up the output holds the whole merge and nothing else changed |
| Sorting.CopyRuns | assignment-7/sort.h:39-44 | both runs are copied to the same slots of the scratch buffer |
| Sorting.MergeSortRange | assignment-7/sort.h:60-67 | merge_sort_impl leaves the range sorted and a rearrangement of what it held |
| Sorting.MergeSort | assignment-7/sort.h:69-75 | merge_sort leaves the array sorted with the same elements |
| Sorting.LomutoPartition | assignment-7/sort.h:77-87 | the partition rearranges the range around the last slot's value, which ends at the returned slot with no larger value before it and only larger values after it |
| Sorting.Gather | assignment-7/sort.h:81-83 | one round of the Lomuto loop adds slot i to the front part when it is no larger than the pivot |
| Sorting.GatherStep | assignment-7/sort.h:81-83 | swapping a value no larger than the pivot into the front keeps the loop's state |
| Sorting.GatherSkip | assignment-7/sort.h:80-84 | skipping a larger value keeps the loop's state |
| Sorting.PivotPlaced | assignment-7/sort.h:85-86 | the final swap puts the pivot between the two parts |
| Sorting.HoarePartition | assignment-7/sort.h:89-102 | the partition rearranges the range around the middle slot's value, with nothing before the returned slot above it and nothing from it on below it, the returned slot past the front for two or more slots |
| Sorting.ScanFront | assignment-7/sort.h:93-94 | the front scan moves over values below the pivot, keeping the loop's state |
| Sorting.ScanBack | assignment-7/sort.h:95-96 | the back scan moves over values above the pivot, keeping the loop's state |
| Sorting.ScanSwap | assignment-7/sort.h:97-98 | swapping a misplaced pair keeps the loop's state |
| Sorting.ScansCrossed | assignment-7/sort.h:99-100 | when the scans cross the front scan's position splits the range |
| Sorting.LomutoAfterSwap | assignment-7/sort.h:104-107 | a swap before a Lomuto partition still leaves a rearrangement of the array as it was |
| Sorting.HoareAfterSwap | assignment-7/sort.h:109-112 | a swap before a Hoare partition still leaves a rearrangement of the array as it was |
| Sorting.LomutoPartitionRandom | assignment-7/sort.h:104-107 | the drawn slot's value becomes the pivot of a Lomuto partition |
| Sorting.HoarePartitionRandomAsWritten | assignment-7/sort.h:109-112 | as written, the drawn value is swapped into the middle but the Lomuto partition runs, so the pivot is whatever then sits in the last slot |
| Sorting.HoareRandomRepeatsAsWritten | assignment-7/sort.h:109-131 | on [1, 2] with an even draw the partition as written returns the front slot and changes nothing, so the Hoare recursion sorts the same range again |
| Sorting.LowestPivotComesFirst | assignment-7/sort.h:77-87 | a Lomuto partition of [1, 2] around 1 returns slot 0 and changes nothing |
| Sorting.HoarePartitionRandom | assignment-7/sort.h:109-112 | corrected: the drawn value becomes the pivot of a Hoare partition |
| Sorting.PartitionBy | assignment-7/sort.h:119-128 | each scheme splits the range around a value, leaving the pivot out of the second part only for the Lomuto schemes, and the random schemes consume one draw; the random Hoare scheme is the corrected one (see Findings sort.h:109-112) |
| Sorting.QuickSortRange | assignment-7/sort.h:116-131 | quick_sort_impl leaves the range sorted and a rearrangement of what it held; the random Hoare scheme is the corrected one (see Findings sort.h:109-112) |
| Sorting.LomutoBounds | assignment-7/sort.h:77-87 | a Lomuto split is a split around its pivot with the pivot in place |
| Sorting.QuickSort | assignment-7/sort.h:133-135 | quick_sort leaves the array sorted with the same elements; the random Hoare scheme is the corrected one (see Findings sort.h:109-112) |
| Sorting.QuickSortRandom | assignment-7/sort.h:137 | quick_sort_random leaves the array sorted with the same elements |
| Sorting.WholeRange | assignment-7/sort.h:36 | a rearrangement of the whole array keeps its elements |
| Sorting.InsertionRound | assignment-7/sort.h:25-33 | one round of insertion sort keeps the range a rearrangement and extends the sorted prefix by one slot |
| Sorting.InsertedPrefix | assignment-7/sort.h:25-33 | after one round the prefix up to i is sorted and rearranged |
| Sorting.MergedHalves | assignment-7/sort.h:60-67 | sorting both halves and merging them leaves the range sorted and rearranged |
| Sorting.MergedPermuted | assignment-7/sort.h:66 | writing the merge of the halves back rearranges the range |
| Sorting.RangeIsSorted | assignment-7/sort.h:60-67 | a sorted range, taken out, is a sorted run |
| Sorting.SortedIsRange | assignment-7/sort.h:60-67 | a sorted run, put back, is a sorted range |
| Sorting.SortedAroundSplit | assignment-7/sort.h:116-131 | after the partition and the two recursive sorts the range is sorted and rearranged |
| Sorting.SplitStaysSorted | assignment-7/sort.h:129-130 | sorting both parts of a split leaves the range sorted |
| Lcs.SubsequenceShorter | assignment-9/1.cpp:24-38 | a subsequence is no longer than the string it comes from |
| Lcs.DropLast | assignment-9/1.cpp:24-38 | dropping the last character of a subsequence leaves a subsequence |
| Lcs.LastDiffers | assignment-9/1.cpp:30-33 | a subsequence whose last character is not the string's last is a subsequence of the string without it |
| Lcs.LastAgrees | assignment-9/1.cpp:27-29 | when the last characters agree, the rest of the subsequence is a subsequence of the rest of the string |
| Lcs.Table | assignment-9/1.cpp:11-22 | a table cell never exceeds the length of either prefix it covers |
| Lcs.FillTable | assignment-9/1.cpp:11-22 | the loops fill every cell of the (n+1) by (m+1) table with its recurrence value |
| Lcs.TraceLcs | assignment-9/1.cpp:25-36 | the recursive traceback appends exactly the characters the pure traceback lists |
| Lcs.FindLcs | assignment-9/1.cpp:7-39 | find_lcs returns a subsequence of x as long as the last table cell, empty when either string is; as intended, a longest common subsequence of x and y |
| Lcs.TracedLength | assignment-9/1.cpp:26-35 | some branch of the traceback always applies, so it appends as many characters as the cell it starts from holds |
| Lcs.TracedInX | assignment-9/1.cpp:27-29 | characters are appended in the order of x, so the result is a subsequence of x |
| Lcs.TracedInY | assignment-9/1.cpp:19-29 | as intended, each diagonal step is over a matching pair, so the result is a subsequence of y too |
| Lcs.TableIsOptimal | assignment-9/1.cpp:17-22 | as intended, no common subsequence of two prefixes is longer than their table cell |
| Lcs.AsWrittenMissesMatch | assignment-9/1.cpp:19-20 | as written, comparing x[i] with y[i] gives 0 for "ab" and "ca" although "a" is common to both; the intended table gives 1 |
| Lcs.AsWrittenLeavesY | assignment-9/1.cpp:27-29 | as written, the traceback for "ba" and "b" returns "a", which is not a subsequence of "b" |
| TravelCost.MinCost | assignment-9/2.cpp:25 | std::min returns one of its arguments and neither is smaller |
| TravelCost.Pow2 | assignment-9/2.cpp:10 | a shifted one is positive |
| TravelCost.NoBits | assignment-9/2.cpp:17 | the empty mask has no city |
| TravelCost.AddBit | assignment-9/2.cpp:25 | setting a clear bit adds that city and changes no other |
| TravelCost.RemoveBit | assignment-9/2.cpp:17-25 | clearing a set bit removes that city and changes no other |
| TravelCost.AddBound | assignment-9/2.cpp:25 | a mask below 2^n stays below it when a city below n is added |
| TravelCost.Full | assignment-9/2.cpp:32 | the last mask lies in the table and holds every city |
| TravelCost.FullBits | assignment-9/2.cpp:32 | 2^n - 1 has every bit below n set |
| TravelCost.SameBits | assignment-9/2.cpp:17-30 | two masks below 2^n with the same cities are equal |
| TravelCost.SomeBit | assignment-9/2.cpp:17-19 | every non-empty mask below 2^n holds some city |
| TravelCost.MaskBits | assignment-9/2.cpp:17-30 | the mask of an order of distinct cities lies below 2^n and holds exactly those cities |
| TravelCost.RowSumAdd | assignment-9/2.cpp:22-24 | adding a city to the mask adds its cost term to the sum |
| TravelCost.EarlierIsRowSum | assignment-9/2.cpp:22-24 | the cost towards the cities visited before equals the sum over the mask's bits |
| TravelCost.ZeroRowSum | assignment-9/2.cpp:22-24 | the sum over the empty mask is 0 |
| TravelCost.MinOverAtMost | assignment-9/2.cpp:18-25 | the running minimum is no larger than any candidate it has seen |
| TravelCost.MinOverAttained | assignment-9/2.cpp:18-25 | a finite running minimum is one of the candidates |
| TravelCost.OptFinite | assignment-9/2.cpp:13-30 | every mask can be visited ending at any of its cities |
| TravelCost.OptLowerBound | assignment-9/2.cpp:13-30 | no order visiting a set of cities costs less than the table entry for its mask and last city |
| TravelCost.OptAchieved | assignment-9/2.cpp:13-30 | some order of the cities of a mask, ending at the given city, costs exactly the table entry |
| TravelCost.MinEndIsMin | assignment-9/2.cpp:32 | std::min_element returns an entry of the row that no entry undercuts |
| TravelCost.CheapestTour | assignment-9/2.cpp:9-33 | the cheapest entry of the full row is no more than any tour's cost and is some tour's cost |
| TravelCost.ExpectedAtStart | assignment-9/2.cpp:13-15 | after the fill and the singletons, only the single-city masks hold their own cost |
| TravelCost.ExpectedFinal | assignment-9/2.cpp:17-30 | an entry of a mask is final by the time that mask is reached |
| TravelCost.ExpectedRelax | assignment-9/2.cpp:25 | one relaxation changes only the entry it targets |
| TravelCost.RelaxValue | assignment-9/2.cpp:25 | the relaxed value is the running minimum with the next candidate |
| TravelCost.ExpectedSkip | assignment-9/2.cpp:19 | a city outside the mask adds no candidate |
| TravelCost.ExpectedNextMask | assignment-9/2.cpp:17-18 | after the last city of a mask its successors are up to date |
| TravelCost.StepCost | assignment-9/2.cpp:22-24 | the innermost loop computes the city's own cost plus its costs towards the visited cities |
| TravelCost.RelaxFrom | assignment-9/2.cpp:20-27 | the loop over the unvisited cities relaxes every successor of the mask |
| TravelCost.StartTable | assignment-9/2.cpp:11-15 | the table starts with every entry unreached except each single city's own cost |
| TravelCost.FillMasks | assignment-9/2.cpp:17-30 | the loops over masks and cities fill every entry with its cheapest order |
| TravelCost.FindMinTravelCost | assignment-9/2.cpp:9-33 | the result is no more than the cost of any order visiting every city once, and is the cost of some such order |
| ConsoleArgs.Emplace | assignment-6/utils.cpp:9-14 | emplace adds the key with the value when it is absent, keeps the value it has otherwise, and touches no other key |
| ConsoleArgs.KeyStrips | assignment-6/utils.cpp:9 | the key is the flag with one leading dash removed, or two when the second character is also a dash |
| ConsoleArgs.FollowingValue | assignment-6/utils.cpp:8-15 | a flag's value is the next argument when there is one |
| ConsoleArgs.OptionValue | assignment-9/test_generator.cpp:17-25 | a flag's value is the next argument when that exists and is not a flag, "true" otherwise |
| ConsoleArgs.KeysStep | assignment-6/utils.cpp:7-15 | a flag adds its key to the keys parsed so far |
| ConsoleArgs.ValuesStep | assignment-6/utils.cpp:7-15 | a flag gives its key a value only when no earlier flag named that key |
| ConsoleArgs.ParsedStep | assignment-6/utils.cpp:7-15 | a flag keeps the parsed map exact: one entry per key seen, with its first flag's value |
| ConsoleArgs.KeysSkip | assignment-6/utils.cpp:7 | an argument that is not a flag adds no key |
| ConsoleArgs.ValuesSkip | assignment-6/utils.cpp:7 | an argument that is not a flag changes no value |
| ConsoleArgs.ParsedSkip | assignment-6/utils.cpp:7 | an argument that is not a flag keeps the parsed map exact |
| ConsoleArgs.ParseConsoleArgs | assignment-6/utils.cpp:3-19 | the keys are exactly those the flags name, and each has the argument after its first flag, or "true" after the last argument |
| ConsoleArgs.ParseGeneratorArgs | assignment-9/test_generator.cpp:12-29 | the keys are exactly those the flags name, and each has the argument after its first flag unless that is a flag too, "true" otherwise |
| ConsoleArgs.FlagAfterFlag | assignment-6/utils.cpp:9-12 | for "prog -i --o x" assignment 6 maps i to "--o" where assignment 9 maps it to "true"; both map o to "x" |
| SnakeBoard.JumpTable | assignment-6/main.cpp:24-38 | the table has a slot for every square 0..n_board and every slot names a square of the board or 0 |
| SnakeBoard.NoPairNoJump | assignment-6/main.cpp:24-38 | a square no ladder or snake starts from has no jump |
| SnakeBoard.LastPairWins | assignment-6/main.cpp:27-38 | when several ladders or snakes start from one square, the last one read decides where it leads |
| SnakeBoard.TableStep | assignment-6/main.cpp:30 | writing one more pair onto the table gives the table of the pairs read so far |
| SnakeBoard.BuildJumps | assignment-6/main.cpp:24-38 | the two reading loops leave exactly the table of the ladders followed by the snakes |
| SnakeBoard.Follow | assignment-6/main.cpp:69-76 | following jumps from k visits squares of the board, each the jump of the one before |
| SnakeBoard.ChainOf | assignment-6/main.cpp:69-76 | on a board without jump cycles the chain from k follows the jumps and ends on a square without a jump |
| SnakeBoard.FollowSettles | assignment-6/main.cpp:69 | once a chain has reached a square without a jump, more steps add nothing |
| SnakeBoard.ChainStep | assignment-6/main.cpp:69-76 | a square with a jump heads the chain of the square it leads to |
| SnakeBoard.ChainSuffix | assignment-6/main.cpp:69-76 | the chain from any square of a chain is the rest of that chain |
| SnakeBoard.NoSelfJump | assignment-6/main.cpp:69-76 | on a board without jump cycles no square jumps to itself |
| SnakeBoard.FinalSnoc | assignment-6/main.cpp:60-76 | one more roll moves on from where a play ended |
| SnakeBoard.TrailSnoc | assignment-6/main.cpp:60-76 | one more roll passes every square that roll passes from where the play ended |
| SnakeBoard.FinalStands | assignment-6/main.cpp:66-76 | a play stands on a board square: its first square or one without a jump |
| SnakeSearch.ImproveLowers | assignment-6/main.cpp:62-64 | improving a square reaches it for the first time or lowers the sum of the counts, so the search ends |
| SnakeSearch.Improve | assignment-6/main.cpp:62-67 | recording a better count with its previous square, and queueing a square to stand on, keeps the search's invariant, leaving only that square's chain open |
| SnakeSearch.Settle | assignment-6/main.cpp:69-76 | once the open chains are followed through, the invariant holds with none open |
| SnakeSearch.Pop | assignment-6/main.cpp:57-58 | the front state names a reached square within its count, and the invariant holds with that square's die moves pending |
| SnakeSearch.Unskip | assignment-6/main.cpp:60-79 | once every die move from the popped square is tried, the invariant holds with nothing pending |
| SnakeSearch.ChainPlayAt | assignment-6/main.cpp:69-76 | the play reaching a chain passes each of its squares and ends on the one without a jump |
| SnakeSearch.SoundImprove | assignment-6/main.cpp:62-73 | recording a square along with a play that passes it keeps every reached square witnessed by a play within its count |
| SnakeSearch.SoundPop | assignment-6/main.cpp:57-58 | popping keeps the witnesses, and the popped square is one a player can stand on |
| SnakeSearch.ChangesTrans | assignment-6/main.cpp:60-79 | squares improved to the same roll count compose across steps |
| SnakeSearch.NoFurtherTrans | assignment-6/main.cpp:56-80 | the termination measure does not grow across consecutive steps |
| SnakeSearch.FollowStart | assignment-6/main.cpp:66-69 | the chain walk starts on the landed square with nothing else changed |
| SnakeSearch.FollowSkip | assignment-6/main.cpp:70-75 | a jump to a square already reached within the same count changes nothing and moves on along the chain |
| SnakeSearch.FollowImprove | assignment-6/main.cpp:70-75 | a jump that improves its destination records it with the square jumped from and keeps the walk's invariant |
| SnakeSearch.FollowEnd | assignment-6/main.cpp:69-76 | at the end of the chain every improved square's own chain is closed |
| SnakeSearch.ChainEnd | assignment-6/main.cpp:69 | a jump to a square without a jump is the last of the chain |
| Snakes.ProgressTrans | assignment-6/main.cpp:60-79 | progress of the search composes across consecutive steps |
| Snakes.LandStill | assignment-6/main.cpp:66-67 | landing on a square without a jump and queueing it restores the search's invariant |
| Snakes.ChaseImprove | assignment-6/main.cpp:70-75 | an improving jump of the corrected loop records its destination and queues it only when it has no jump of its own |
| Snakes.ChaseSkip | assignment-6/main.cpp:70-75 | a jump to a square already reached within the count leaves the loop's state as it was |
| Snakes.FollowChain | assignment-6/main.cpp:69-76 | the corrected chain loop restores the search's invariant, queues only squares a player can stand on, and does not grow the termination measure |
| Snakes.Chase | assignment-6/main.cpp:69-76 | the corrected loop walks the chain from its first square to the one without a jump |
| Snakes.ChaseOne | assignment-6/main.cpp:70-75 | one jump of the corrected loop keeps the loop's invariant |
| Snakes.ChaseImproveAsWritten | assignment-6/main.cpp:70-75 | an improving jump of the loop as written records and queues its destination even when it has a jump of its own |
| Snakes.ChaseSkipAsWritten | assignment-6/main.cpp:70-75 | the loop as written skips a jump to a square already reached within the count |
| Snakes.FollowChainAsWritten | assignment-6/main.cpp:69-76 | the loop as written improves the whole chain within the rolls and queues every square it changes other than the landed one, snake heads included |
| Snakes.ChaseAsWritten | assignment-6/main.cpp:69-76 | the loop as written walks the chain to the square without a jump |
| Snakes.ChaseOneAsWritten | assignment-6/main.cpp:70-75 | one jump of the loop as written keeps that loop's invariant |
| Snakes.RollWitness | assignment-6/main.cpp:60-76 | a play followed by a roll on the board passes the whole chain from the square landed on and ends on its last square |
| Snakes.SnocStart | assignment-6/main.cpp:61-67 | a play followed by a roll passes the square landed on, and ends there when it has no jump |
| Snakes.SnocFinal | assignment-6/main.cpp:69-76 | a play followed by a roll ends on the last square of the chain from where it lands |
| Snakes.DiceSnoc | assignment-6/main.cpp:60 | a die value 1..n_dice extends a play of die values |
| Snakes.SnocVisits | assignment-6/main.cpp:69-76 | a play followed by a roll passes every square of the chain from where it lands |
| Snakes.WitnessOf | assignment-6/main.cpp:57-58 | a queued square is where a play within its count ends |
| Snakes.RollPlay | assignment-6/main.cpp:61-64 | an improving roll from a popped state is backed by a play within the new count that passes the chain from the square landed on |
| Snakes.RollSearch | assignment-6/main.cpp:62-67 | recording the roll keeps the search's invariant with the landed square's chain open |
| Snakes.RollSound | assignment-6/main.cpp:62-67 | recording the roll with its play keeps every reached square witnessed |
| Snakes.RollLanded | assignment-6/main.cpp:62-67 | after recording the roll the search stands just after landing, with the play reaching the square |
| Snakes.RollProgress | assignment-6/main.cpp:62-67 | recording an improvement and queueing at most one state does not grow the termination measure |
| Snakes.Land | assignment-6/main.cpp:62-77 | an improving roll records the square with its new count and restores the search's invariant; the chain loop is the corrected one (see Findings main.cpp:73) |
| Snakes.Roll | assignment-6/main.cpp:61-78 | after one die value the square it reaches on the board is reached within one more roll, and the invariant holds; the chain loop is the corrected one (see Findings main.cpp:73) |
| Snakes.Expand | assignment-6/main.cpp:57-79 | popping a state and trying every die value keeps the invariant with nothing pending; the chain loop is the corrected one (see Findings main.cpp:73) |
| Snakes.Search | assignment-6/main.cpp:50-80 | when the search ends every square any play passes is reached within that play's rolls, and every reached square is witnessed by a play; the chain loop is the corrected one (see Findings main.cpp:73) |
| Snakes.Finished | assignment-6/main.cpp:56 | an empty queue means every standing square has been expanded and every chain followed |
| Snakes.SearchComplete | assignment-6/main.cpp:56-80 | after the search every square a play passes is reached within the play's rolls |
| Snakes.TrailStep | assignment-6/main.cpp:60-76 | a play passes its first square, the squares its first roll passes, or the squares the rest passes |
| Snakes.Landing | assignment-6/main.cpp:60-76 | a roll from a reached standing square passes only squares reached within one more roll and stops on such a square |
| Snakes.InClosedChain | assignment-6/main.cpp:69-76 | every square of a closed chain is reached with no more rolls than its head |
| Snakes.PlaysReach | assignment-6/main.cpp:56-80 | from a reached standing square every square a play passes is reached within the sum of the counts |
| Snakes.BackIsRoute | assignment-6/main.cpp:85-91 | following previous squares back gives a route from square 1 of die moves and jumps with no more die rolls than the count |
| Snakes.BackStep | assignment-6/main.cpp:88-90 | the previous square has fewer rolls, or as many and a longer chain, so following it back ends |
| Snakes.ShortestPath | assignment-6/main.cpp:85-91 | the stack holds a route from square 1 to the target with no more die rolls than the target's count |
| Snakes.PoppedStep | assignment-6/main.cpp:93-99 | each pop prints the square and an arrow while squares remain |
| Snakes.PrintPath | assignment-6/main.cpp:93-100 | the printed line is the path joined by arrows |
| Snakes.SpacedSnoc | assignment-6/main.cpp:113 | printing one more square appends it and a space |
| Snakes.InfSquaresStep | assignment-6/main.cpp:108-115 | the scan adds a square exactly when it is still at inf |
| Snakes.InfSquaresExact | assignment-6/main.cpp:108-115 | the unreached list holds exactly the squares at inf, in increasing order |
| Snakes.Unreached | assignment-6/main.cpp:107-121 | the scan lists exactly the squares 1..n_board at inf, in increasing order, and prints them or "All reachable" |
| Snakes.Exact | assignment-6/main.cpp:56-80 | a reached square's count is the fewest rolls of any play passing it; a square stays at inf exactly when no play passes it |
| Snakes.Reachability | assignment-6/main.cpp:107-121 | a square is listed as unreachable exactly when no play passes it, and every other square has a route from the start |
| Snakes.AnswerRolls | assignment-6/main.cpp:82-105 | the answer is the fewest rolls of any play reaching the last square, and no solution exactly when none does |
| Snakes.AnswerSquares | assignment-6/main.cpp:107-121 | the listed squares are exactly those of the board that no play passes |
| Snakes.Solve | assignment-6/main.cpp:20-124 | one test case prints the fewest rolls with a route to the last square, or no solution exactly when the last square is listed unreachable, then exactly the unreachable squares in increasing order; the chain loop is the corrected one (see Findings main.cpp:73) |
| SnakeExample.BoardTable | assignment-6/main.cpp:24-38 | ladder 2→5 and snake 5→3 on six squares give the table with jumps at 2 and 5 |
| SnakeExample.BoardFollow | assignment-6/main.cpp:69-76 | on that board 2 leads to 5 and on to 3, 5 to 3, and every other square stays put |
| SnakeExample.BoardOk | assignment-6/main.cpp:69-76 | that board has no jump cycles |
| SnakeExample.BoardChains | assignment-6/main.cpp:69-76 | the chains from 2, 4 and 5 on that board |
| SnakeExample.NeverLeaves | assignment-6/main.cpp:60-76 | a play starting among squares it cannot leave never passes the square they avoid |
| SnakeExample.BoardTrap | assignment-6/main.cpp:60-76 | with a die showing only 1, squares 1, 3 and 4 cannot be left and avoid square 6 |
| SnakeExample.SixUnreachable | assignment-6/main.cpp:60-76 | no play with that die passes square 6 |
| SnakeExample.NoPlayStandsOnFive | assignment-6/main.cpp:66-76 | no play stands on square 5, the snake's head |
| SnakeExample.SnakeHeadQueued | assignment-6/main.cpp:69-76 | the loop as written queues square 5 after one roll, though it has a snake |
| SnakeExample.CorrectedNoSolution | assignment-6/main.cpp:82-121 | the corrected search answers no solution and lists square 6 as unreachable |
| Text.NatToStringRoundTrip | assignment-6/main.cpp:84 | the decimal digits printed for a count read back as that count |
| LinkedLists.Node.constructor | assignment-1/linkedlist.h:15-21 | a node holds the given item and successor |
| LinkedLists.LinkedList.TakeChain | assignment-1/linkedlist.h:94-96 | this list takes over the other's nodes, items and cursor |
| LinkedLists.LinkedList.Reset | assignment-1/linkedlist.h:98-99 | the list is empty around a lone sentinel, cursor 0 |
| ArrayStacks.StackOf | assignment-2/arraystack.h:193-229 | the stack a buffer holds has one element per occupied slot |
| ArrayStacks.DrainStep | assignment-2/arraystack.h:262-264 | one round of the draining loop moves the top onto the temporary and keeps the stack plus the reversed temporary equal to the original |
| ArrayStacks.RefillStep | assignment-2/arraystack.h:266-273 | one round of the refilling loop prints the next element, bottom first, with a separator unless it is the last, and pushes it back |
| StackSpec.MovedTop | assignment-2/arraystack.h:262-264 | moving the top onto the temporary keeps the stack plus the reversed temporary |
| StackSpec.PrintingStep | assignment-2/arraystack.h:266-273 | printing one more element appends it and, unless it was the last, the separator |
| StackSpec.PrintingDone | assignment-2/arraystack.h:265-274 | once every element is printed the text is all of them joined by the separator |

## Left out

- Console and file I/O: `configure_io`, the `console_helper` dispatchers, the `console_test.cpp` request loops, `assignment-4/main.cpp`, and the `cin`/`cout` plumbing of `dishwasher.cpp`, `tnl.cpp` and `assignment-6/main.cpp`. What those programs read becomes parameters, and what they print becomes returned strings.
- BankSimulation.Bank.Process: what `bank.cpp` reads from `cin` becomes the `arrivals` parameter, and its printed text is not modelled. The "qs" line that `switchQueues` prints on every queue switch (bank.cpp:57, bank.cpp:61) is dropped, as is the `printState` debug line, and of the two "Booth N finishes service at t=" lines (bank.cpp:137-140) only the two finishing times are returned, by `Process` and `RunBank`.
- Randomness and timing: `generator.cpp`, `generate1`/`generate2`, `std::rand` in `sort.h` (the drawn index is a parameter), and the benchmarks in `assignment-7/main.cpp`.
- `assignment-6/checker.cpp` is not part of this model, because it is library stream parsing of test output.
- `assignment-2/stack.h` and `assignment-3/queue.h` interfaces: only their rendering and `to_string` are modelled. The abstract base classes add no behaviour.
- `Heap::print`: it lays the tree out with floating-point `log2`/`floor`.
- `Heap::update_key`: it is not among the heap operations this model covers.
- Memory mechanics: allocation, `delete`, destructors, leaks (for example, `arraylist` copy assignment never frees its old buffer), and the missing `return` in `arraylist`'s move assignment. Buffers are fresh Dafny arrays, and ownership of a borrowed buffer is a `bool` field.
- C++ type machinery: concepts, move-only element types, and the `std::function` callbacks of `BSTree::foreach`. Traversals are functions that return the visited sequence.
- Dishwasher.DishwasherSimulator: the ARRAY2STACK mode, where both stacks borrow one buffer from its two ends, is not modelled as aliasing. The lemmas `SharedBufferDisjoint` and `SharedBufferSuffices` state that the two regions never overlap and that n·x slots are enough. The simulator itself runs on two owning stacks.
- ListFormat.EqualLinked: on two equal non-empty lists the source's `for(;;)` never ends. The model reports this as an `Endless` outcome, meaning the loop has reached a state its body leaves unchanged, and it does not unroll the loop forever.
- Heaps.Heap.Top: requires a non-empty heap, while `top()` in the source reads slot 1 unchecked.
- ArrayStacks.FitAndAllocate: requires a positive capacity or a zero length. From capacity 0 the source's doubling loop never ends (see `FitLoopStaysAtZero`).
- ArrayStacks.ArrayStack.AssignAsWritten: excludes, for the same reason, an owning stack of capacity 0 assigned a non-empty stack.
- ArrayQueues.ArrayQueue.AssignAsWritten: excludes, for the same reason, an owning queue of capacity 0, such as a moved-from one, assigned a non-empty queue; there the source's fit_and_allocate (arrayqueue.h:172-174) never returns.
- ArrayQueues.ArrayQueue.FromSeq: requires a positive capacity or no items. From capacity 0 the source's doubling loop (arrayqueue.h:35-40, 172-174) never ends for a non-empty initialiser list.
- Lcs.FindLcs: the as-written table (`Readable`) is only defined for |x| ≤ |y| + 1 when y is non-empty. Beyond that the source reads `y[i]` past the terminating NUL of y (1.cpp:19), which is undefined behaviour; the corrected table has no such limit.
- Snakes.Solve: requires that no chain of ladders and snakes loops back on itself. On such a board the source's chain loop never ends. The source's generator only produces boards without such loops.
- Snakes.Solve: counts are unbounded integers. The source's `inf` is `INT_MAX`, and no count on a board of `int` size comes near it.
- TravelCost.FindMinTravelCost: requires at least one city. For n = 0 the source takes `*std::min_element` of an empty row, which is undefined behaviour.
- TravelCost.FindMinTravelCost: does not model `long`/`int` overflow or `1 << n` for n ≥ 32. The source's generator keeps n ≤ 10 and entries ≤ 10000.
- ConsoleArgs.ParseConsoleArgs: arguments are strings without a terminating NUL. Reading `argv[i][1]` on a one-character flag "-" sees the NUL, which is not a dash, so the key is empty, as modelled.
- BinarySearchTrees.BSTree: the `size` field is never updated by `insert` or `remove` in the source, and the model keeps it that way.
- Integer widths of sizes and indices (`size_t`, `unsigned`): these are `nat` wherever no wrap-around can happen. The one wrap that does happen, the heap's borrowed capacity, is modelled explicitly.

## Findings

| source | as written | input that shows it | evidently intended | confidence | as-written member | corrected member |
|---|---|---|---|---|---|---|
| assignment-1/arraylist.h:155-158 | the shifting loop runs from the top down, so every slot from the cursor on gets the last element | remove at cursor 0 from <\| 0 1 2> leaves <\| 2 2> | shift the later elements left: <\| 1 2> | not executed | ListSpec.ArrayRemoveAsWrittenCounterexample | ArrayLists.ArrayList.Remove |
| assignment-1/arraylist.h:104 | expand copies the new, blank buffer into the old one, then frees the old one | expanding the full list <\| 1> before an append leaves <\| v>, v an indeterminate value, the model's blank | copy the old elements into the new buffer | not executed | ArrayLists.AsWrittenCounterexamples | ArrayLists.ArrayList.Expand |
| assignment-1/arraylist.h:53 | the copy constructor copies only the elements before the cursor | copying <\| 1 2> (cursor 0) gives <\| v v>, v an indeterminate value, the model's blank | copy all length elements | not executed | ArrayLists.CopiedAsWrittenExactOnlyOnBlanks | ArrayLists.ArrayList.Copy |
| assignment-1/arraylist.h:68-75 | copy assignment copies only the elements before the cursor, and a self-assignment replaces the buffer before reading it | assigning a list to itself loses its elements | copy the other list, self-assignment included | not executed | ArrayLists.ArrayList.AssignAsWritten | ArrayLists.ArrayList.Assign |
| assignment-1/list.h:72-80 | the comparison loop has no exit for equal lists, and two empty lists call getValue | comparing <\| 1> with <\| 1> loops forever; two empty lists throw | return true when every pair agrees | not executed | ListFormat.EqualLinked | ListFormat.EqualLinkedCorrected |
| assignment-2/arraystack.h:123-130 | copy_from writes the occupied slots from slot 0 on, whatever the direction | copying a downward stack of capacity 2 holding 5 gives a stack whose element is a slot allocated but never constructed (the model's blank) | keep the layout of the direction | not executed | ArrayStacks.CopyAsWrittenCounterexample | ArrayStacks.CopyFrom |
| assignment-2/arraystack.h:77-81 | copy assignment sets the length before throwing for a too-small borrowed buffer | assigning a 3-element stack to a borrowed stack of capacity 2 leaves length 3 over capacity 2 | throw with nothing changed | not executed | ArrayStacks.ArrayStack.AssignAsWritten | ArrayStacks.ArrayStack.Assign |
| assignment-2/arraystack.h:136-138 | fit_and_allocate doubles a capacity of 0, which stays 0 | a moved-from stack (capacity 0) assigned a non-empty stack | start from the default capacity | not executed | ArrayStacks.FitLoopStaysAtZero | ArrayStacks.FittedCorrected |
| assignment-3/arrayqueue.h:170-176 | the queue's fit_and_allocate doubles a capacity of 0, which stays 0 | a moved-from queue (capacity 0, owning) assigned a non-empty queue | start from the default capacity, as expand does | not executed | ArrayStacks.FitLoopStaysAtZero | ArrayQueues.ArrayQueue.Assign |
| assignment-3/arrayqueue.h:48-54 | copying an empty queue leaves the front index unset, since the member initialisers skip it and copy_from sets it only for a non-empty queue; it can lie outside the new buffer | an empty queue copied while the unset front holds 9, on 8 slots | start the copy at front 0 | not executed | ArrayQueues.CopyOfEmptyCounterexample | ArrayQueues.ArrayQueue.Copy |
| assignment-3/arrayqueue.h:96-112 | move assignment gives the other queue this queue's buffer but keeps the other's front index | a moved-from queue left with front 5 on 2 slots | reset the other queue's front to 0 | not executed | ArrayQueues.MoveAssignCounterexample | ArrayQueues.ArrayQueue.MoveAssign |
| assignment-5/heap.h:140 | the borrowed capacity is vec.capacity() - 1, stored in the class's size_t, which heap.h:12 makes uint32_t | an empty vector gives capacity 4294967295 (SIZE_MAX narrowed to 32 bits) | capacity 0 | not executed | Heaps.EmptyVectorCapacityWraps | Heaps.BorrowedCapacity |
| assignment-7/sort.h:109-112 | hoare_partition_random runs the Lomuto partition, whose pivot slot can be the front | [1, 2] with an even draw returns slot 0 and the Hoare recursion sorts [0, 2) again | run the Hoare partition | not executed | Sorting.HoareRandomRepeatsAsWritten | Sorting.HoarePartitionRandom |
| assignment-9/1.cpp:19-20 | the table compares x[i] with y[i] instead of y[j] | "ab" and "ca" give 0, though "a" is common | compare x[i] with y[j] | not executed | Lcs.AsWrittenMissesMatch | Lcs.FindLcs |
| assignment-9/1.cpp:27-29 | the traceback takes the diagonal whenever the cell equals the diagonal plus one | "ba" and "b" give "a", not a subsequence of "b" | take the diagonal only when the characters match | not executed | Lcs.AsWrittenLeavesY | Lcs.FindLcs |
| assignment-6/main.cpp:73 | every improved square of a jump chain is queued, also one with its own ladder or snake | one-sided die, 6 squares, ladder 2→5, snake 5→3: after the first roll square 5, a snake's head no player can stand on, is queued | queue only a chain square without a jump: square 6 cannot be reached | not executed | SnakeExample.SnakeHeadQueued | SnakeExample.CorrectedNoSolution |
| assignment-6/utils.cpp:9-12 | the value after a flag is emplaced first, so the later "true" cannot replace a following flag | "prog -i --o x" maps i to "--o" | map i to "true", as test_generator.cpp does | not executed | ConsoleArgs.FlagAfterFlag | ConsoleArgs.ParseGeneratorArgs |

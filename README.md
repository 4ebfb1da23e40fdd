# Ordered integer set on a sentinel doubly linked list

This project models a small C library of two layers.

- **A doubly linked list with a cursor** (`doubleLinkedList.c`, and its earlier draft `doubeLinkedList.c`).
  - A list owns a head sentinel and a tail sentinel, which carry no data.
  - A `current` pointer (the cursor) can rest on any node, sentinels included.
  - The operations create the list, move the cursor (head, tail, next, previous), read the value under the cursor, splice a new node after or before the cursor, unlink the cursor's node, and release the whole list.
- **An ordered set of integers** (`orderedSet.c`) built on that list.
  - Its values strictly ascend, and `size` counts them.
  - `addElement` scans for the first value not below the new one, then refuses a duplicate or splices the new value in.
  - `setIntersection` and `setUnion` build a fresh set from two operand sets.
  - `removeElement` and `setDifference` are declared in `functionDeclarations.h` but have no body anywhere. They are modelled from the behaviour the program's menu describes for them: removal reports `NUMBER_REMOVED` or `NUMBER_NOT_IN_SET`, and difference is `s1 − s2`, not `s2 − s1`.

## How the model is built

| file | module | contents |
|---|---|---|
| `double_linked_list.dfy` | `DoubleLinkedList` | `Node` and `List` classes and the list operations |
| `draft_list.dfy` | `DraftList` | the earlier draft's list block, its constructor and its teardown |
| `sorted_seq.dfy` | `SortedSeq` | value-level specification: strictly ascending sequences with insert, remove, intersection, union and difference, and their lemmas |
| `ordered_set.dfy` | `OrderedSets` | `OrderedIntSet` class and the set operations, each proved against `SortedSeq` |
| `as_written.dfy` | `AsWritten` | the defective relinking statements of the list code in their C order, and the loop of `setIntersection` rendered on element sequences, with what they actually produce |

- **Nodes and lists are heap objects.** Every operation updates them in place.
- **The `List` class keeps ghost bookkeeping:**
  - `nodes`: every node from head to tail;
  - `Contents`: the payloads strictly between the sentinels;
  - `cursor`: the index of `current` in `nodes`;
  - `Repr`: the footprint.
- **`List.Valid`** is the sentinel integrity invariant:
  - the nodes are distinct;
  - each node's `next` is its successor and each node's `prev` is its predecessor, so `n.next.prev == n` and `n.prev.next == n`;
  - head has no predecessor and tail has no successor;
  - payloads agree with `Contents`.
- **`OrderedIntSet.Valid`** adds that `Contents` strictly ascends and that `size == |Contents|`.
- **NULL and allocation failure.**
  - Every C function accepts a possibly-NULL list or set, so the operations are module-level methods over `List?` and `OrderedIntSet?`.
  - A failed `malloc` is an explicit boolean argument (`alloc`, `listOk`/`headOk`/`tailOk`).
- **Set results are built by appending at the tail.** The builder parks the result's cursor on the tail sentinel and uses `InsertBefore`. The operands are only read: the set operations have no `modifies` clause, so nothing of either operand can change.
- **Released nodes.** Releasing a node (`free`) is modelled as detaching it (both links cleared). The teardown methods return the released nodes in release order.

## Model

| member | source | states |
|---|---|---|
| DoubleLinkedList.Node.constructor | structures.h:29-33 | a node holds its payload and starts with both links NULL |
| DoubleLinkedList.Node.Linked | doubleLinkedList.c:201-205 | a newly allocated node holds its payload and already carries the given `prev` and `next` links |
| DoubleLinkedList.List.constructor | structures.h:40-44 | a new list is valid, holds no data, has its two sentinels linked to each other with no outer links, and has its cursor on the head |
| DoubleLinkedList.SentinelIndex | structures.h:40-44 | in a valid list a node is the head (tail) sentinel exactly when its index is the first (last) |
| DoubleLinkedList.CursorFacts | structures.h:40-44 | the cursor is on the head (tail) sentinel exactly when its index is the first (last), and the two sentinels differ |
| DoubleLinkedList.EmptyIffSentinelsLinked | doubleLinkedList.c:29-62 | a list holds no data exactly when the head sentinel's successor is the tail sentinel |
| DoubleLinkedList.CreateList | doubleLinkedList.c:29-62 | NULL exactly when one of the three allocations fails; otherwise a fresh valid empty list whose sentinels are linked to each other, with NULL outer links and the cursor on the head |
| DoubleLinkedList.GetData | doubleLinkedList.c:95-104 | no value exactly for a NULL list; otherwise the payload under the cursor, which for a data node is its element of `Contents` |
| DoubleLinkedList.GotoNextNode | doubleLinkedList.c:114-122 | a NULL list is left alone; otherwise the cursor becomes the old cursor's `next`, its index grows by one, and links, payloads and sentinels stay as they were |
| DoubleLinkedList.GotoPrevNode | doubleLinkedList.c:132-140 | a NULL list is left alone; otherwise the cursor becomes the old cursor's `prev`, its index drops by one, and links, payloads and sentinels stay as they were |
| DoubleLinkedList.GotoHead | doubleLinkedList.c:150-158 | the cursor is on the head sentinel; nodes, payloads and sentinels are unchanged |
| DoubleLinkedList.GotoTail | doubleLinkedList.c:168-176 | the cursor is on the tail sentinel; nodes, payloads and sentinels are unchanged |
| DoubleLinkedList.InsertAfter | doubleLinkedList.c:190-208 | AllocationError for a NULL list or a failed allocation, with the list untouched; otherwise Ok, the list stays valid, the new value appears immediately after the cursor position, every other value keeps its place, and the cursor does not move |
| DoubleLinkedList.SpliceAfter | doubleLinkedList.c:203-207 | the relinking of insertAfter: the list stays valid, `newdata` enters `Contents` right after the cursor's position, and the cursor and sentinels stay put |
| DoubleLinkedList.InsertBefore | doubleLinkedList.c:222-240 | AllocationError for a NULL list or a failed allocation, with the list untouched; otherwise Ok, the new value appears immediately before the cursor's node, every other value keeps its place, and the cursor stays on the same node, whose index grows by one |
| DoubleLinkedList.SpliceBeforeNode | doubleLinkedList.c:235-239 | the relinking of insertBefore at any node other than the head: the list stays valid, `newdata` enters `Contents` right before that node, and the cursor stays on its node, whose index grows by one exactly when it is at or after the insertion point |
| DoubleLinkedList.SpliceValid | doubleLinkedList.c:203-207 | a fresh node placed between two neighbours that point at it keeps every link of the list consistent |
| DoubleLinkedList.DeleteCurrent | doubleLinkedList.c:254-265 | AllocationError for a NULL list; otherwise Ok, exactly the cursor's node leaves `nodes`, `Contents` and the footprint, its former neighbours are linked to each other, and the cursor moves to the former successor |
| DoubleLinkedList.UnlinkNode | doubleLinkedList.c:259-264 | the relinking of deleteCurrent at any data node: the list stays valid, exactly that node leaves `nodes`, `Contents` and the footprint, a cursor on it moves to its successor, and any other cursor stays on its node |
| DoubleLinkedList.UnlinkValid | doubleLinkedList.c:259-264 | dropping one interior node whose neighbours point at each other keeps every link of the list consistent |
| DoubleLinkedList.DeleteList | doubleLinkedList.c:72-84 | nothing happens for a NULL list; otherwise every node from head to tail is released exactly once, in order, and left detached |
| DraftList.Draft.constructor | doubeLinkedList.c:41-55 | the list block's head and tail are two distinct fresh sentinels linked to each other, the head with no predecessor and the tail with no successor |
| DraftList.CreateDoubleLinkedList | doubeLinkedList.c:36-59 | a fresh valid list whose head and tail are exactly the two linked sentinels, with no data node between them |
| DraftList.DeleteDoubleLinkedList | doubeLinkedList.c:62-84 | always returns NULL; a NULL list, or a list whose head is NULL, is left alone; otherwise every node from head along the successor links is released exactly once, in order |
| OrderedSets.OrderedIntSet.constructor | orderedSet.c:25-31 | a new set is valid, has no elements and has size 0 |
| OrderedSets.Seek | orderedSet.c:51-79 | the scan, through a local pointer and without touching the list, stops on the first element not below `elem` or on the tail sentinel; everything before it is below `elem`; `found` holds exactly when `elem` is in the set, and then the pointer is on it |
| OrderedSets.NotBeyond | orderedSet.c:61-79 | in an ascending sequence, a value above every element before position k and below the element at k occurs nowhere |
| OrderedSets.AddElement | orderedSet.c:33-87 | AllocationError for a NULL set or a failed allocation, with the set unchanged; otherwise NUMBER_ALREADY_IN_SET exactly when `elem` was present and NUMBER_ADDED exactly when it was not; the elements become the sorted insertion of `elem` and stay strictly ascending, the size grows by one exactly when the value was added, and the list's cursor does not move |
| OrderedSets.AddToEmpty | orderedSet.c:43-49 | in an empty set the new value becomes the only element, the size becomes 1, and the cursor does not move |
| OrderedSets.AddInPlace | orderedSet.c:51-86 | a present value leaves the set unchanged and reports NUMBER_ALREADY_IN_SET; otherwise the value is spliced in before the first greater element, or after the last one, and NUMBER_ADDED is reported with the size one larger; the cursor does not move |
| OrderedSets.SpliceInto | orderedSet.c:61-75 | a new node placed before the first element greater than `elem` (or before the tail sentinel) makes the elements the sorted insertion of an absent `elem`, with the size one larger and the cursor unmoved |
| OrderedSets.RemoveElement | functionDeclarations.h:47 | no source body. AllocationError for a NULL set; otherwise NUMBER_REMOVED exactly when `elem` was present and NUMBER_NOT_IN_SET exactly when it was not; the elements become the sorted removal of `elem`, the size drops by one exactly when it was removed, and the cursor stays put unless it rested on the removed element, in which case it moves to the successor |
| OrderedSets.UnlinkFrom | main.c:43-52 | unlinking the node that holds `elem` makes the elements the sorted removal of `elem`, with the size one smaller; the cursor moves only if it rested on that node |
| OrderedSets.Append | orderedSet.c:114 | a value added to a result under construction lands after its last element |
| OrderedSets.NewResult | orderedSet.c:95 | a fresh result set is empty, with its cursor on the tail sentinel |
| OrderedSets.Sealed | orderedSet.c:122 | a finished result holding a strictly ascending sequence is a valid set |
| OrderedSets.DataNode | orderedSet.c:101-111 | a walk's data node carries its element of the set and is not the tail sentinel |
| OrderedSets.WalkDone | orderedSet.c:101 | a walk over a set stands on the tail sentinel exactly when it has passed every element |
| OrderedSets.SetIntersection | orderedSet.c:92-123 | a fresh valid set, leaving both operands unchanged, whose elements are exactly the values present in both operands, each once, in ascending order |
| OrderedSets.IntersectPick | orderedSet.c:108-118 | one step of the intersection walk: the value read is the front of `s1`; it is taken exactly when the two fronts are equal, and then both walks advance; otherwise exactly the walk on the smaller front advances; the remaining intersection is accounted for |
| OrderedSets.IntersectRound | orderedSet.c:100-121 | one step keeps "result so far followed by the intersection of what is left equals the whole intersection" |
| OrderedSets.IntersectInto | orderedSet.c:100-121 | the loop leaves exactly the intersection of the two operands in the result |
| OrderedSets.SetUnion | orderedSet.c:129-187 | a fresh valid set, leaving both operands unchanged, whose elements are exactly the values present in either operand, each once, in ascending order |
| OrderedSets.UnionPick | orderedSet.c:154-181 | one step of the union walk: the smaller front value is taken and exactly its walk advances (an exhausted walk counts as larger); equal fronts are taken once and both walks advance; the remaining union is accounted for |
| OrderedSets.UnionRound | orderedSet.c:138-184 | one step keeps "result so far followed by the union of what is left equals the whole union" |
| OrderedSets.UnionInto | orderedSet.c:138-184 | the loop leaves exactly the union of the two operands in the result |
| OrderedSets.SetDifference | functionDeclarations.h:51 | no source body. A fresh valid set, leaving both operands unchanged, whose elements are exactly the values of `s1` that are not in `s2`, in ascending order |
| OrderedSets.DifferencePick | main.c:68-74 | one step of the difference walk: the front of `s1` is taken exactly when it is below the front of `s2` or `s2` is exhausted, and then only the `s1` walk advances; equal fronts are both skipped; a smaller front of `s2` is skipped alone; the remaining difference is accounted for |
| OrderedSets.DifferenceRound | main.c:68-74 | one step keeps "result so far followed by the difference of what is left equals the whole difference" |
| OrderedSets.DifferenceInto | main.c:68-74 | the loop leaves exactly `s1 − s2` in the result |
| SortedSeq.HeadIsLeast | orderedSet.c:51-79 | the first value of an ascending sequence is below every later value |
| SortedSeq.TailAscending | orderedSet.c:51-79 | dropping the first value keeps a sequence ascending |
| SortedSeq.ConsAscending | orderedSet.c:60-76 | a value below every value of an ascending sequence can be put in front of it |
| SortedSeq.AscendingUnique | orderedSet.c:92-187 | two ascending sequences with the same members are equal, so a set's contents are determined by its members |
| SortedSeq.SortedInsertCorrect | orderedSet.c:33-87 | sorted insertion keeps a sequence strictly ascending, its members become the old ones plus the new value, and it grows by one exactly when the value was absent |
| SortedSeq.SortedInsertAt | orderedSet.c:60-76 | inserting before the first value greater than `x` is sorted insertion |
| SortedSeq.SortedInsertPresent | orderedSet.c:53-58 | sorted insertion of a value already present changes nothing |
| SortedSeq.SortedRemoveCorrect | functionDeclarations.h:47 | sorted removal keeps a sequence strictly ascending, its members become the old ones minus the value, and it shrinks by one exactly when the value was present |
| SortedSeq.SortedRemoveAt | functionDeclarations.h:47 | removing the node that holds `x` is sorted removal |
| SortedSeq.SortedRemoveAfter | functionDeclarations.h:47 | removing `x` at a position preceded only by smaller values is sorted removal |
| SortedSeq.SortedRemoveAbsent | main.c:43-52 | removing an absent value changes nothing |
| SortedSeq.RemoveUndoesInsert | main.c:43-52 | removing a value just added restores the set |
| SortedSeq.InsertUndoesRemove | main.c:43-52 | adding back a value just removed restores the set |
| SortedSeq.IntersectStep | orderedSet.c:108-118 | one front comparison of the intersection merge |
| SortedSeq.UnionStep | orderedSet.c:154-181 | one front comparison of the union merge |
| SortedSeq.DifferenceStep | main.c:68-74 | one front comparison of the difference merge |
| SortedSeq.IntersectCorrect | orderedSet.c:92-123 | the intersection of two ascending sequences ascends and holds exactly the values in both |
| SortedSeq.UnionCorrect | orderedSet.c:129-187 | the union of two ascending sequences ascends and holds exactly the values in either |
| SortedSeq.DifferenceCorrect | main.c:68-74 | the difference of two ascending sequences ascends and holds exactly the values of the first that are not in the second |
| SortedSeq.IntersectCommutes | orderedSet.c:92-123 | intersection does not depend on the order of the operands |
| SortedSeq.UnionCommutes | orderedSet.c:129-187 | union does not depend on the order of the operands |
| SortedSeq.UnionIdempotent | orderedSet.c:129-187 | the union of a set with itself is that set |
| SortedSeq.IntersectIdempotent | orderedSet.c:92-123 | the intersection of a set with itself is that set |
| SortedSeq.DifferenceSelfEmpty | main.c:68-74 | a set minus itself is empty |
| SortedSeq.DifferenceNotSymmetric | main.c:68-74 | `s1 − s2` and `s2 − s1` differ: {1,2,3} − {2,3,4} is {1}, and {2,3,4} − {1,2,3} is {4} |
| AsWritten.InsertAfterAsWritten | doubleLinkedList.c:203-207 | the C statement order makes the new node its own predecessor and leaves the old successor pointing back at the cursor, so that node's predecessor no longer points forward at it |
| AsWritten.InsertBeforeAsWritten | doubleLinkedList.c:235-239 | the C statement order makes the new node its own successor and leaves the old predecessor pointing forward at the cursor, so the cursor's predecessor no longer points forward at it |
| AsWritten.DeleteCurrentAsWritten | doubleLinkedList.c:259-264 | the four C assignments only make the node its own predecessor; its successor and predecessor still point at it, so it stays in the list |
| AsWritten.IntersectionAsWritten | orderedSet.c:92-123 | the rescanning loop, rendered on the operands' element sequences with every match put in front of the result (as inserting after the head sentinel does), finds exactly the common values, but in strictly descending order, so any result with two or more values is not ascending |

## Left out

- Memory reclamation: `free` is modelled as detaching a node, and `malloc` failure as a boolean argument. Reuse of released memory and leaks are not modelled. For example, `insertAfter` allocates before its NULL check and leaks that node.
- `printf` output and `printToStdout` (declared, no body): console output.
- The text menu of `main.c` and its `SetsArray` registry: user interaction and plumbing, described only in comments.
- The `void*` payload of the draft (`doubeLinkedList.c`): payloads are `int`, as in `structures.h`.
- The O(n·m) cost of the nested loops of the set operations: the model's two-pointer walks compute the sets those loops are meant to compute (for union the C loop does not, see OrderedSets.SetUnion below), and cost is not modelled.
- Layout: the headers disagree on field names and enums. The model uses `next`/`prev`, the `structures.h` list and one `ReturnValue` covering both enums.
- The `orderedIntSet` struct in `orderedSet.c` has NULL head and tail when empty and no sentinels. The model keeps the sentinel list throughout, so "empty" means the sentinels are linked to each other.
- DraftList.CreateDoubleLinkedList: the draft does not check its three allocations, so the model lets them succeed.
- OrderedSets.OrderedIntSet.constructor: `createOrderedIntSet` does not check its allocation and would write through NULL if it failed; the model lets it succeed.
- DraftList.DeleteDoubleLinkedList: the draft's signature lacks the `list` parameter its body uses; the model takes it as the parameter.
- DoubleLinkedList.CreateList: the C function has no `return list;`. The model returns the list, as its documentation says.
- DoubleLinkedList.InsertAfter: returns Ok on success, where the C function returns no value. It requires the cursor off the tail sentinel: there the intended splice is undefined (there is no successor), and the C statements as written hang the new node past the tail, corrupting the list.
- DoubleLinkedList.InsertBefore: returns Ok on success, where the C function returns no value. It requires the cursor off the head sentinel: there the intended splice is undefined (there is no predecessor), and the C statements as written hang the new node before the head, corrupting the list.
- DoubleLinkedList.DeleteCurrent: returns Ok and moves the cursor to the successor, where the C function returns no value and leaves the cursor on the node it meant to remove (it never frees that node). It requires the cursor on a data node: a sentinel lacks a neighbour, so the intended relinking is undefined; as written, the C code dereferences NULL on the tail sentinel and makes the head sentinel its own predecessor.
- DoubleLinkedList.GotoNextNode and DoubleLinkedList.GotoPrevNode: require the cursor off the tail (head) sentinel. The C code has no guard and would step onto NULL.
- DoubleLinkedList.GetData: returns the payload itself, where the C function returns a pointer to it.
- OrderedSets.SetIntersection: the C code inserts each match after the head sentinel and so builds the result in descending order (see Findings). The model builds it ascending, and the operand cursors are not moved.
- OrderedSets.SetUnion: the C code copies `s1` in reverse order, never moves the result's cursor back from the tail sentinel, and so never adds an `s2` value greater than every value present. The model merges the two ascending walks. An as-written model of this loop is not included.
- OrderedSets.RemoveElement: a NULL set reports AllocationError, by analogy with `addElement`, since no source body exists.
- OrderedSets.AddElement: the C version allocates before scanning, so a failed allocation reports AllocationError even for a value already present. The model does the same.
- Where the documentation comments (a valid ordered set as result, a relinked list after each splice) and the code disagree, the model follows the documented intent for the operations the rest of the model uses, and records the code's actual behaviour in `AsWritten` (see Findings).

## Findings

| source | as written | input that shows it | evidently intended | confidence | as-written member | corrected member |
|---|---|---|---|---|---|---|
| doubleLinkedList.c:206-207 | `current->next` is set to the new node before `current->next->prev = newNode`, so the new node becomes its own predecessor and the old successor still points back at the cursor | any list with the cursor on the head sentinel, e.g. the empty list: after insertAfter the tail's `prev` is still the head | the successor's `prev` should point at the new node, and the new node's `prev` at the cursor | high (not executed) | AsWritten.InsertAfterAsWritten | DoubleLinkedList.InsertAfter |
| doubleLinkedList.c:238-239 | `current->prev` is set to the new node before `current->prev->next = newNode`, so the new node becomes its own successor and the predecessor still points forward at the cursor | any list with the cursor on the tail sentinel, e.g. the empty list: after insertBefore the head's `next` is still the tail | the predecessor's `next` should point at the new node, and the new node's `next` at the cursor | high (not executed) | AsWritten.InsertBeforeAsWritten | DoubleLinkedList.InsertBefore |
| doubleLinkedList.c:260-263 | `current->prev` is overwritten with `current->next->prev`, which is the node itself, before it is used, so the node stays linked from both neighbours | a list [5] with the cursor on 5: after deleteCurrent the head's `next` is still the node holding 5 | the neighbours should point at each other and the node should leave the list | high (not executed) | AsWritten.DeleteCurrentAsWritten | DoubleLinkedList.DeleteCurrent |
| orderedSet.c:114 | each common value is inserted right after the result's head sentinel while the cursor stays there, so later matches come first | s1 = s2 = {1, 2}: the result reads 2, 1 | the result should be an ordered set, ascending | high (not executed) | AsWritten.IntersectionAsWritten | OrderedSets.SetIntersection |

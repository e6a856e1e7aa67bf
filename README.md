# A verified model of a C singly linked list and the queue built on it

The library is a singly linked list of `unsigned int` payloads with a head pointer, a tail pointer and
a cached size (`linked_list.c`), and a queue that owns one such list and pushes at its tail (`queue.c`).
Each translation unit keeps two file-static function-pointer slots, one for allocating and one for
freeing. Both start out NULL. Every node, list, iterator and queue is obtained from and handed back
through these slots only.

The Dafny model has four modules:

- `Allocators` (allocator.dfy): a pair of slots as an `Allocator` object, with `RegisterMalloc` and
  `RegisterFree`. Two ghost logs, `allocLog` and `freeLog`, record in order every object obtained from
  the allocator and every object handed back to it. Each allocation also takes a boolean `mem`: true
  when the registered allocator hands back a block, false when it returns NULL.
- `Sequences` (sequences.dfy): what the list operations mean as edits of a sequence. `InsertAt`,
  `RemoveAt` and `IndexOf` are defined here, with lemmas that relate them to each other.
- `Lists` (linked_list.dfy): `Node`, `LinkedList` and `Iterator` classes, and one method per C
  function. The methods take `LinkedList?` or `Iterator?`, so the NULL-list and NULL-cursor tests of
  every function are modelled; the two further NULL tests of `linked_list_iterate` are not (see Left
  out).
  `LinkedList` has ghost fields `nodes` (the chain reachable from `head`) and `contents` (their
  payloads). `Valid()` ties these ghost fields to `head`, `size` and the `next` pointers. `TailOK()`
  says `tail` is the last node, or NULL exactly when the list is empty. It is separate from `Valid()`
  because `linked_list_remove` does not preserve it (see Findings).
- `Queues` (queue.dfy): the `Queue` class and `Create`, `Delete` and `Push`. `Create` and `Delete`
  are given queue.c's own allocator and linked_list.c's allocator, and require the two to be distinct
  objects, as the two sets of file statics are. `Push` allocates nothing through queue.c's slots, so
  it takes only linked_list.c's allocator.

Each state-changing method states, for success and for failure, the new contents, the new
`size`/`head`/`tail`, and exactly what was appended to the allocator logs. Every failure leaves the
list as it was.

## Model

| member | source | states |
|---|---|---|
| `Allocators.Allocator.constructor` | linked_list.c:5-6 | both slots start NULL and nothing has been allocated or freed |
| `Allocators.Allocator.RegisterMalloc` | linked_list.c:202-207 | succeeds iff the function is non-NULL; on success the malloc slot holds it, otherwise the slot keeps its old value; the free slot and the logs do not change |
| `Allocators.Allocator.RegisterFree` | linked_list.c:209-214 | the same for the free slot |
| `Lists.Node.constructor` | linked_list.c:16-17 | a node holding `data` with a NULL `next` |
| `Lists.LinkedList.constructor` | linked_list.c:29-31 | head and tail NULL, size 0, no nodes |
| `Allocators.Allocator.Free` | linked_list.c:158 | a call through a set free slot, as at linked_list.c:42, 46, 158 and 187 and queue.c:19, 30: the object is appended to the free log and nothing else changes |
| `Lists.NoRepeats` | linked_list.c:39-44 | a chain that ends in NULL within `size` steps visits no node twice, so writing one node's `next` leaves every other node alone |
| `Lists.CreateNode` | linked_list.c:8-19 | NULL iff the malloc slot is unset or the allocator returns NULL; otherwise a fresh node holding `data` with NULL `next`, recorded as allocated |
| `Lists.Create` | linked_list.c:21-33 | NULL iff no block can be obtained; otherwise a fresh valid list with NULL head and tail, size 0, empty contents and a valid tail |
| `Lists.Delete` | linked_list.c:35-48 | fails iff the list is NULL or the free slot is unset; otherwise frees every node from head to tail in order, then the list |
| `Lists.Size` | linked_list.c:50-54 | `SIZE_MAX` for a NULL list, else the number of elements, which is never `SIZE_MAX` |
| `Lists.InsertEnd` | linked_list.c:56-73 | succeeds iff the list is non-NULL and a node can be allocated; on success contents become `old + [data]`, size grows by one, and the fresh node is the tail and the one allocation; on failure nothing changes and nothing is allocated |
| `Lists.InsertFront` | linked_list.c:75-92 | succeeds iff the list is non-NULL and a node can be allocated; contents become `[data] + old`; the new head becomes the tail only if the tail was NULL, so a valid tail stays valid |
| `Lists.Insert` | linked_list.c:94-119 | fails with no change iff the list is NULL, `index > size` or no node can be allocated; otherwise contents become `InsertAt(old, index, data)`, the fresh node sits at `index`, and the tail changes exactly as front insertion (index 0) or end insertion (index `size`) changes it |
| `Lists.SpliceAfter` | linked_list.c:114-117 | linking a fresh node after the node at `index - 1` inserts it at `index` in the chain and its payload in the contents, leaving head and tail alone |
| `Lists.Find` | linked_list.c:121-135 | `SIZE_MAX` for a NULL list or an absent value; otherwise the least position holding `data` (which `Sequences.IndexOfLeast` identifies with `IndexOf`); nothing changes |
| `Lists.UnlinkHead` | linked_list.c:143-144 | moving the head to its successor removes position 0 from chain and contents and returns the old head; the head is NULL iff the list became empty; the tail is not touched |
| `Lists.UnlinkAfter` | linked_list.c:152-153 | unlinking the node after `index - 1` removes position `index` from chain and contents and returns that node; the predecessor's `next` becomes NULL iff the removed node was last |
| `Lists.Remove` | linked_list.c:137-161 | fails with no change iff the list is NULL or empty, the free slot is unset or `index >= size`; otherwise contents and chain become `RemoveAt(old, index)`, exactly the removed node is freed, and the tail is as the code leaves it: NULL when index 0 empties the list or when the last node is removed at an index of at least 1 |
| `Lists.RemoveCorrected` | linked_list.c:137-161 | the same removal, except that the tail becomes the predecessor when the last node goes at an index of at least 1; the new tail is NULL when the list becomes empty, otherwise the old tail; so a valid tail stays valid |
| `Lists.Iterator.constructor` | linked_list.c:176-179 | a cursor holding exactly the given list, index, node and payload |
| `Lists.CreateIterator` | linked_list.c:163-182 | NULL iff the list is NULL, `index >= size` or no block can be obtained; otherwise a fresh cursor on the list at `index` whose cached data is `contents[index]` |
| `Lists.DeleteIterator` | linked_list.c:184-189 | fails iff the cursor is NULL or the free slot is unset; otherwise frees exactly the cursor |
| `Lists.Iterate` | linked_list.c:191-200 | succeeds iff the cursor is non-NULL and not on the last node; on success the index grows by one and the cached data is the element there; on failure nothing changes |
| `Lists.LostTailExample` | linked_list.c:152-156 | after removing index 1 from [1, 2], the list is [1] with a non-NULL head and a NULL tail; it is a fresh list and the allocator slots are kept |
| `Lists.StaleTailExample` | linked_list.c:84-88 | a front insertion of 0 on that list gives a fresh [0, 1] with the tail on the first node, not the last; the allocator slots are kept |
| `Lists.InsertFindExample` | linked_list.c:94-135 | inserting 99 at index 1 into [5, 6, 7] gives [5, 99, 6, 7], in which `Find` locates 6 at 2 and 99 at 1 |
| `Sequences.IndexOf` | linked_list.c:121-135 | the position of the first occurrence, which is the length exactly when the value is absent, with no occurrence before it |
| `Sequences.IndexOfLeast` | linked_list.c:121-135 | a position holding the value with no occurrence before it is the position `IndexOf` gives |
| `Sequences.InsertAtEnds` | linked_list.c:99-103 | insertion at 0 is prepending and insertion at the length is appending, so the two delegations of `linked_list_insert` agree with its general case |
| `Sequences.RemoveInsert` | linked_list.c:94-161 | removing at `i` what was inserted at `i` restores the sequence (with `i = 0`: front insertion followed by removal of index 0) |
| `Sequences.InsertRemove` | linked_list.c:94-161 | inserting a removed element back at its position restores the sequence |
| `Sequences.IndexOfInsert` | linked_list.c:94-135 | a value inserted at `i` that does not occur before `i` is found at `i` |
| `Sequences.IndexOfAppend` | linked_list.c:56-135 | after an end insertion, a value already present keeps its first position and a value first seen in the new element is found at the old length |
| `Queues.Queue.constructor` | queue.c:13-17 | a queue whose list pointer is not yet set |
| `Queues.Create` | queue.c:9-23 | NULL iff either block cannot be obtained; nothing is allocated while queue.c's malloc slot is unset; when the list cannot be created, the queue block just obtained is freed; otherwise a fresh valid empty queue over a fresh list |
| `Queues.Delete` | queue.c:25-32 | fails iff the queue is NULL or queue.c's free slot is unset; otherwise the list's nodes and the list are freed through linked_list.c's slot (if set) and the queue through queue.c's |
| `Queues.Push` | queue.c:34-39 | fails iff the queue is NULL or no node can be allocated; on success the contents become `old + [data]` and the chain gains exactly one fresh node, the new tail, otherwise nothing changes; the queue keeps a valid tail |

## Left out

- Real memory: the model cannot call through function pointers. A registered slot is a non-NULL
  `FnPtr`. What the allocator returns is the `mem` parameter. Freeing appends to a ghost log. Nothing
  is reclaimed, so double deletion, use after free and iterators left stale by later mutation
  (undefined behaviour in the C code) are not modelled.
- Lists.Iterate requires a cursor as `CreateIterator` made it (`Valid()`: a non-NULL list and a
  current node on its chain), so the `iter->ll == NULL` and `iter->current_node == NULL` early
  returns at linked_list.c:192 are never reached. `CreateIterator` never hands out such a cursor.
- Lists.InsertEnd, Lists.InsertFront, Lists.Insert and Queues.Push require `size + 1 < SIZE_MAX`, and
  `Valid()` keeps `size < SIZE_MAX`. Wrap-around of the `size_t` counter is not modelled, because no
  list can hold that many nodes.
- Lists.InsertEnd requires a valid tail when the list is non-empty, and Lists.Insert requires the
  same for index `size > 0`, where it delegates to end insertion. This rules out two states the model
  reaches after a removal of the last node (see Findings). (1) A NULL tail on a non-empty list, as
  `LostTailExample` shows; the code dereferences it at linked_list.c:68. (2) A non-NULL tail that is
  not the last node: a front insertion on a list with a NULL tail makes the new head the tail
  (linked_list.c:87-88), as `StaleTailExample` shows. On that list the code writes `tail->next` on
  the head (linked_list.c:68), which cuts the rest of the chain off the list, and still increments
  `size` (linked_list.c:71), so `size` no longer counts the chain. The model does not describe what
  end insertion does in either state.
- Queues.Create requires queue.c's free slot to be set whenever the queue block was obtained but the
  list was not. The code calls that slot without testing it (queue.c:19), which is undefined when it
  is NULL.
- How queue.c's slots are set: queue.c has no registration function. Its `Allocator` is given from
  outside. `RegisterMalloc`/`RegisterFree` model linked_list.c's registration.
- `queue_pop`, peek, has-next and queue size do not exist in the code (queue.c:41 is commented out),
  so there is no FIFO-pop law to state.
- The header files (`linked_list.h`, `queue.h`) are not part of this model. The struct layouts are
  read off their uses in the two C files.
- Points where the code is deliberately followed as written. `linked_list_insert` walks `index - 1`
  links without checking the chain length (linked_list.c:105-108); with `Valid()` and
  `index <= size` the walk stays on the chain. Allocation tests only the malloc slot
  (linked_list.c:9, 22, 76, 96, 165). `linked_list_create_iterator` tests the index before allocating
  (linked_list.c:165), so nothing partly built is ever released. On [5, 99, 6, 7], 6 is at index 2,
  as `InsertFindExample` shows.
- `SIZE_MAX` is fixed at 2^64 - 1, the value for a 64-bit `size_t`. On a target with a narrower
  `size_t`, the NULL-list and not-found results of `Lists.Size` and `Lists.Find` would be smaller.

## Findings

| source | as written | input that shows it | evidently intended | confidence | as-written member | corrected member |
|---|---|---|---|---|---|---|
| linked_list.c:155-156 | removing the last node at an index of at least 1 sets the tail to NULL | the list [1, 2], remove index 1: the list is [1] with a NULL tail, so a later end insertion writes through NULL; a front insertion of 0 first makes the head the tail of [0, 1], and an end insertion then cuts 1 off the chain while `size` still grows | the tail becomes the predecessor node | high (not executed) | `Lists.LostTailExample`, `Lists.StaleTailExample` | `Lists.RemoveCorrected` |

# A verified model of lab0-c's queue of strings

lab0-c's `queue.c` implements a queue of strings as a Linux-style circular
doubly-linked list: a sentinel `list_head` heads the queue, and every
element is an `element_t` that embeds a `list_head` and owns a heap copy of
its string. `q_merge` works on a second level of the same structure: a
chain of `queue_contex_t` records, each holding the sentinel of one queue
(`q`) and a `size` field.

The model is imperative, like the C code:

- `Queue.Heap` is the heap of nodes. A node is an index into the tables
  `next`, `prev` (its `list_head` links), `value` (the string of the
  `element_t` around it), `queue` and `size` (the fields of the
  `queue_contex_t` around it, for chain nodes). `Null` is -1.
- Every queue operation is a method of `Heap` that changes those tables as
  the C code changes the links. Each loop carries the invariants that prove
  it. A queue's contents are a ghost sequence `ns` of element nodes, and
  `Ring.IsRing(next, prev, head, ns)` says the links form the closed ring
  head, ns[0], …, ns[|ns|-1], head.
- Each method's contract says what ring the operation leaves behind. That
  ring is stated through a specification function on node sequences in
  module `Spec` (`ReverseSeq`, `Dedup`, `MergeBy`, `Concat`). Lemmas in
  `Spec` relate each of those to an independent reference on strings
  (`Collapse`, `Sorted`, multisets).
- `Strings.Less` is `strcmp(a, b) < 0` on NUL-free strings.
- Module `Contexts` holds what `q_merge` needs: the chain of contexts, the
  queues they point to, and the invariant of the merge loop.

Files:

- `strings.dfy`: Strings.
- `spec.dfy`: Spec.
- `ring.dfy`: Ring, the list_head ring and `list_add`/`list_del`.
- `contexts.dfy`: Contexts.
- `queue.dfy`: Queue, the heap and the operations.

Where the code and its description differ, the model follows the code:

- `q_delete_dup` keeps the last node of every run of equal strings. It
  does not delete every node whose string occurs more than once.
- When merging in ascending order, ties take the node of the second queue
  (`another`) first. In descending order, ties take the node of the first.
- `q_merge` only writes the `size` field of two kinds of context: each
  context whose queue is merged away (set to 0), and the first context
  (set to the total).

## Model

| member | source | states |
|---|---|---|
| Strings.LessTotal | queue.c:244-246 | strcmp puts any two different strings in one order or the other |
| Strings.LessTransitive | queue.c:244-246 | the strcmp order is transitive |
| Strings.LessAsymmetric | queue.c:244-246 | strcmp never orders two strings both ways |
| Strings.OrderedTransitive | queue.c:244-248 | the order a merge direction asks for (ascending or descending) is transitive |
| Strings.OrderedTotal | queue.c:244-248 | any two strings stand in that order one way or the other |
| Queue.Heap.New | queue.c:15-22 | with malloc failing: NULL and nothing changes; otherwise a fresh node that forms an empty ring, all earlier tables kept |
| Ring.RingInsert | queue.c:46 | list_add of a fresh node after the node at position p of a ring gives the ring with that node inserted at position p |
| Queue.Heap.ListAdd | queue.c:46 | list_add changes exactly the four links it writes, and the ring gains the node at position p |
| Queue.Heap.InsertHead | queue.c:36-48 | succeeds iff malloc and strdup succeed and head is not NULL; on failure nothing changes; on success one new node holding s is in the ring right after head, and only head and its old successor change links |
| Queue.Heap.InsertTail | queue.c:51-54 | same as insert at head, at the end of the queue: the ring becomes ns + [new node] |
| Ring.RingRemove | queue.c:64 | list_del of the node at position p closes the ring over the gap |
| Queue.Heap.ListDel | queue.c:64 | list_del changes exactly two links and removes ns[p] from the ring |
| Queue.StrNCopy | queue.c:62-63 | strncpy fills the first n characters with the string, NUL-padded, and leaves the rest of the buffer alone |
| Queue.Heap.RemoveHead | queue.c:57-66 | NULL for a NULL or empty queue, with nothing changed; otherwise returns the first element after head, which leaves the ring; only two neighbours' links change; sp gets strncpy of its string over bufsize - 1 characters |
| Queue.Heap.RemoveTail | queue.c:69-73 | NULL for an empty queue; otherwise returns the last element, the ring becomes ns without it, and sp as for remove at head |
| Queue.Heap.Size | queue.c:76-85 | 0 for NULL, otherwise the number of elements of the ring |
| Queue.MidStep | queue.c:93-95 | while the two cursors have not met, the forward one moves to ns[k+1] and the backward one to the node before it |
| Queue.MidEnd | queue.c:93-96 | when the cursors meet or are neighbours, the forward cursor is at index \|ns\| / 2 |
| Queue.Heap.DeleteMid | queue.c:88-99 | false with nothing changed for NULL or an empty queue; otherwise removes exactly the element at index \|ns\| / 2, changing only its two neighbours' links |
| Queue.Heap.UnlinkBefore | queue.c:108-112 | the two pointer writes of the match branch unlink the element before pos, as list_del would |
| Queue.Heap.Alloc | queue.c:38 | malloc of an element: one fresh node with the given string and empty links, all earlier tables kept |
| Queue.Heap.DupStart | queue.c:107 | list_for_each(pos, head->next) starts one element in, with nothing yet removed |
| Queue.Heap.DupElement | queue.c:107-114 | the round at an element unlinks the element before it when the two strings match, and keeps the loop invariant |
| Queue.Heap.DupSentinel | queue.c:107-114 | the round at the sentinel removes nothing and moves pos to head->next, which ends the loop |
| Queue.Heap.DupRound | queue.c:107-114 | one round of the loop keeps the loop invariant: the ring is the survivors so far followed by the unvisited nodes |
| Queue.Heap.DeleteDup | queue.c:102-116 | false with nothing changed for NULL; otherwise the ring becomes Dedup(ns), and only nodes of the queue change links |
| Spec.DedupValues | queue.c:102-116 | the strings left after q_delete_dup are the queue's strings with each run of equal adjacent strings collapsed to one |
| Spec.CollapseNoAdjacentEqual | queue.c:102-116 | after collapsing, no two adjacent strings are equal, and the first string is kept |
| Spec.CollapseKeepsValues | queue.c:102-116 | a string survives collapsing iff it was in the queue |
| Spec.CollapseIdempotent | queue.c:102-116 | deleting duplicates a second time changes nothing |
| Queue.Heap.SwapLinks | queue.c:143-146 | one round exchanges next and prev of the node and returns its old next |
| Queue.Heap.Reverse | queue.c:139-150 | nothing for NULL; otherwise every node of the ring, sentinel included, has next and prev exchanged, and nothing else changes; the ring becomes ReverseSeq(ns) |
| Ring.RingReverse | queue.c:139-150 | exchanging next and prev of every node of a ring gives the ring of the reversed sequence |
| Spec.ReverseInvolution | queue.c:139-150 | reversing twice gives back the queue |
| Spec.ReverseValues | queue.c:139-150 | the reversed queue holds the same strings, back to front |
| Queue.Heap.MergeStep | queue.c:243-252 | one round of merge_two's first loop links the front node that goes first after the merged part and advances that list |
| Queue.Heap.MergeWalk | queue.c:258-259 | the walk stops at the last node of the list not used up |
| Queue.Heap.MergeFinish | queue.c:253-262 | the list not used up is spliced after the merged part, the ring is closed at head, and another is left empty (with the helper lemma Spec.MergeRest: once one list is used up, the merge is the other list) |
| Queue.Heap.MergeSplice | queue.c:256-262 | the front of the remaining list is linked after the merged part, its last node is linked back to head, and another is made empty; with nothing left, head's next and prev both point to another |
| Queue.Heap.MergeTwo | queue.c:235-263 | two NULLs: nothing changes; two empty queues: head's next and prev both point to another, which is empty; otherwise head's ring becomes MergeBy(xs, ys), another's ring is empty, and only nodes of the two queues change links |
| Spec.MergeByPermutation | queue.c:235-263 | the merged queue has exactly the nodes of both queues, with the same length |
| Spec.MergeBySorted | queue.c:235-263 | merging two queues sorted in direction descend gives a queue sorted in that direction |
| Spec.MergeByDistinct | queue.c:235-263 | merging two disjoint queues without repeated nodes gives one without repeated nodes |
| Contexts.GroupMerge | queue.c:280-282 | after one queue is merged into another, the chain, every queue and their separation stay well formed |
| Contexts.ConcatMerge | queue.c:280-282 | a merge keeps the multiset of all elements of all queues |
| Contexts.BusyMerge | queue.c:280-282 | a merge leaves exactly one fewer non-empty queue after the first; this bounds the loop |
| Contexts.SortedMerge | queue.c:280-282 | if every queue is sorted, they stay sorted after a merge |
| Contexts.MergeAllStep | queue.c:279-282 | one merge and the size = 0 write keep the invariant of q_merge and make the loop bound smaller |
| Contexts.MergeAllEnd | queue.c:295-297 | when every later queue is empty, the first holds every element (same multiset and count), later sizes are 0 for queues that had elements, and it is sorted if all inputs were |
| Queue.Heap.Scan | queue.c:273-276 | the scan skips exactly the contexts with empty queues and stops at the first non-empty one, or at the chain head |
| Queue.Heap.FirstPair | queue.c:272-278 | the first context and the first later context whose queue is not empty, every context between them being empty; none means every later queue is empty |
| Queue.Heap.NextPair | queue.c:283-294 | the next two later contexts with non-empty queues, every context skipped being empty; if there are not two, at most one queue after nxt is not empty and all the others are empty |
| Queue.Heap.MergePair | queue.c:279-282 | a merge of two queues keeps the loop invariant and makes the bound smaller (the helper lemma Contexts.GroupPair gives q_merge_two its precondition: the two queues are separate rings) |
| Queue.Heap.MergeRound | queue.c:271-294 | one pass of the outer loop either finds every later queue empty (done) or merges at least one pair |
| Queue.Heap.MergeEnd | queue.c:296-297 | the first context's size is set to, and returns, the total number of elements |
| Queue.Heap.Merge | queue.c:267-298 | 0 for NULL; otherwise all elements end up in the first queue (same multiset), every later queue is empty, the result and the first size are the total count, sizes of merged-away contexts are 0, other sizes kept, the result is sorted if all inputs were, and only links of sentinels and elements change |

## Left out

- q_free (queue.c:25-33) is not modelled: it only returns memory, and the model has no deallocation.
- q_release_element and free in q_insert_head, q_delete_mid and q_delete_dup are not modelled. A removed node stays in the heap with its stale links.
- q_swap (queue.c:119-136) is not modelled.
- q_reverseK (queue.c:153-171) is not modelled.
- q_ascend and q_descend (queue.c:178-233) are not modelled.
- q_sort (queue.c:174) has an empty body and is not modelled.
- malloc and strdup are not modelled. Whether they succeed is an input (`mallocOk`, `nodeOk`, `dupOk`).
- list.h is not part of this model. list_add, list_del, list_empty, list_for_each and INIT_LIST_HEAD are modelled as in the Linux kernel's list.h, without pointer poisoning.
- Queue.Heap.InsertTail, Queue.Heap.RemoveTail: require a non-NULL head, because the C code reads head->prev before any NULL check.
- Queue.Heap.MergeTwo: requires both sentinels NULL or both non-NULL, because with exactly one NULL the C code dereferences NULL.
- Queue.Heap.Merge: requires the chain to have at least one context when head is not NULL. The model does not cover an empty chain, where the C code would treat the chain head itself as a context.
- Queue.Heap.Merge: the queues of the contexts must be separate well-formed rings. Sharing one queue between two contexts is outside the model, and so is a later context whose q is NULL, which the C code skips because q_size(NULL) is 0 (queue.c:275, 285, 291).
- Queue.Heap.DeleteDup: the round at the sentinel compares the last string with the sentinel's, which is not an element_t. The model takes that comparison to fail.
- Strings are `seq<char>`, and nothing keeps '\0' out of them. The model's strings may contain characters that no C string has: Queue.Copied copies past an embedded '\0', and Strings.Less compares past it, where strncpy and strcmp would stop. On NUL-free strings they agree with strncpy and strcmp, which compares by character code.
- Queue.Heap.RemoveHead, Queue.Heap.RemoveTail: model strncpy only, which leaves the buffer unterminated when the string has bufsize - 1 characters or more. A bufsize of 0 is excluded, because bufsize - 1 of a size_t would wrap around.
- Queue.Heap.Size: returns an unbounded integer. The C `int` counter would overflow on a queue of more than INT_MAX elements.

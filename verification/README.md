# A verified model of the lab0-c string queue

`queue.c` implements a queue of owned C strings as a singly-linked list.
The `queue_t` header holds `head`, `tail` and `size`. Each `list_ele_t` holds
its own copy of a string (`value`) and a `next` link. The operations are
`q_new`, `q_insert_head`, `q_insert_tail`, `q_remove_head`, `q_size` and
`q_reverse`.

The model keeps the pointers. The node heap is a value, `map<Ptr, Node>`,
with `Null` never allocated. Each operation is a function from heap and
header to the next heap and header. `q_reverse` is a method whose loop
relinks nodes exactly as the C loop does.

- `Memory` (memory.dfy): pointers, C strings without NUL, nodes, the heap,
  and list shapes: `Chain` (follow `next` n times), `Linked`, `Distinct`.
- `CStrings` (cstrings.dfy): caller buffers, `strncpy`, the terminated
  bounded copy, and reading a C string back out of a buffer.
- `LinkedQueue` (queue.dfy): the queue as its doc-comments describe it. The
  invariant `Valid` says: `size` distinct nodes are reachable from `head`;
  each node's `next` is the following node and the last one's is NULL;
  `head` is the first node and `tail` the last; both are NULL exactly when
  the queue is empty. `Contents` gives the strings from head to tail.
- `Trace` (trace.dfy): sequences of inserts and removals. They refine an
  abstract queue of strings, and `size` equals the successful inserts minus
  the successful removals.
- `AsWritten` (as_written.dfy): the code as written, where it departs from
  its doc-comments. C undefined behaviour is the `Undefined` outcome. Lemmas
  show that it agrees with `LinkedQueue` on the inserts when no element is
  allocated for a NULL `q` and no string allocation fails. They also show
  agreement on removals from queues of any size but 1, either without a
  buffer or with one that has room for the string and its NUL.

`malloc` is an oracle the caller supplies. `node` is the address returned
for the element: `Null` on failure, otherwise an address not yet live.
`textOk` says whether the string's allocation succeeded.

The code and its doc-comments disagree in several places. `LinkedQueue`
follows the doc-comments and `AsWritten` follows the code; the Findings
table lists each place. The comment on `q_sort` (queue.c:171) promises
ascending order, but its body is empty. The TODO in `q_free` (queue.c:28)
admits that the elements and their strings are not freed. The model follows
the code and leaves both out.

## Model

| member | source | states |
|---|---|---|
| LinkedQueue.New | queue.c:13-23 | a new queue is valid and empty on every heap; NULL exactly when allocation fails |
| LinkedQueue.EmptyIff | queue.c:55-58 | in a valid queue, size 0 iff `head` is NULL iff `tail` is NULL; `size` is the number of strings |
| LinkedQueue.Size | queue.c:123-130 | a NULL queue has size 0 |
| LinkedQueue.SizeCountsContents | queue.c:127-130 | the counter `q_size` returns equals the number of nodes and strings reachable from `head` |
| LinkedQueue.InsertHead | queue.c:33-62 | succeeds iff `q` is non-NULL and both allocations succeed; on success the node list becomes the new node followed by the old nodes, the contents become `[s] + old`, size goes up by 1, the new node is `head` and stores `s`, `tail` is the new node iff the queue was empty, no other node changes, and the queue stays valid; on failure nothing changes |
| LinkedQueue.InsertTail | queue.c:64-92 | succeeds iff `q` is non-NULL and both allocations succeed; on success the node list becomes the old nodes followed by the new node, the contents become `old + [s]`, the new node is `tail` with `next == NULL`, it is also `head` iff the queue was empty, size goes up by 1, only the old tail's node changes, and the queue stays valid; on failure nothing changes |
| LinkedQueue.RemoveHead | queue.c:94-121 | fails and changes nothing iff `q` is NULL or empty; otherwise drops the first node from the node list and the first string from the contents, frees exactly that node, lowers size by 1, empties both ends when the last element goes, keeps the queue valid, and leaves in `sp` a C string equal to the first `bufsize-1` characters of the removed string, with nothing written at or past `bufsize` |
| CStrings.StrNCpy | queue.c:110 | `strncpy` writes only the first `n` characters: a prefix of the source, then NUL in every remaining position below `n` when the source is shorter than `n`, and no NUL when it is not |
| CStrings.CopyOut | queue.c:98-99 | the documented bounded copy: at most `bufsize-1` characters followed by a NUL, so the buffer reads back as the truncated string; nothing at or past `bufsize` changes; nothing is written when `bufsize` is 0 |
| LinkedQueue.Reverse | queue.c:132-168 | no effect on a NULL, empty or one-element queue; otherwise the node order and contents are reversed, `head` and `tail` swap, the new tail's `next` is NULL, size and every string are kept, no node is allocated or freed, and no node outside the queue is touched |
| LinkedQueue.RelinkBackwards | queue.c:146-167 | the prev/now/next loop points every node at its predecessor and the first node at NULL, changing no string and no node outside the list |
| LinkedQueue.ReversedValid | queue.c:155-167 | the header swap plus the backward links form a valid queue holding the reversed node list and reversed contents |
| LinkedQueue.ReverseTwice | queue.c:139-168 | reversing twice restores the original heap and header, including the identities of `head` and `tail` |
| Trace.Run | queue.c:40-121 | along any sequence of inserts and removals the queue stays valid, holds what the abstract queue of strings holds, and its size is the initial size plus successful inserts minus successful removals; each insert's address need only be free when that call is made, so `malloc` may hand back an address an earlier removal freed |
| Trace.ReuseFreedAddress | queue.c:71-121 | inserting "a", removing it, then inserting "b" at the address just freed is a valid run that ends holding exactly `["b"]` with size 1 |
| Trace.ApplyLength | queue.c:60-119 | the abstract queue grows by one per successful insert and shrinks by one per removal from a non-empty queue |
| AsWritten.InsertHead | queue.c:40-62 | as written: undefined exactly when `q` is non-NULL and only the string allocation fails; with a NULL `q` it still allocates the element |
| AsWritten.InsertTail | queue.c:71-92 | as written: undefined exactly when the string allocation fails or a non-NULL `tail` is no longer live |
| AsWritten.RemoveHead | queue.c:102-121 | as written: undefined exactly when `head` is dead or `bufsize-1` in `size_t` exceeds the buffer; on success `tail` is never changed |
| AsWritten.Size | queue.c:127-130 | as written: undefined exactly for a NULL queue, otherwise the documented size with heap and header unchanged |
| AsWritten.InsertHeadAgrees | queue.c:40-62 | when `q` is non-NULL or allocation fails, and the string allocation succeeds, the code computes the documented result |
| AsWritten.InsertTailAgrees | queue.c:71-92 | under the same conditions `q_insert_tail` computes the documented result on a valid queue |
| AsWritten.RemoveHeadAgrees | queue.c:102-121 | without a buffer, on any valid queue of size other than 1, the code computes the documented result |
| AsWritten.BufferedRemoveHeadAgrees | queue.c:102-121 | on a valid queue of size other than 1, with a buffer that has room for the removed string and its NUL, the code ends with the same heap, header and return value as the documented removal, and the caller's buffer reads back the same string |
| AsWritten.TailNotReset | queue.c:112-119 | removing the only element leaves `tail` pointing at the freed node, which breaks the invariant; the documented removal empties both ends |
| AsWritten.StaleTailWrittenThrough | queue.c:82-88 | after that removal `q_insert_tail` writes through the freed node; the documented pair yields `[s]` |
| AsWritten.StaleTailKeptByInsertHead | queue.c:55-58 | after that removal `q_insert_head` sees a non-NULL `tail` and keeps it, so `head` is the new node while `tail` still names the freed node and the queue is invalid; the documented pair makes the new node both ends and yields `[s]` |
| AsWritten.CopyNotTerminated | queue.c:109-111 | when the string has at least `bufsize-1` characters and the buffer held no NUL, the copy is unterminated; the documented copy reads back as the truncated string |
| AsWritten.HelloInTwoChars | queue.c:109-111 | removing "hello" into a 2-character buffer holding "xx" gives "hx", not the promised "h" |
| AsWritten.ZeroBufsizeOverruns | queue.c:110 | with `bufsize` 0 the copy length wraps to the largest `size_t` and overruns the buffer; the documented copy writes nothing |
| AsWritten.SizeOfNull | queue.c:123-130 | `q_size(NULL)` dereferences NULL; the documentation promises 0 |
| AsWritten.UncheckedTextAllocation | queue.c:48-50 | a failed string allocation in either insert (lines 49 and 79) is written through; the documented inserts fail and change nothing |
| AsWritten.NullQueueLeaksNode | queue.c:42-46 | with a NULL `q` either insert (lines 43-44 and 74-75) allocates an element it never frees; the documented inserts allocate nothing |

## Left out

- `q_sort` (queue.c:175-179): the body is empty, so there is no behaviour to model. The ascending order its comment promises is not implemented.
- `q_free` (queue.c:26-31): it only releases memory, and it frees the header without the elements. The model has no deallocation of a whole queue.
- Allocation: `malloc` is an oracle parameter, not a call. Which address it returns is the caller's choice, within `malloc`'s guarantee that the address is not live.
- String storage: a stored string is a value, so the string's own allocation is the flag `textOk` and not a pointer. Strings leaked with the nodes they belong to are not tracked separately.
- The width of `size`: it is an unbounded integer, so overflow of the C counter is not modelled. `queue.h`, which declares it, is not part of this model.
- Characters are Dafny `char` and not C bytes. `sizeof` and `strlen` arithmetic are implicit in string lengths.
- `Trace.Run` covers inserts and removals. `q_reverse` is a method, so it cannot occur inside a function trace; `LinkedQueue.Reverse` states separately that it keeps the size and the invariant.
- The test harness and `harness.h` are not part of this model.

## Findings

| source | as written | input that shows it | evidently intended | confidence | as-written member | corrected member |
|---|---|---|---|---|---|---|
| queue.c:112-119 | `head` becomes NULL but `tail` keeps pointing at the freed node | remove the only element, then `q_insert_tail` or `q_insert_head` | set `tail` to NULL when `head` becomes NULL | high; not executed | AsWritten.TailNotReset, AsWritten.StaleTailWrittenThrough, AsWritten.StaleTailKeptByInsertHead | LinkedQueue.RemoveHead |
| queue.c:110 | `strncpy(sp, value, bufsize-1)` writes no NUL when the string has at least `bufsize-1` characters | "hello" into a 2-character buffer holding "xx" | write a NUL at `sp[bufsize-1]` | high; not executed | AsWritten.CopyNotTerminated, AsWritten.HelloInTwoChars | CStrings.CopyOut |
| queue.c:110 | `bufsize-1` wraps when `bufsize` is 0, and `strncpy` overruns the buffer | non-NULL `sp` with `bufsize` 0 | copy nothing when `bufsize` is 0 | medium; not executed | AsWritten.ZeroBufsizeOverruns | CStrings.CopyOut |
| queue.c:129 | `q->size` is read even when `q` is NULL | `q_size(NULL)` | return 0 for NULL | high; not executed | AsWritten.SizeOfNull | LinkedQueue.Size |
| queue.c:49 | the string's `malloc` result is never checked (also line 79) | string allocation fails after the element allocation succeeds | free the element and return false | high; not executed | AsWritten.UncheckedTextAllocation | LinkedQueue.InsertHead |
| queue.c:43-44 | the element is allocated before `q` is checked and is leaked when `q` is NULL (also lines 74-75) | `q_insert_head(NULL, s)` while `malloc` succeeds | check `q` before allocating | high; not executed | AsWritten.NullQueueLeaksNode | LinkedQueue.InsertHead |

# String queue (lab0-c `queue.c`) in Dafny

This project models the string queue of `queue.c`. The queue is a singly
linked list of elements (`list_ele_t`). Each element holds its own copy of a
NUL-terminated string and a `next` link. A queue record (`queue_t`) keeps
`head`, `tail` and the element count `size`.

The model covers creation, teardown, insertion at either end, removal at the
head with a bounded copy into a caller's buffer, the size query and in-place
reversal by relinking. It is imperative, like the C code:

- Elements are objects of class `Node`, and the queue record is an object of
  class `Queue`.
- Every operation updates `head`, `tail`, `size` and the `next` links in
  place.
- Two ghost fields tie the heap to an abstract view: `nodes` is the chain of
  elements from head to tail and `contents` their strings.
- `Queue.Valid()` is the queue invariant:
  - `size` counts the elements;
  - the elements are distinct and linked in order, the last one by a NULL link;
  - every element holds its string;
  - `tail` is NULL exactly when the queue is empty and is the last element
    otherwise.

A C `queue_t *` that may be NULL is a `Queue?`. A failed `malloc` is a boolean
input. The copy-out buffer is an `array<char>` whose C string is read back with
`CStrings.CString`.

The files:

- `cstrings.dfy` (module `CStrings`): C strings in buffers, and the bounded
  copy that `q_remove_head` promises.
- `sequences.dfy` (module `Sequences`): reversal and distinctness of sequences.
- `queue.dfy` (module `StringQueue`): the queue itself, its operations and
  client scenarios.

Where the comments in `queue.c` and its code disagree, the model follows the
comment, because it states the contract the callers rely on. Two of these
differences are also modelled as written, beside the corrected version, and
are recorded under "Findings": the tail insertion into an empty queue and the
unterminated copy in `q_remove_head`. The others are undefined behaviour in C
and are listed under "Left out": the copy through a `value` pointer that is
never allocated, the NULL dereference in `q_reverse`, `memmove` with a NULL
`sp`, and a capacity of 0. `q_sort` is the exception: its body is empty, and
the model follows that code rather than its comment.

## Model

| member | source | states |
|---|---|---|
| StringQueue.New | queue.c:15-25 | returns NULL exactly when allocation fails, and otherwise a fresh valid queue with NULL head and tail, size 0 and no contents |
| StringQueue.Queue.constructor | queue.c:19-23 | a new record is a valid empty queue |
| StringQueue.Free | queue.c:28-44 | NULL releases nothing; otherwise, for any well-formed chain (also one whose tail was left NULL by the tail insertion as written), the walk from head releases each element's payload and then the element, in queue order, then the queue record, and head ends NULL |
| StringQueue.ReleaseOrderAt | queue.c:35-40 | the walk yields two releases per element: the k-th payload at position 2k and its element right after it |
| StringQueue.ReleasedAsOftenAsLinked | queue.c:35-40 | an element is released as many times as it occurs in the chain |
| StringQueue.ReleasedOnce | queue.c:35-40 | in a chain of distinct elements, every element is released exactly once |
| StringQueue.InsertHead | queue.c:45-72 | false with nothing changed for NULL or a failed allocation; otherwise contents become [s] + old, size grows by 1, the new element is the head, it is also the tail if the queue was empty, and the queue stays valid |
| StringQueue.LinkFront | queue.c:68-70 | linking a new element before head makes it the first element and is counted; the tail pointer is left alone |
| StringQueue.LinkAfterTail | queue.c:96-100 | linking a new element after the tail keeps the queue valid, appends it and makes it the tail |
| StringQueue.InsertTail | queue.c:73-102 | false with nothing changed for NULL or a failed allocation; otherwise contents become old + [s], size grows by 1, the new element is the tail (also on an empty queue), head is unchanged unless the queue was empty, and the queue stays valid |
| StringQueue.InsertTailAsWritten | queue.c:80-102 | the code as written: an insertion while tail is NULL puts the string in front and leaves tail NULL; otherwise it appends and sets tail |
| StringQueue.TailInsertAsWrittenWitness | queue.c:92-94 | with the code as written, tail-inserting "a" and then "b" into a new queue leaves "b" at the front and tail still NULL |
| CStrings.CString | queue.c:108-109 | a buffer holds a C string exactly when it has a NUL; the string is the NUL-free prefix before the first NUL |
| CStrings.CopyLength | queue.c:108-109 | the copy keeps at most bufsize - 1 characters, and fewer only when the whole string fits |
| CStrings.BoundedCopy | queue.c:108-109 | a bounded copy changes no cell past its terminator and keeps the buffer length |
| CStrings.BoundedCopyReadsBack | queue.c:108-109 | after the bounded copy the buffer reads back as the first min(len, bufsize - 1) characters of the string, and as the whole string when it is shorter than bufsize |
| CStrings.TruncationExample | queue.c:108-109 | "hello" copied into a buffer of capacity 3 reads back as "he" |
| CStrings.MemmoveAsWritten | queue.c:117 | the bytes the code as written leaves: the first bufsize - 1 bytes of the stored payload (its terminator only when it lies within them), the rest of the buffer unchanged |
| CStrings.MemmoveAsWrittenNoTerminator | queue.c:117 | with the code as written, whenever the payload has at least bufsize - 1 characters (a capacity of the payload length + 1 included) and the rest of the buffer has no NUL, the buffer holds no C string afterwards |
| CStrings.MemmoveAsWrittenCarriesTerminator | queue.c:117 | with the code as written, a capacity of exactly the payload length + 2 moves the payload with its terminator, and the buffer reads back as the payload |
| CStrings.MemmoveAsWrittenUnterminated | queue.c:117 | with the code as written, "hello" removed into a 3-cell buffer holding "xyz" leaves no C string at all, while the documented copy gives "he" |
| StringQueue.RemoveHead | queue.c:104-125 | false with nothing changed for NULL or an empty queue; otherwise contents and nodes lose their first entry, size drops by 1, tail is NULL exactly when the queue became empty, and a non-NULL sp holds the bounded copy of the removed string (untouched for capacity 0) |
| StringQueue.Size | queue.c:127-136 | 0 for NULL; otherwise the number of elements, which is exactly the number of links from head that reach an element before NULL |
| StringQueue.Queue.HopReachesNode | queue.c:131-136 | following k links from head reaches the k-th element for k < size and NULL from size on |
| StringQueue.Reverse | queue.c:138-158 | no effect for NULL or an empty queue; otherwise the queue stays valid with the same size, nodes and contents are the reverse of the old ones, the elements are the same multiset, and the old tail is the head and the old head the tail |
| StringQueue.ReverseLinks | queue.c:147-156 | on a non-empty valid queue, the links are turned around; the reversed chain runs from the old tail to the old head |
| StringQueue.ReverseChain | queue.c:148-155 | turning the links of a chain around yields the reversed chain, which starts at the old last element |
| StringQueue.FlipLinks | queue.c:148-155 | the prev/cur/next sweep points each element back at its predecessor and the first element at NULL, changes no payload and returns the old last element |
| StringQueue.ReversedChain | queue.c:150-156 | backward links over distinct elements form a well-formed chain of the reversed elements and payloads |
| StringQueue.ReverseTwice | queue.c:145-158 | reversing twice restores nodes, contents, head and tail |
| Sequences.ReversedInvolutive | queue.c:145-158 | reversing a sequence twice gives it back |
| Sequences.ReversedPermutation | queue.c:141-143 | reversal neither adds nor drops an element, which is what "no element allocated or freed" promises |
| StringQueue.InsertRemoveRoundTrip | queue.c:52-125 | a NUL-free string inserted at either end of a new queue and removed into a buffer one longer reads back unchanged |
| StringQueue.RemoveTwo | queue.c:112-125 | two removals from a queue holding x then y yield x first and y second and leave it empty and valid |
| StringQueue.FifoScenario | queue.c:80-125 | strings tail-inserted as "a" then "b" into a new queue are removed as "a" first and "b" second |
| StringQueue.HeadRoundTrip | queue.c:52-125 | on every valid queue, a NUL-free string inserted at the head and removed into a buffer one longer reads back unchanged, and the queue's contents are restored |
| StringQueue.ReverseScenario | queue.c:80-158 | after a reversal, the last string inserted at the tail comes out first |
| StringQueue.Sort | queue.c:160-165 | the empty body keeps the queue valid and, modifying nothing, has no effect, which is what the comment asks for NULL, empty and single-element queues |

## Left out

- Storage management. The model has no counterpart of `malloc` and `free`.
  - A failed allocation is an input flag.
  - An element that is unlinked counts as released.
  - `StringQueue.Free` reports the order of its `free` calls as a list of
    release events.
  - `StringQueue.RemoveHead` releases without reporting it.
  - Use-after-free, leaks and double frees cannot be stated beyond
    "every element released once".
- The payload copy in `q_insert_head` and `q_insert_tail` (queue.c:67,
  queue.c:91). It writes through the element's `value` pointer, which is never
  allocated, so it is undefined behaviour that Dafny cannot express.
  - The model follows the comment at queue.c:50: the element owns its own copy
    of the string.
  - That copy's allocation can fail: the `payloadAlloc` flag.
  - `StringQueue.InsertTailAsWritten` leaves this copy aside because it has no
    effect the model could observe.
- The `strlcpy` macro over `snprintf` (queue.c:8-10). A copy of a whole string
  is a Dafny sequence value.
- `q_insert_tail` allocates before its NULL check and then frees that element
  (queue.c:82-86). For NULL the model allocates nothing; either way nothing is
  left behind.
- StringQueue.Reverse: does not model the NULL dereference at queue.c:147. The
  comment at queue.c:140 says NULL has no effect, and the model follows it.
- StringQueue.RemoveHead: does not model `memmove` with a NULL `sp`, and does
  not model the wrap of `bufsize - 1` when `bufsize` is 0. Both are undefined
  behaviour as written (queue.c:117). The comment asks for no copy when `sp`
  is NULL, and the model writes nothing for capacity 0.
- Reads past the end of a stored payload made by `memmove` (queue.c:117) are
  not modelled. `CStrings.MemmoveAsWritten` requires bufsize - 1 to be within
  the stored payload and its terminator.
- `size` is an unbounded integer. The C `int` could overflow after 2^31 - 1
  insertions; that is not modelled.
- StringQueue.Sort: the body of `q_sort` is empty (queue.c:165). The model
  states only what the comment asks for the cases where doing nothing is
  correct. No sorting algorithm is modelled, because the source has none.
  A queue of two or more out-of-order strings stays unsorted.
- `harness.h` and `queue.h` are not part of this model. The record and element
  layouts follow their use in `queue.c`.

## Findings

| source | as written | input that shows it | evidently intended | confidence | as-written member | corrected member |
|---|---|---|---|---|---|---|
| queue.c:92-94 | when `tail` is NULL the new element is linked in front of `head` and `tail` stays NULL | a new queue, then q_insert_tail "a" and "b": "b" is at the front and tail is NULL | on an empty queue the new element becomes both head and tail, and later tail insertions append | high (not executed) | StringQueue.TailInsertAsWrittenWitness | StringQueue.InsertTail |
| queue.c:117 | `memmove(sp, value, bufsize - 1)` copies bufsize - 1 bytes and writes no terminator | "hello" removed into a 3-cell buffer holding "xyz" leaves "hez", which has no NUL | at most bufsize - 1 characters and then a terminator, as the comment at queue.c:108-109 says | high (not executed) | CStrings.MemmoveAsWrittenNoTerminator | CStrings.BoundedCopyReadsBack |

# A verified model of the lab0-c string queue

`queue.c` implements a queue of C strings on a circular, doubly-linked list in
the Linux-kernel `list_head` style. The list head is a sentinel node that also
serves as the queue handle. Each element owns a heap copy of its string. The
operations are:

- creation;
- insertion and removal at either end;
- counting by walking the ring;
- deleting the middle node with a slow and a fast walker;
- deleting every element that belongs to a run of equal adjacent strings;
- swapping adjacent pairs by relinking.

The model is written in Dafny in four modules:

- `Ring` (ring.dfy): the list engine. Memory is an arena of node addresses, and the sentinel sits at address `Head`. `Linked` says that the `next`/`prev` maps form one ring through a ghost sequence of nodes. The lemmas show what the relinking done by `list_add`, `list_add_tail`, `list_del` and the q_swap step does to that ring.
- `CStrings` (cstrings.dfy): C string conventions. These are the characters before the first NUL, and the order that `strcmp` gives.
- `QueueSpec` (queue_spec.dfy): what each operation does to the sequence of strings. `DropAt` covers the middle deletion, `SwapPairs` the pair swap, and `DropDuplicates` the duplicate deletion. It also holds the properties of these functions.
- `Queues` (queue.dfy): the queue itself.
  - Class `Queue` holds the memory one queue lives in: the maps `next`, `prev` and `value`, an allocation mark `top`, and the ghost ring order `nodes`.
  - `Valid()` ties the maps to the ring.
  - `Contents()` is the sequence of strings, head first.
  - Each `q_*` function is a method that takes a possibly-null `Queue?`, as the C takes a possibly-NULL `struct list_head *`. Each method does the same link updates and loops as the C, and is proved against the sequence functions of `QueueSpec`.

## Model

| member | source | states |
|---|---|---|
| Ring.Neighbours | queue.c:224-225 | following `next` from ring position `i` reaches position `i + 1` (the sentinel after the last node), and `prev` reaches `i - 1` |
| Ring.RingInvariant | queue.c:307 | in a well-linked ring, `next` then `prev` (and `prev` then `next`) leads back to every node; the ring is empty exactly when the sentinel links to itself, and has at most one node exactly when the sentinel's `next` and `prev` agree (`list_empty`, `list_is_singular`) |
| Ring.LinkedInsert | queue.c:107 | the four link updates of `list_add` and `list_add_tail` place a detached node at position `k` and keep one ring (queue.c:107 for `list_add`, queue.c:137 for `list_add_tail`) |
| Ring.InsertDistinct | queue.c:107 | a node not already in the ring, inserted at `k`, leaves no node repeated (queue.c:107 for `list_add`, queue.c:137 for `list_add_tail`) |
| Ring.InsertChained | queue.c:107 | after `list_add` or `list_add_tail`, every node is linked both ways to its new neighbours (queue.c:107 for `list_add`, queue.c:137 for `list_add_tail`) |
| Ring.LinkedRemove | queue.c:172 | the two link updates of `list_del` take the node at `k` out and keep the others in one ring, in order |
| Ring.RemoveDistinct | queue.c:172 | removing a node leaves no node repeated |
| Ring.RemoveChained | queue.c:172 | after `list_del`, every remaining node is linked both ways to its new neighbours |
| Ring.LinkedSwap | queue.c:316-321 | the six link updates of one q_swap step exchange the nodes at `k` and `k + 1` and keep one ring |
| Ring.SwapDistinct | queue.c:316-321 | exchanging two positions leaves no node repeated |
| Ring.SwapChained | queue.c:316-321 | after the six updates, every node is linked both ways to its new neighbours |
| CStrings.CString | queue.c:166-169 | the string a C reader sees in a buffer has no NUL, is a prefix of the buffer, and is followed by a NUL unless it fills the buffer |
| CStrings.CStringOfTerminated | queue.c:103-104 | a buffer holding a NUL-free string followed by a NUL reads back as exactly that string |
| CStrings.StrLeAntisymmetric | queue.c:269-270 | the `strcmp` order is antisymmetric: two strings each at most the other are equal |
| CStrings.StrLeTransitive | queue.c:269-270 | the `strcmp` order is transitive |
| QueueSpec.DropAt | queue.c:255-258 | removing index `k` shortens by one, keeps the elements before `k`, shifts those after it down by one, and takes exactly that element out of the multiset |
| QueueSpec.DropAtJoin | queue.c:290 | dropping the element that follows a prefix keeps the prefix and the remainder |
| QueueSpec.SwapPairsExchanges | queue.c:302-327 | every position of the swapped sequence holds its pair partner's element; a last unpaired element stays |
| QueueSpec.SwapPairsInvolution | queue.c:302-327 | swapping pairs twice gives back the original sequence |
| QueueSpec.SwapPairsPermutes | queue.c:302-327 | swapping pairs keeps the multiset of values |
| QueueSpec.SwapPairsSplit | queue.c:314-326 | the pair swap acts on an even-length prefix and on the rest independently |
| QueueSpec.SwapPairsStep | queue.c:314-326 | exchanging positions `k` and `k + 1` after a swapped prefix of even length `k` extends the swapped prefix by one pair |
| QueueSpec.SwappedBelowIsSwapPairs | queue.c:314-326 | the state after `k / 2` swap steps is the prefix of length `k` swapped, followed by the untouched rest |
| QueueSpec.SwappedBelowStep | queue.c:314-326 | the next two positions still hold their original elements, and swapping them is the next state |
| QueueSpec.SwapPairsDone | queue.c:326 | when fewer than two positions remain, the state is the full pair swap |
| QueueSpec.SurvivorsStep | queue.c:286-294 | the scan drops position `i` exactly when it has an equal neighbour, and otherwise keeps it |
| QueueSpec.ScanStep | queue.c:287-293 | the comparison with the successor, together with the carried `found_dup` flag, decides exactly whether position `i` has an equal neighbour; the new flag is that comparison, and the queue becomes the survivors of one more position |
| QueueSpec.DropDuplicatesShort | queue.c:281-283 | a queue of at most one element has nothing to delete |
| QueueSpec.Kept | queue.c:286-294 | the entries kept by the scan of the first `k` positions are as many as the strings that survive it |
| QueueSpec.KeptValues | queue.c:286-294 | keeping the strings themselves gives exactly the survivors, so the kept nodes carry the surviving strings |
| QueueSpec.KeptStep | queue.c:287-293 | the scan drops the node at position `i` exactly when its string has an equal neighbour, and otherwise keeps it after those kept so far |
| QueueSpec.KeptDone | queue.c:286 | once every position is visited, the ring is the full `Kept` of the old ring |
| QueueSpec.KeptShort | queue.c:281-283 | with at most one node, every node is kept |
| QueueSpec.SurvivorsMembers | queue.c:286-294 | a value is kept exactly when it sits at some position with no equal neighbour |
| QueueSpec.SortedNeighbours | queue.c:269-270 | in a sorted sequence, having no equal neighbour is the same as the value occurring once |
| QueueSpec.DropDuplicatesKeepsUnique | queue.c:263-270 | on sorted input, the values kept are exactly those that occur once |
| QueueSpec.SurvivorsStrictlySorted | queue.c:263-270 | on sorted input, the result is strictly ascending, so no value is left twice |
| QueueSpec.SurvivorsOfStrict | queue.c:286-294 | with no two equal neighbours, nothing is deleted |
| QueueSpec.DropDuplicatesIdempotent | queue.c:263-297 | on sorted input, deleting duplicates twice equals deleting them once |
| QueueSpec.DropDuplicatesNeedsSorted | queue.c:269-270 | on the unsorted `["b","a","a","b"]`, a second pass deletes more than the first, so idempotence needs the sorted precondition |
| Queues.ValuesAt | queue.c:163 | the string at position `i` of the contents is the one owned by the node at ring position `i` |
| Queues.ValuesPointwise | queue.c:163 | every position of the contents holds its node's string |
| Queues.ValuesFrame | queue.c:103-104 | writing a string into a node outside the ring does not change the contents |
| Queues.Truncated | queue.c:147 | the copy-out text is at most `m` characters, a prefix of the value, and the whole value when it fits |
| Queues.InsertWellformed | queue.c:107 | `list_add` or `list_add_tail` of a fresh node that owns a NUL-free string keeps the memory consistent: one ring, every node owning a string, every address allocated (queue.c:107 for `list_add`, queue.c:137 for `list_add_tail`) |
| Queues.ValuesInsert | queue.c:107 | inserting a node at `k` inserts its string at position `k` of the contents (queue.c:107 for `list_add`, queue.c:137 for `list_add_tail`) |
| Queues.RemoveWellformed | queue.c:172 | `list_del` keeps the memory consistent, and the contents lose exactly position `k` |
| Queues.SwapWellformed | queue.c:316-321 | one swap step keeps the memory consistent and exchanges the two strings in the contents |
| Queues.ValuesSwap | queue.c:316-321 | exchanging two adjacent nodes exchanges their strings in the contents |
| Queues.ValuesSwapPairs | queue.c:302-327 | swapping the pairs of nodes swaps the pairs of strings |
| Queues.ReleaseWellformed | queue.c:206-210 | releasing an element that is no longer linked keeps the memory consistent and the contents unchanged |
| Queues.Queue.constructor | queue.c:22-24 | INIT_LIST_HEAD: the sentinel links to itself and the contents are empty |
| Queues.Queue.ElementAlloc | queue.c:52-80 | either fails and changes nothing, or hands out an address that is neither the sentinel, nor in the ring, nor owning a string, and changes nothing else |
| Queues.Queue.Link | queue.c:107 | `list_add` (at the front) or `list_add_tail` (at the back) between the nodes at `k - 1` and `k`: the new node is at position `k`, its string is at position `k` of the contents, and the strings stay as they were (queue.c:107 for `list_add`, queue.c:137 for `list_add_tail`) |
| Queues.Queue.Unlink | queue.c:172 | `list_del` of the node at `k`: the node leaves the ring, and the contents lose exactly position `k` |
| Queues.Queue.SwapAdjacent | queue.c:316-321 | the nodes at `k` and `k + 1` change places, and the first one's `next` is the node after the pair |
| Queues.Queue.Discard | queue.c:290-291 | `list_del` then `q_release_element`: the node leaves both the ring and memory, its string goes and every other string stays, the ring loses exactly that element, and the contents lose position `k` |
| Queues.Queue.DeleteIfDup | queue.c:287-293 | one pass of the dedup loop: `cmp` holds exactly when the node has a successor with an equal string; the node is discarded when `cmp` or the carried flag holds, which removes exactly its string from memory and it from the ring, and otherwise nothing changes; the returned successor is the next node to visit |
| Queues.Queue.Release | queue.c:206-210 | the node's string and links leave memory, and the ring and contents stay |
| Queues.New | queue.c:18-27 | either null (allocation failure) or a fresh, empty queue whose sentinel links to itself |
| Queues.InsertHead | queue.c:89-110 | false for a null queue, or for a failed allocation leaving the queue unchanged; otherwise the contents become `[s] + old`, and the ring becomes the old ring with one new node in front that owned no string before; strings already owned stay untouched |
| Queues.InsertTail | queue.c:119-140 | false for a null queue, or for a failed allocation leaving the queue unchanged; otherwise the contents become `old + [s]`, and the ring becomes the old ring with one new node at the back that owned no string before; strings already owned stay untouched |
| Queues.CopyOut | queue.c:166-169 | `sp[bufsize - 1]` is NUL, the bytes before it hold the value's first characters (and its terminator when it is shorter), nothing at or after `bufsize` is written, and a C reader sees the value cut to `bufsize - 1` characters |
| Queues.RemoveHead | queue.c:156-175 | None, changing neither the queue nor `sp`, for a null or empty queue; otherwise it returns the first node, which has left the ring (the ring becomes `old[1..]`) but keeps its string, the contents become `old[1..]`, and the string is copied out when `sp` is not null |
| Queues.RemoveTail | queue.c:181-200 | None, changing neither the queue nor `sp`, for a null or empty queue; otherwise it returns the last node, which has left the ring (the ring loses its last node) but keeps its string, the contents drop their last string, and the string is copied out when `sp` is not null |
| Queues.Size | queue.c:216-228 | 0 for a null queue, otherwise the number of elements: the walk of the ring meets each node once |
| Queues.DeleteMid | queue.c:238-261 | true exactly for a non-null, non-empty queue; then the node at index ⌊n/2⌋ leaves the ring and its string leaves memory, the other nodes keep their order and every other string stays; otherwise nothing changes |
| Queues.FindMid | queue.c:246-252 | on a non-empty queue, the slow walker stops at ring position ⌊n/2⌋ when the fast walker, taking two steps per step, reaches the sentinel; the queue is not written |
| Queues.ElemsDropAt | queue.c:290 | unlinking position `k` of a ring with no repeated node takes exactly that node out of the set of ring elements |
| Queues.ShrunkByRelease | queue.c:290-291 | when the released nodes are exactly those that left the ring, every remaining string is unchanged, strings outside the ring stay, and the nodes that left own no string |
| Queues.ReleaseOneMore | queue.c:290-291 | releasing one more node of the ring adds it to the released nodes, for the strings and for the ring elements alike |
| Queues.DedupStep | queue.c:287-293 | one turn of the loop at position `i` of the original strings: the carried flag becomes the comparison of `s[i]` with `s[i + 1]`, the contents become the survivors of one more position, the ring becomes the kept nodes of one more position followed by the unvisited ones, and the released nodes grow by the node when it was discarded |
| Queues.DedupScan | queue.c:286-294 | the whole loop: the contents become `DropDuplicates` of the old ones, the ring becomes exactly the old nodes at positions without an equal neighbour, in their old order (`Kept`), and the strings only shrink as `Shrunk` describes |
| Queues.DedupLoop | queue.c:286-294 | the walk from a snapshot of the queue: the contents become `DropDuplicates` of the snapshot, the ring becomes `Kept` of the snapshot's ring, and the strings lost are exactly those of the nodes that left the ring |
| Queues.DeleteDup | queue.c:272-297 | false exactly for a null queue; otherwise the contents become `DropDuplicates` of the old contents, on any input; the ring keeps exactly the old nodes at positions without an equal neighbour, in their old order; no string changes, strings of nodes outside the ring stay, and exactly the nodes that left the ring lose their strings |
| Queues.Swap | queue.c:302-327 | the ring order and the contents become the pairwise swap of the old ones; the strings and `top` are untouched; a non-null queue of at most one node is unchanged |
| Queues.Reverse | queue.c:336 | the body is empty: the queue object is not written (no `modifies`) and its contents are unchanged |
| Queues.Sort | queue.c:343 | the body is empty: the queue object is not written (no `modifies`) and its contents are unchanged |

Together, `Queues.New`, `Queues.Size`, the insert and remove contracts (contents grow or shrink by exactly one element) give `q_size` as inserts minus successful removes after any sequence of calls.

## Left out

- `q_free` (queue.c:30-43) only frees memory. It is not modelled: the arena has no notion of freed memory beyond dropping a node from the maps, as `Queues.Queue.Release` does.
- `malloc`, `free` and the test harness allocator are replaced by a nondeterministic choice. `Queues.New` and `Queues.Queue.ElementAlloc` may fail; which call fails is not modelled.
- The two separate allocations inside `element_alloc` (value, then element) become one choice. A failure of either one leaves nothing behind, which is all the caller can observe.
- The `LIST_POISONING` block (queue.c:69-72) is a debug aid and is left out.
- `strcmp(a, b) == 0` is modelled as equality of the two character sequences. `strlen` and `memcpy` into the element are modelled as storing the string.
- Queues.InsertHead and Queues.InsertTail require `|s| < IntMax`. The C stores `strlen(s)` in an `int` (queue.c:97, queue.c:127), and longer strings would be truncated.
- Queues.RemoveHead and Queues.RemoveTail say nothing about `sp[|v| + 1 .. bufsize - 2]`. The C copies `bufsize - 1` bytes from a value whose allocation holds only `|v| + 1` (queue.c:167, queue.c:192), so those bytes come from beyond the allocation. The model writes only the value's characters and its terminator there.
- Queues.RemoveHead and Queues.RemoveTail require `1 <= bufsize` when `sp` is not null and the queue is not empty. With `bufsize == 0`, the C computes `bufsize - 1` as `SIZE_MAX` (queue.c:167-168, queue.c:192-193) and writes far outside `sp`; the model does not cover that call.
- Queues.Size returns an unbounded integer. The C `int` counter would overflow past `INT_MAX` elements.
- Queues.Reverse and Queues.Sort are no-ops because their bodies in queue.c are empty (queue.c:336, queue.c:343). The comments above them (queue.c:330-342) describe a reversal and an ascending sort, but the bodies are empty, and the model follows the code.
- Queues.DeleteDup is modelled on any input, as the code runs on any input. The sorted-input precondition of its comment appears only in the lemmas that need it: `DropDuplicatesKeepsUnique`, `SurvivorsStrictlySorted` and `DropDuplicatesIdempotent`.
- Each `Queue` object is the memory of one queue. Moving an element between queues, and two handles that alias one ring, are not modelled.

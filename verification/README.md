# First-fit memory allocator over singly-linked block lists

A Dafny model of a small managed memory space. A `MemorySpace` owns two
singly-linked lists of memory blocks (`baseAddress`, `length`): the free
list and the allocated list. A new space of `maxSize` words starts with the
single free block `(0, maxSize)`.

- `malloc(length)` takes the low end of the first free block long enough
  (first fit). It returns that block's base address, or -1 when no single
  block is long enough.
- `free(address)` moves the first allocated block based at `address` to
  the end of the free list.
- `defrag` merges free blocks that are contiguous in list order.

The list (`LinkedList`) supports:

- positional insertion (`add`, `addFirst`, `addLast`);
- lookup by index (`getNode`, `getBlock`) and by value (`indexOf`);
- three removals: by node, by index and by block.

## How the model is built

- **Blocks.** A block is the value `Block(baseAddress, length)`. Equality
  is structural.
- **Lists.** A list is `List(chain, size, last)`:
  - `chain` holds the blocks of the nodes reachable from `first`, in link
    order;
  - `size` is the raw counter;
  - `last` is a node reference: `Null`, `At(p)` (the node at position `p`
    of the chain) or `Detached` (a node no longer reachable from `first`).
- **Consistency.** The counter and `last` are kept as fields of their
  own. `defrag` rewrites links behind the list's back, so both can go
  stale. `Valid` says when they agree with the chain.
- **Totality.** Every list operation is total over all states, stale ones
  included. It returns `Err(IllegalArgument)` where the Java code throws
  `IllegalArgumentException`, and `Err(NullPointer)` where it would
  dereference null.
- **Allocator results.** Allocator calls return
  `Returned(value, space)` or `Threw(error, space)`. The space is carried
  on a throw because Java does not roll back changes made before the
  exception.
- **Accounting.**
  - `Cover(c, x)` counts the blocks of `c` that contain address `x`.
  - `Total(c)` sums the lengths.
  - `Accounting.Inv(s, maxSize)` says:
    - both lists are consistent and every length is positive;
    - the lengths add up to `maxSize`;
    - every address of `[0, maxSize)` lies in exactly one block of exactly
      one list, and no other address lies in any block.

The files are `results.dfy` (Option, Result, errors), `seqs.dfy` (insertion,
deletion, first index, subsequence), `blocks.dfy` (blocks, `Total`,
`Cover`), `linked_list.dfy`, `coalesce.dfy` (the merge pass of `defrag`),
`memory_space.dfy`, `accounting.dfy` and `scenarios.dfy` (concrete runs).

## Model

| member | source | states |
|---|---|---|
| LinkedList.Empty | LinkedList.java:13-17 | A new list has no nodes, size 0 and no last node, and it is consistent. |
| LinkedList.GetNode | LinkedList.java:59-72 | Fails with IllegalArgument exactly when the index is negative or above size. `index == size` is accepted. For any accepted index, a position inside the chain gives the node there, the chain length gives the null link past the tail, and on a consistent list `index == size` gives that null link. When the counter overstates the chain and the index is past its end, walking past the null link throws NullPointer. |
| LinkedList.Add | LinkedList.java:93-116 | Fails with IllegalArgument exactly when the index is outside `[0, size]`. On a consistent list the result is consistent and its chain is the old chain with the block inserted at the index, all other blocks in order. |
| LinkedList.AddLast | LinkedList.java:126-136 | On a consistent list it appends the block and stays consistent. On a size-0 list the block becomes both first and last. Linking onto a detached `last` raises the counter but leaves the chain unchanged. It throws NullPointer exactly when size is nonzero and `last` is null. |
| LinkedList.AddFirst | LinkedList.java:145-154 | Prepends the block and raises the counter. It keeps a consistent list consistent, and the new node becomes the last one when size was 0. |
| LinkedList.AddToEmpty | LinkedList.java:100-105 | On an empty list, `add(0, b)`, `addFirst(b)` and `addLast(b)` all give the one-node list whose first and last node hold `b`. The other halves of the citation are at 128-129 and 150-152. |
| LinkedList.AddAtEnds | LinkedList.java:93-154 | On a consistent list, `add(0, b)` is `addFirst(b)` and `add(size, b)` is `addLast(b)`. |
| LinkedList.GetBlock | LinkedList.java:166-177 | Rejects an index outside `[0, size)`. Whenever `size` is at most the chain length, it succeeds exactly inside that range, so the null check behind the bound can fire only when the counter overstates the chain. Any success returns the block at that chain position. |
| LinkedList.GetBlockAfterAdd | LinkedList.java:93-116 | After `add(index, b)` on a consistent list, `getBlock(index)` returns `b`. |
| LinkedList.IndexOf | LinkedList.java:187-194 | On a consistent list the result is in `[-1, size)`. It is -1 exactly when the block is absent. Otherwise it is the smallest position holding an equal block. |
| LinkedList.UnlinkValid | LinkedList.java:239-252 | Unlinking a reachable node from a consistent list deletes exactly that element and keeps `first`, `last` and the counter consistent. This covers the sole, head, tail and interior cases. |
| LinkedList.RemoveNode | LinkedList.java:203-224 | Throws exactly on a null reference, and leaves an empty list alone. A reachable node is deleted and the list stays consistent. For an unreachable node the chain and `last` stay as they were, but the counter drops by one, so a consistent list becomes inconsistent. |
| LinkedList.RemoveAt | LinkedList.java:234-253 | Fails with IllegalArgument exactly when the index is outside `[0, size)`. On a consistent list it deletes exactly that element and stays consistent. Any success decrements the counter. |
| LinkedList.RemoveBlock | LinkedList.java:263-293 | Fails exactly when the block is absent, which includes the empty list. Otherwise it unlinks the first equal element only, keeping later duplicates and the order. On a consistent list it stays consistent and removes one occurrence from the multiset of blocks. |
| LinkedList.RemoveAtAfterAdd | LinkedList.java:93-116 | `remove(index)` undoes `add(index, b)` on a consistent list. |
| LinkedList.RemoveBlockIsRemoveAtFirstIndex | LinkedList.java:263-293 | On a consistent list, removing a present block equals removing at its first index. |
| LinkedList.RemoveNodeIsRemoveAt | LinkedList.java:203-224 | Removing the node that `getNode(index)` returns equals `remove(index)`. |
| MemorySpace.New | MemorySpace.java:19-23 | A new space has free list `[(0, maxSize)]` and an empty allocated list, both consistent. |
| MemorySpace.FirstFit | MemorySpace.java:37-64 | Finds nothing exactly when every free block is shorter than the request. Otherwise it finds a long-enough block, and every earlier block is strictly shorter. |
| MemorySpace.Malloc | MemorySpace.java:32-67 | A length of 0 or less throws and changes nothing. On a consistent space the call returns and stays consistent. When no block fits it returns -1 and changes nothing. Otherwise it returns the first fit's base and appends `(base, length)` to the allocated list. An exact fit removes exactly that free entry, and a larger fit replaces it in place by `(base+length, rest)`. |
| MemorySpace.TakeFrom | MemorySpace.java:46-55 | On a consistent free list the update succeeds and stays consistent: an exact fit deletes exactly that entry (by index at the head, by value elsewhere, which lands on the same position because no earlier block is as long), and a larger fit shrinks it in place to `(base+length, rest)`. |
| MemorySpace.PlaceAt | MemorySpace.java:43-59 | On a consistent space, serving a request from the first fit returns that block's old base, appends `(base, length)` to the allocated list, updates the free chain as above, and leaves both lists consistent. |
| MemorySpace.FirstBase | MemorySpace.java:75-94 | Finds nothing exactly when no allocated block has that base. Otherwise it finds the first block with that base. |
| MemorySpace.Free | MemorySpace.java:74-97 | Throws IllegalArgument and changes nothing when no allocated block has that base. On a consistent space it removes the first such block from the allocated list and appends it, unchanged, to the free list. |
| MemorySpace.FreeOntoDetachedLast | MemorySpace.java:74-97 | When the free list's `last` is a detached node, `free` still returns and removes the block from the allocated list, but the free chain stays as it was, so the block reaches neither list. |
| MemorySpace.Defrag | MemorySpace.java:111-125 | Leaves the allocated list, and the free list's counter, as they were. It leaves no two list-consecutive free blocks contiguous, and keeps the total free length. |
| MemorySpace.DefragOnMergedChain | MemorySpace.java:111-125 | On a free chain with no contiguous neighbours, `defrag` changes nothing (given that `last` does not name a position past the chain). |
| MemorySpace.DefragIdempotent | MemorySpace.java:111-125 | A second `defrag` changes nothing: neither the chain, nor `last`, nor the counter. |
| MemorySpace.DefragLeavesListStale | MemorySpace.java:111-125 | If a merge shortens a consistent free list, the list is no longer consistent, because the counter was not updated. `last` is then the new tail or a spliced-out node. |
| MemorySpace.DefragFixed | MemorySpace.java:111-125 | The same merged chain as `defrag`, but with the counter and `last` brought up to date, so the free list is consistent. |
| Coalescing.CoalesceFrom | MemorySpace.java:114-124 | The pass from a current node keeps that node's base first and never lengthens the chain. No two consecutive blocks it leaves are contiguous. |
| Coalescing.CoalesceTotal | MemorySpace.java:118-120 | Merging keeps the sum of the free lengths. |
| Coalescing.CoalesceCover | MemorySpace.java:118-120 | For nonnegative lengths, each address is covered by as many merged blocks as before. |
| Coalescing.CoalesceKeepsOrder | MemorySpace.java:114-124 | The surviving base addresses are a subsequence of the original ones, in list order. |
| Coalescing.CoalesceFixpoint | MemorySpace.java:114-124 | On a chain with no contiguous neighbours the pass changes nothing, and every in-range node reference keeps its position. |
| Coalescing.CoalesceIdempotent | MemorySpace.java:111-125 | A second pass changes neither the chain nor any node reference. |
| Coalescing.CoalesceTail | MemorySpace.java:120 | The old tail node is either the new tail or spliced out. |
| Accounting.NewInv | MemorySpace.java:19-23 | A new space of positive size satisfies the invariant: lengths sum to `maxSize` and each address in range is owned exactly once. |
| Accounting.MallocPreservesInv | MemorySpace.java:44-58 | `malloc` keeps the invariant: total length and single ownership of every address across both lists. |
| Accounting.FreePreservesInv | MemorySpace.java:81-88 | `free` keeps the invariant. |
| Accounting.DefragConserves | MemorySpace.java:118-120 | `defrag` as written keeps the tracked total and the owner count of every address, and keeps lengths positive. |
| Accounting.DefragFixedPreservesInv | MemorySpace.java:111-125 | The corrected `defrag` keeps the whole invariant. |
| Accounting.InvDisjointInBounds | MemorySpace.java:44-58 | Under the invariant, all blocks of both lists are pairwise disjoint and lie inside `[0, maxSize)`. |
| Accounting.MallocThenFree | MemorySpace.java:32-97 | Under the invariant, when some free block is long enough, `malloc` succeeds and returns a nonnegative address. Freeing that address returns, restores the allocated chain and restores the total free length. |
| Accounting.RunPreservesInv | MemorySpace.java:32-125 | Any sequence of requests keeps the invariant, when `defrag` is the corrected pass. |
| Accounting.RunFromNew | MemorySpace.java:19-125 | From a new space of positive size, every sequence of requests keeps the invariant when `defrag` is the corrected pass (`DefragFixed`). |
| Scenarios.WorkedMalloc30 | MemorySpace.java:32-67 | On a 100-word space, `malloc(30)` returns 0 and leaves free `[(30,70)]` and allocated `[(0,30)]`. |
| Scenarios.WorkedMalloc20 | MemorySpace.java:32-67 | Then `malloc(20)` returns 30. |
| Scenarios.WorkedFree0 | MemorySpace.java:74-97 | Then `free(0)` leaves the free list `[(50,50),(0,30)]`. |
| Scenarios.WorkedDefrag | MemorySpace.java:111-125 | Then `defrag` changes nothing, since 0+30 is not 50. |
| Scenarios.DefragThenFreeLosesWords | MemorySpace.java:111-125 | With `defrag` as written, a run from a new 100-word space ends with 90 tracked words. |
| Scenarios.StaleLastThrows | MemorySpace.java:74-97 | After that run, emptying the free chain makes a later `free` throw. The throw comes after the block has already left the allocated list. |
| Scenarios.CorrectedDefragKeepsWords | MemorySpace.java:111-125 | The same run with the corrected `defrag` keeps all 100 words. |

## Left out

- `toString` in both classes and `iterator()`: they only render the lists as text.
- `setFirst` and `setLast`: raw setters that the allocator never calls.
- `getFirst`, `getLast` and `getSize`: plain field reads. The model reads `chain`, `last` and `size` directly.
- MemoryBlock.java, Node.java and ListIterator.java are not part of this model.
  - `MemoryBlock.equals` is taken to compare both fields.
  - Within `malloc` and `free` the choice does not matter. The block passed to `remove(block)` is the one at the chosen position, and every earlier entry differs from it: it is shorter, or it has another base.
- Java's 32-bit `int`: lengths, addresses and the counter are unbounded integers, so overflow in `base + length` is not modelled.
- Node identity is positional. A node reference is a chain position or `Detached`.
  - What a detached node's own `next` field points to is not tracked.
  - It never affects the chain reachable from `first`, which is all that any operation reads.
- Exception classes and messages: failures are the two error values `IllegalArgument` and `NullPointer`.
- `remove(Node)` on a node not reachable from `first` leaves the chain and `last` unchanged but still decrements `size` (LinkedList.java:222-223); the model does the same.

## Findings

| source | as written | input that shows it | evidently intended | confidence | as-written member | corrected member |
|---|---|---|---|---|---|---|
| MemorySpace.java:111-125 | `defrag` relinks nodes directly and never updates the free list's `size` or `last`. When the tail node is merged away, `last` keeps naming the spliced-out node. The next `free` then hangs the freed block on that detached node, where no list can reach it. | `new MemorySpace(100)`; `malloc(50)`; `malloc(50)`; `free(0)`; `free(50)`; `defrag()`; `malloc(10)`; `free(0)`. Afterwards the lists hold 90 of the 100 words. A further `malloc(90)` then `free(10)` throws NullPointerException after removing the block from the allocated list. | Every freed block stays on the free list, and the lengths keep adding up to `maxSize`. | high; not executed | Scenarios.DefragThenFreeLosesWords | MemorySpace.DefragFixed |

# Buddy allocator model

A Dafny model of a binary buddy allocator (`buddy.c`, `buddy.h`). The allocator
manages an arena of `2^max_level` pages of `2^page_size_order` bytes. The arena
is seen as a complete binary tree. Node `i` has children `2i+1` and `2i+2`, and
level `l` holds blocks of `2^(max_level-l)` pages. The allocator keeps three
pieces of bookkeeping:

- `level`: one doubly linked free list per level;
- `used_index`: a bitmap with one bit per tree node, set while the node is
  allocated or split;
- a registry of block records (`level`, `address`, `next`, `prev`), one per node.

`balloc(order)` looks for the deepest non-empty list at or above level
`max_level - order`. It splits the head of that list down to the requested
level and hands out the resulting block. `bfree` gives a block back and
merges it with its buddy, level by level, while the buddy is free.

The model is built in layers:

- **`Geometry`** has block sizes (`buddy.h`) and the `Block` record.
- **`TreeIndex`** has the index arithmetic: `left_child`, `parent`,
  `block_to_idx`, `buddy_idx`, and the address of a node.
- **`Bitset`** has the bitmap bytes and masks.
- **`FreeList`** defines the intrusive lists as a predicate over the record
  sequence. It also has `insert` and `delete` as methods on the record array.
- **`StatusTree`** is the abstract buddy tree. Each node is `Free`,
  `Allocated`, `Split` or `Absent`. The module defines what one `balloc`
  (`AllocStatus`) and one `bfree` (`ReleaseStatus`) do to that tree, and proves
  that the free and allocated blocks always tile the arena.
- **`AllocatorState`** and **`AllocatorSteps`** define the invariant that ties
  the concrete arrays to the abstract tree, and show that every step of the
  source keeps it.
- **`Buddy.Allocator`** is a class with the three arrays as fields. Its methods
  follow the statements of `buddy_allocator_create`, `split`, `balloc` and
  `bfree`.
- **`Scenario`** is the deterministic opening of `test.c`, written as a client
  of the class.
- **`Findings`** holds two defects of the source, modelled as written.

How the C constructs are represented:

- A `block_t *` becomes the index of its record. `NULL` becomes `None`.
- A failed `balloc` returns `None`.
- `balloc` also returns a ghost `f`: the free block it started from.
  Contracts use it to name which block was carved.

## Model

| member | source | states |
|---|---|---|
| Geometry.BlockSizeAtLevel | buddy.h:23-25 | a block is never smaller than a page, and a block at `max_level` is exactly one page |
| Geometry.BlockSizeFormula | buddy.h:23-25 | the size at `level` is `2^(max_level-level) * page_size` |
| Geometry.Halving | buddy.h:23-25 | each level's block size is twice the next level's |
| Geometry.BlockSizeTiles | buddy.h:23-25 | `2^level` blocks of a level exactly cover the arena of `2^max_level` pages |
| Geometry.SizeIsPages | buddy.h:23-25 | every block size is a whole number of pages |
| Geometry.SizesFitU32 | buddy.h:23-25 | with `max_level + page_size_order <= 31`, every block size fits in `uint32_t` |
| Geometry.BlockSize | buddy.h:27-29 | a block's size times `2^level` is the arena size |
| Bitset.NumBytesForBitset | buddy.c:6-8 | the byte count is the least number of bytes that holds `num_bits` bits |
| Bitset.MaskIdx | buddy.c:33-35 | the mask has exactly one bit set, at `0x80 >> (idx % 8)`: bits are packed most significant first, index `8k` on the high bit and `8k+7` on the low bit |
| Bitset.MasksDisjoint | buddy.c:33-35 | two masks share a bit iff the indices agree modulo 8 |
| Bitset.SetBitCorrect | buddy.c:43-47 | after `mark_used`, bit `idx` reads set and every other bit is unchanged |
| Bitset.ClearBitCorrect | buddy.c:49-53 | after `mark_unused`, bit `idx` reads clear and every other bit is unchanged |
| TreeIndex.LeftChild | buddy.c:10-12 | the left child is a larger index, and both children have the given parent |
| TreeIndex.Parent | buddy.c:14-16 | the parent is a smaller index, and the child is one of its two children |
| TreeIndex.SiblingIdx | buddy.c:26-31 | the buddy is a different node with the same parent |
| TreeIndex.SiblingInvolution | buddy.c:26-31 | the buddy of the buddy is the node itself |
| TreeIndex.BuddyIdx | buddy.c:26-31 | `buddy_idx` of a block with level at least 1 gives a different node with the same parent, on the same level |
| TreeIndex.NumNodes | buddy.c:18-20 | (corrected) the last node of level `max_level` is the last index; the next index is on level `max_level+1` |
| TreeIndex.NodesInRange | buddy.c:18-20 | (corrected) an index is below the node count iff its level is at most `max_level` |
| TreeIndex.BlockToIdx | buddy.c:22-24 | an address inside the arena maps to a node on the block's own level |
| TreeIndex.IndexOfAddr | buddy.c:22-24 | `block_to_idx` of a node's own level and address gives back that node |
| TreeIndex.BlockToIdxInjective | buddy.c:22-24 | two aligned (level, address) pairs with the same index are equal |
| TreeIndex.SplitGeometry | buddy.c:106-109 | the halves are one level deeper; the left one starts at the parent's address and the right one half a parent block later |
| TreeIndex.PageAligned | test.c:52 | every node's address is a multiple of the page size |
| FreeList.InsertCorrect | buddy.c:64-70 | after `insert`, the list reads `[b] + s`, and no record outside the list and `b` changes |
| FreeList.Insert | buddy.c:64-70 | the method returns `b` as the new head and leaves the records as `InsertRecs` describes |
| FreeList.DeleteCorrect | buddy.c:72-81 | after `delete`, the `k`-th node is off the list with both links cleared; the rest of the list stays linked in order, with a new head when `k = 0`; records off the list are untouched |
| FreeList.Delete | buddy.c:72-81 | the method returns the old `next` and leaves the records as `DeleteRecs` describes |
| StatusTree.InitialSound | buddy.c:83-99 | the fresh tree (root free, nothing else) is sound: the whole arena is free and nothing is allocated |
| AllocatorState.InitialInv | buddy.c:83-99 | the zeroed bitmap, the root record `(0, 0)` and `level[0] = root` satisfy the invariant for the fresh tree |
| Buddy.Allocator.constructor | buddy.c:83-99 | creates a valid allocator whose tree is the fresh one: page size `2^page_size_order`, root record `(0, 0)` at `level[0]`, nothing allocated |
| AllocatorState.EmptyLevel | buddy.c:60-62 | a level's list is empty iff that level has no free block; a non-empty list's head is a free block of that level |
| Buddy.Allocator.BuddyUsed | buddy.c:37-41 | the buddy's bit is set iff the buddy is allocated or split |
| Buddy.Allocator.MarkUsed | buddy.c:43-47 | the bitmap afterwards is the old one with bit `i` set |
| Buddy.Allocator.MarkUnused | buddy.c:49-53 | the bitmap afterwards is the old one with bit `i` cleared |
| Buddy.Allocator.WriteHalves | buddy.c:102-109 | writes the two halves' levels and addresses and nothing else |
| AllocatorSteps.HalvesCorrect | buddy.c:102-109 | the halves carry their own tree levels and addresses; every other record is unchanged |
| AllocatorSteps.SplitPushesHalves | buddy.c:110-111 | after `split`, the right half heads the next level's list, followed by the left half and then the old list |
| Buddy.Allocator.Split | buddy.c:101-112 | the records become the halves pushed onto the next level's list, and that level's head becomes the right half |
| StatusTree.SplitSound | buddy.c:101-112 | splitting a free node above the last level keeps the tree sound and leaves the allocated total unchanged |
| Buddy.U32Sub | buddy.c:115-117 | `uint32_t` subtraction: exact when no borrow is needed; otherwise it wraps to a value above the minuend, so the `level > max_level` test catches `order > max_level` |
| AllocatorState.DeepestNonEmpty | buddy.c:118-125 | the result is empty iff every level up to the requested one has an empty list; otherwise it is the deepest non-empty level |
| Buddy.Allocator.Search | buddy.c:118-125 | the loop (counting down, and stopping when the counter wraps) finds the deepest non-empty level at or above the requested one, or reports none |
| AllocatorState.SearchFinds | buddy.c:118-127 | the search fails iff no level up to the requested one holds a free block; otherwise it finds the best-fitting free block |
| AllocatorSteps.TakeEffect | buddy.c:128-132 | taking the head of a level (`mark_used`, then `delete`) keeps the invariant, with that block now allocated |
| Buddy.Allocator.Take | buddy.c:140-143 | pops the head of the level's list: it becomes allocated, its bit set and its links cleared, and the list loses its first element |
| AllocatorSteps.SplitEffect | buddy.c:134-137 | one descent round (split, delete the head, `mark_used`) keeps the invariant with the split node as the one pending hole |
| Buddy.Allocator.SplitPop | buddy.c:134-137 | one descent round's writes: the tree is split at the node, its bit is set, and the records and heads are updated |
| Buddy.Allocator.SplitHead | buddy.c:134-137 | one descent round keeps the invariant; the lists become `SplitLists` of the old ones (the node leaves the front of its list, its right then left half front the next level's list), and the next level's head becomes the right half |
| Buddy.Allocator.DescendOnce | buddy.c:133-138 | one round leaves the outcome of the whole allocation unchanged: the eventual tree, block and lists |
| Buddy.Allocator.Descent | buddy.c:133-139 | the descent reaches the requested level with the same eventual tree, block and lists as allocating straight from the block it started from |
| StatusTree.DescendBelow | buddy.c:133-140 | the handed-out block lies below the free block the search found |
| Buddy.Allocator.Carve | buddy.c:128-143 | the block handed out is `Descend(f, level)`, the tree becomes `AllocStatus` of the old one, and the lists become `AllocLists` of the old ones |
| AllocatorState.AllocListsCorrect | buddy.c:119-143 | after a request carved from `f`, `f`'s list has lost its head and keeps the rest in order; each level below it down to the requested one has the left half of the node split above it in front of its old list; every other level's list is unchanged |
| StatusTree.AllocStatusCorrect | buddy.c:128-143 | the tree stays sound; exactly the handed-out block becomes allocated; the allocated total grows by its weight; every ancestor down from `f` is split |
| StatusTree.AllocOutcome | buddy.c:114-144 | the block handed out is on level `max_level - order` and was not allocated; the allocated nodes grow by exactly that block, and the allocated pages by `2^order` |
| Buddy.Allocator.Balloc | buddy.c:114-144 | fails iff `order > max_level` or no free block exists at or above the level; a failure changes nothing; otherwise the block it starts from is the head of the deepest non-empty list at or above the level (last freed, first reused), it carves the best fit from it, the lists become `AllocLists` of the old ones, and it returns a record of level `max_level - order` at its own address with both links cleared; in every case each level's head is the first node of its list, and none for an empty list |
| StatusTree.ExhaustedIffFull | buddy.c:118-127 | no free block up to `max_level` iff all `2^max_level` pages are allocated; a full arena refuses every order |
| AllocatorSteps.FreeEffect | buddy.c:150-153 | with the buddy in use, `mark_unused` plus `insert` keeps the invariant, with the block free at the head of its list |
| AllocatorState.FreeStep | buddy.c:150-153 | freeing a block whose buddy is busy keeps the invariant with the block listed first on its level |
| StatusTree.ReleaseLastSound | buddy.c:150-153 | freeing a block whose buddy is busy keeps the tree sound, and the allocated total drops by its weight |
| Buddy.Allocator.Release | buddy.c:150-153 | the block becomes free, its bit is cleared, and it is pushed onto its level's list |
| AllocatorSteps.MergeEffect | buddy.c:155-162 | one merge (block bit cleared, buddy unlinked, buddy bit cleared) keeps the invariant with the parent allocated |
| AllocatorState.MergeStep | buddy.c:155-162 | one merge keeps the invariant once the buddy is removed from its list |
| StatusTree.MergeSound | buddy.c:155-162 | merging an allocated block with its free buddy yields a sound tree whose parent is allocated; the allocated total grows by the buddy's weight |
| Buddy.Allocator.Merge | buddy.c:155-162 | (corrected) the buddy leaves its list wherever it sits, and its successor becomes the head when it was the head; both bits are cleared; the parent is what continues |
| AllocatorSteps.RootEffect | buddy.c:166-171 | freeing the allocated root keeps the invariant, with the root alone on `level[0]` |
| AllocatorState.RootStep | buddy.c:166-171 | the root becoming free keeps the invariant, with `level[0]` set to the root |
| Buddy.Allocator.ReleaseRoot | buddy.c:166-171 | the root becomes free, `level[0]` becomes the root, and its bit is cleared |
| Buddy.Allocator.FreeStep | buddy.c:149-165 | one iteration either finishes the release, with the block free at the head of its level's list, or hands the parent on, with the remaining release and the node it ends at unchanged |
| Buddy.Allocator.Bfree | buddy.c:146-172 | the tree becomes `ReleaseStatus` of the old one: exactly the given block stops being allocated, and the allocated total drops by its weight; the node it ends at (`ReleasedAt`, the block or the ancestor the merges reach) is free and heads its level's list |
| StatusTree.ReleasedAtFree | buddy.c:146-172 | the node `bfree` finally frees is the block itself or one of its ancestors, and it is free in the released tree |
| StatusTree.ReleaseCorrect | buddy.c:146-172 | the release keeps the tree sound; exactly `b` stops being allocated; the allocated total drops by `b`'s weight |
| StatusTree.RoundTrip | buddy.c:114-172 | freeing the block just allocated restores the tree exactly |
| StatusTree.MergeUndoesSplit | buddy.c:155-162 | merging the right half of a just-split node gives back the unsplit node |
| StatusTree.NoOverlap | test.c:53 | two distinct free or allocated blocks occupy disjoint address ranges |
| StatusTree.RootFreeWhenNothingAllocated | test.c:27-30 | with nothing allocated, the tree is the fresh one: the root is free and whole |
| StatusTree.WholeArenaOnce | test.c:30-34 | in a fresh tree, a request for the whole arena takes the root at address 0, after which no level-0 block is free |
| Scenario.FillStep | test.c:19-23 | an order-0 request on an arena that is not full, with the outcome `balloc` promises, succeeds, hands out a leaf not handed out before, and allocates one more page |
| Scenario.RequestPage | test.c:20-22 | one order-0 request while fewer than `2^max_level` pages are allocated: it keeps the allocator valid and adds a new, distinct leaf to the allocated set |
| Scenario.FillArena | test.c:19-23 | `2^max_level` order-0 requests on a fresh allocator all succeed, with distinct leaves, and fill the arena |
| Scenario.Exhausted | test.c:24-26 | on a full arena, every order from 0 to `max_level` fails and the tree is unchanged |
| Scenario.ReleaseStep | test.c:27-29 | freeing `blocks[i]` leaves the later blocks as exactly the allocated ones |
| Scenario.ReleaseAll | test.c:27-29 | freeing every handed-out block, in order, gives back the fresh tree |
| Scenario.DistinctAddresses | test.c:53 | the pages handed out start at pairwise distinct addresses |
| Scenario.TakeWhole | test.c:30-35 | on a fresh allocator, `balloc(max_level)` returns the root (record level 0, address 0), a second request fails, and `bfree` restores the fresh tree |
| Scenario.WholeArena | test.c:19-35 | the whole opening sequence of the test driver, with the outcomes the driver asserts, for any `max_level + page_size_order <= 31` |
| Findings.LeavesOutsideRegistryAsWritten | buddy.c:18-20 | as written, the node count stops before the first page-sized node: all `2^max_level` leaves fall outside the registry and bitmap |
| Findings.UnlinkBuddyAsWrittenLosesBlocks | buddy.c:157-160 | as written, when the buddy heads a list with blocks behind it, the level's head becomes `NULL` although those blocks are still free, and the first of them still links back to the buddy |
| Findings.UnlinkHeadBuddyKeepsRest | buddy.c:157-160 | unlinking a head buddy with `delete` leaves the rest of the list linked behind the buddy's successor |

## Left out

- The `printf` of the overhead percentage in `buddy_allocator_create` (buddy.c:97) is output only and is not modelled.
- The `calloc` of one memory region and the pointer arithmetic that carves it are not modelled (buddy.c:85-93, 55-58). `get_node` is not modelled either.
  - The three parts become three separate arrays.
  - A `block_t *` becomes a record index.
  - Heap exhaustion in `calloc` is not modelled.
- `empty` (buddy.c:60-62) is written as `.None?` on a list head. Its meaning is stated by `AllocatorState.EmptyLevel`.
- `uint8_t` fields are not modelled with their width. Record levels and `max_level` are unbounded naturals.
  - Buddy.Allocator.constructor requires `max_level + page_size_order <= 31` so that every block size and address fits in `uint32_t` (`Geometry.SizesFitU32`). The source does not check this.
- Buddy.Allocator.Descent: the descent `while` loop (buddy.c:133-139) is a tail-recursive method, one call per round, rather than a `while` loop. The rounds and their order are the same.
- Buddy.Allocator.Bfree requires a block that is currently allocated. Double frees, freeing a split node and foreign pointers are undefined behaviour in the source and are not modelled.
- Buddy.Allocator.Bfree states the head of the level where the release ends, not the heads of the levels whose buddies were unlinked on the way up; each of those is stated for its own round by `Buddy.Allocator.Merge`.
- The random workload of `test.c` (lines 36-90) is not modelled. It depends on `rand`, `time` and `printf`.
  - The per-allocation facts that workload asserts are stated for every successful request by `Buddy.Allocator.Balloc`, `TreeIndex.PageAligned` and `StatusTree.NoOverlap`: cleared links, level `max_level - order`, page alignment, and no two live blocks sharing a page.
- Scenario.WholeArena is stated for every `max_level` and `page_size_order` within the 31-bit bound, rather than for the driver's fixed 15 and 5.
- The overall tree shape is an abstract ghost view (`status`, `lists`). The proofs reason about it instead of walking pointers.

## Findings

| source | as written | input that shows it | evidently intended | confidence | as-written member | corrected member |
|---|---|---|---|---|---|---|
| buddy.c:18-20 | `num_nodes_` returns `2^max_level - 1`, the node count of a tree one level shorter. The registry and bitmap sized by it (buddy.c:84-87) have no room for the `2^max_level` page-sized nodes, so `split` writes the records of the deepest halves past the end of the region; from `max_level = 3` on, `mark_used` of a page also writes past the bitmap, into the records. | `max_level = 1`: one node is reserved, but `split` of the root writes records 1 and 2 | `2^(max_level+1) - 1` nodes, one per node of a tree with `max_level + 1` levels | high (not executed) | Findings.LeavesOutsideRegistryAsWritten | TreeIndex.NodesInRange |
| buddy.c:157-158 | When the free buddy heads its level's list, `bfree` sets the head to `NULL` instead of unlinking the buddy. The blocks behind it drop off the list and can never be handed out again, and the next one keeps a `prev` link to the merged buddy. This plausibly explains the disabled assertion at test.c:70. | `max_level = 2`, level-2 list `[6, 3]`, node 5 allocated; `bfree` of node 5 merges with its free buddy 6 at the head, and node 3 is lost | unlink the buddy with `delete` and let its successor head the list | high (not executed) | Findings.UnlinkBuddyAsWrittenLosesBlocks | Buddy.Allocator.Merge |

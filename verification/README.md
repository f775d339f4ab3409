# A verified model of the prequel storage library

prequel keeps typed containers in a single file that is read and written in blocks of equal size.
This project models its stateful core in Dafny and proves what the parts promise to each other:
the block allocator, linear access to bytes across blocks, extents and arrays on top of the
allocator, the slotted-page heap, the on-disk free list, the B+ tree with insertion, erasing and
its balance, the id generator, reference counted block handles, the binary serialization format, the dirty-flag protocol
of the file format, and the engine with transactions together with its journal.

The layers are stacked as in the library. `LinearIo.Engine` is the store of blocks; its bytes read as
one flat array. `Allocator.Allocator` hands out runs of blocks of that engine and keeps its own index
trees in blocks it manages. `Extents.Extent` and `RawArrays.RawArray` are built on the real allocator
and engine, and so is `Heaps.Heap`, whose pages are changed byte by byte. Each layer uses what is
proved of the layer below. A second stack is `TransactionEngines.TransactionEngine` with its cache, on
`Journals.Journal`, on a log file and a database file that record every state a crash can leave.

How state is modelled:

- An object whose methods update it is a class; every method states its whole effect, and ghost fields
  carry the abstract value (the live ids, the live blocks, the live objects, what a crash may leave).
- The two indexes of the heap are B+ trees: every insertion and erasure is that of `BTree` and
  `BTreeErase`, takes its nodes from the allocator one by one, and may find too few. Keys are real
  numbers, into which the orders of both indexes are embedded. The index trees of the allocator are sets
  of extents together with the blocks of their nodes; how many nodes an insertion takes is left open
  within the bound that `BTree.InsertOk` proves, so the results hold for every shape they can have.
- Exceptions are results. `bad_alloc` comes from the allocator's real logic (growth forbidden, no free
  extent large enough) or, for the heap's indexes, from the allocator when they ask it for a node.
  Failing pins, failing dirty calls and the points in time of cache evictions are nondeterministic.
- A failed `PREQUEL_ASSERT` or `PREQUEL_CHECK` is an error result of its own.

## What the proofs found

- Freeing a small object fails when its page has no effective free space: such a page has no entry in
  the free map, and `free_small_object` insists on one. `Heaps.Heap.Free` proves that this is the exact
  condition, `HeapFull.FillPage` fills a page of 512 bytes with objects of 384 and 100 bytes, and
  `HeapRuns.StuckForever` proves that such objects can never be freed. `heap::validate` rejects exactly
  the heaps with such a page (`HeapValidation.Validate`).
- When an index needs tree nodes and the allocator has too few, an insertion fails cleanly, with one
  exception: a root split takes two nodes, and if only the first one can be had, half of the tree, or the
  last entry of a root leaf, is left behind (`BTree.FailureKeepsValues`, `BTree.Torn`). In the heap
  the objects of the last allocations are then lost, and the index may name a block that was given back:
  `Heaps.Heap.Allocate` has the exact condition, and `HeapIndexes.LostAtInput` an index for every block size.
- When the free map needs a tree node while an object is freed and there is none, the object is gone
  but the counters and the free map are stale. `Heaps.Heap.Free` states that outcome precisely.
- The size computation for large objects wraps around at 32 bits, in the sum of size and header and again
  in the division. `HeapState.LargeBlocksFit` proves for exactly which sizes the number of blocks is
  enough; most others are rejected for want of blocks to allocate.
- At the end of a file that may not grow, a reallocation to a larger size fails although enough blocks may be
  free elsewhere, because the branch that grows the file does not fall through to the one that moves the
  content (`Allocator.Allocator.Reallocate`, `Allocator.RefusedAtEnd`).
- `id_generator::free` erases the neighbours of an id before it inserts the merged interval; when the insertion
  finds no block, their ids are lost (`IdGenerator.Generator.Free`).
- `shrink()` is documented to reduce storage but can increase it: `RawArrays.ShrinkNeverGrows` gives the
  sizes for which it cannot, and `RawArrays.ShrinkGrows` an array for which it does.
- Without sync the dirty flag does not protect anything: `FileFormat.MixtureWithoutSync` builds, for every
  file and every change, an image that is opened again although it is a mixture.
- A transaction that grows the database without changing a block is not written to the journal: its commit
  succeeds, but the new size is lost at the next crash or rollback, and a checkpoint of earlier commits
  fails an assertion. `TransactionEngines.TransactionEngine.Commit` and `TransactionRuns.StoredByCommit`
  give the exact condition, `TransactionRuns.GrowthIsLost` a run.
- The journal has no checksums. If the disk keeps writes in order, every crash leaves a committed state
  (`Journals.CrashRecovery`); otherwise a transaction whose end was kept is restored with whatever its blocks
  are (`JournalLog.AnyTail`, `JournalLog.TornBlockIsRestored`). A crash while a journal file is created can
  leave a file that is refused from then on (`Journals.Journal.Open`).
- An overwrite that fails when the block is marked as dirty has already replaced the content that all
  other handles see (`Handles.Manager.Populate`), and the change is lost when the block is evicted
  (`Handles.Manager.Evict`).

## Model

| member | source | states |
|---|---|---|
| `Allocator.Allocator.Allocate` | src/container/default_allocator.cpp:234-285 | The returned blocks were not handed out before and are exactly what becomes live; no other live or foreign block changes content, on failure either. Free space is used before the file grows: with the free extents as they are after the refill, the result is the start of the smallest one that is large enough, the first of several, and then the file and the managed blocks stay as they are; only if there is none does the file grow, by exactly the chunk, at the end of the file or in the free extent that ends there. With a reserve of spare blocks that needs no change, those are the extents before the call, and it fails exactly when growth is forbidden and all of them are too small. Without reserved metadata it succeeds exactly when growth is allowed. |
| `Allocator.Allocator.AllocatePrepared` | src/container/default_allocator.cpp:243-284 | The best-fitting free extent is used if there is one, else the file grows by exactly one chunk; failure is equivalent to growth being forbidden and every extent being too small. |
| `Allocator.Allocator.TakeFromFree` | src/container/default_allocator.cpp:245-255 | The start of a free extent becomes live and the rest stays free, without growing the file. |
| `Allocator.Allocator.TakeFromEnd` | src/container/default_allocator.cpp:257-284 | New space at the end of the file, exactly one chunk, joined with a free extent that ends there, satisfies the request; it fails exactly when growth is forbidden, and then nothing changes. |
| `Allocator.Allocator.Reallocate` | src/container/default_allocator.cpp:287-396 | In every branch the result starts with the old content up to the smaller size, the live set changes by exactly the two ranges, and no other block outside the pool changes. Once metadata is reserved, keeping or reducing the size never fails and stays in place, growing into a free right neighbour stays in place, growing into a free left neighbour moves there, and neither grows the file; at the end of the file it grows in place by exactly the chunk; else the new place is that of an allocation. With a reserve that needs no change, it fails exactly when growth is forbidden and `Refuses` holds. |
| `Allocator.Allocator.GrowExtent` | src/container/default_allocator.cpp:307-395 | The five growing branches, in order, each preserve the content of the extent; which branch is taken, where the extent is then and how much the file grows; the exact condition under which all of them fail. |
| `Allocator.Allocator.GrowBetween` | src/container/default_allocator.cpp:315-357 | Growing into a free neighbour: to the right in place, or to the left with the content moved over itself, without growing the file. |
| `Allocator.Allocator.GrowAtEnd` | src/container/default_allocator.cpp:359-388 | Growing in place at the end of the file, with the free extent behind if there is one, by exactly the chunk; fails exactly when growth is forbidden. |
| `Allocator.RefusedAtEnd` | src/container/default_allocator.cpp:360-386 | At the end of a file that may not grow, an extent cannot be enlarged, however many blocks are free elsewhere; one block away from the end it can. |
| `Allocator.Allocator.MoveLeft` | src/container/default_allocator.cpp:340-357 | Moving left over itself into the free neighbour preserves the content. |
| `Allocator.Allocator.MoveAway` | src/container/default_allocator.cpp:391-395 | Moving to new storage preserves the content and frees the old storage. |
| `Allocator.MovedLeft` | src/container/default_allocator.cpp:346-356 | The chain of steps of a move to the left amounts to a reallocation. |
| `Allocator.MovedAway` | src/container/default_allocator.cpp:392-395 | The chain of steps of a move to new storage amounts to a reallocation, with the file possibly grown in between. |
| `Allocator.Allocator.Free` | src/container/default_allocator.cpp:398-414 | Exactly the given blocks stop being live; any part of an allocation may be freed. |
| `Allocator.Allocator.Release` | src/container/default_allocator.cpp:398-414 | Freed blocks first refill the metadata reserve and the rest joins the free extents; the precondition of the tree insertion always holds. |
| `Allocator.Allocator.AddRegion` | src/container/default_allocator.cpp:221-232 | Accepts exactly regions inside the file and adds them to the managed space without touching live blocks. |
| `Allocator.Allocator.ReallocateAny` | include/prequel/container/allocator.hpp:52-78 | The public interface with its error cases and its reduction to allocate and free. |
| `Allocator.Allocator.LazyInitialize` | src/container/default_allocator.cpp:427-436 | The first allocation reserves metadata with one chunk; it fails only if growth is forbidden. |
| `Allocator.Allocator.FixFreelist` | src/container/default_allocator.cpp:438-467 | Terminates from every state, keeps the pool as a whole, and ends with the reserve met or no free extent left. |
| `Allocator.Allocator.Drain` | src/container/default_allocator.cpp:439-446 | Surplus spare blocks go back to the free extents. |
| `Allocator.Allocator.Fill` | src/container/default_allocator.cpp:448-466 | The loop that refills the spare list strictly lowers the free space and so ends, although the trees may grow again. |
| `Allocator.Allocator.TakeMetadata` | src/container/default_allocator.cpp:580-598 | The first blocks of an extent become spare metadata blocks, lowest on top of the stack. |
| `Allocator.Allocator.FreeInternal` | src/container/default_allocator.cpp:504-578 | Rejects an extent exactly when it intersects the free blocks; otherwise both indexes hold the maximal runs of the enlarged free set, with enough spare blocks for the insertion. |
| `Allocator.Allocator.AllocateExtent` | src/container/default_allocator.cpp:487-498 | Removes one extent from both indexes and its blocks from the free set. |
| `Allocator.Allocator.AllocateMetadataBlock` | src/container/default_allocator.cpp:600-606 | Takes a node from the spare list; every caller proves that it is not empty. |
| `Allocator.Allocator.FreeMetadataBlock` | src/container/default_allocator.cpp:608-611 | Returns a node to the spare list. |
| `Allocator.Allocator.TreeInsert` | src/container/default_allocator.cpp:83-89 | An insertion takes at most height plus one spare blocks, in any way the bound allows. |
| `Allocator.Allocator.ChunkSize` | src/container/default_allocator.cpp:76-81 | The growth chunk is the least power of two that is enough, or the request where 64 bits have none, but at least the minimum chunk. |
| `Allocator.Allocator.AllocateFromEngine` | src/container/default_allocator.cpp:613-625 | New blocks, exactly one chunk, lie behind the old end of the file and are all managed. |
| `Allocator.Allocator.Conservation` | src/container/default_allocator.cpp:416-425 | Every managed block is in exactly one of five classes (free, spare, node of either tree, live), and the counters count them. |
| `Allocator.Allocator.Validate` | src/container/default_allocator.cpp:648-692 | Accepts a state if and only if both trees hold the same extents, their sizes add up to the counter of free blocks, and the metadata counters agree. |
| `Allocator.Allocator.ValidIsConsistent` | src/container/default_allocator.cpp:648-692 | Every state that satisfies the invariant is accepted. |
| `AllocatorRuns.Run.Execute` | src/container/default_allocator.cpp:221-414 | For every sequence of regions added, allocate, reallocate, free and write: each operation does to the contents what it would do to separate sequences of blocks, allocation and growth fail only when the file may not grow, keeping or reducing a size never fails, nothing but given regions and new blocks is taken, and at the end every managed block is accounted for. An allocation takes the smallest maximal run of free blocks that is large enough, and the file grows only if there is none; an allocation that shrinks, or that grows over free blocks behind it, stays where it is. |
| `AllocatorRuns.Run.Reallocate` | src/container/default_allocator.cpp:287-396 | One allocation among many is resized; all others keep place and content; it succeeds whenever the file may grow, and stays in place when it shrinks or the blocks behind it are free. |
| `AllocatorRuns.ReusesIf` | src/container/default_allocator.cpp:243-284 | Taking the best extent is taking the smallest maximal run of free blocks that is large enough; if no run is, the file grows or the allocation fails. |
| `AllocatorRuns.GrowsInPlace` | src/container/default_allocator.cpp:315-329 | If the blocks behind an allocation are free, they are in one free extent, and the allocation grows in place. |
| `AllocatorRuns.Run.AddRegion` | src/container/default_allocator.cpp:221-232 | Adding an unmanaged region leaves all allocations as they are. |
| `AllocatorRuns.Run.Account` | src/container/default_allocator.cpp:416-425 | In every state the managed blocks are split exactly into free extents, spare blocks, nodes of either tree and allocations; the totals add up, and what is live is the sum of the sizes of the allocations. |
| `AllocatorRuns.SplitAdd` | src/container/default_allocator.cpp:234-285 | Handing out blocks that were not live keeps the exact split. |
| `AllocatorRuns.StillFree` | src/container/default_allocator.cpp:221-232 | A region that is still to be added is not taken by any other operation. |
| `FreeSpace.CanonicalIsUnique` | src/container/default_allocator.cpp:504-578 | The free extents are determined by the set of free blocks alone. |
| `FreeSpace.ExtentIff` | src/container/default_allocator.cpp:504-578 | An extent is in the index if and only if it is a maximal run of free blocks. |
| `FreeSpace.JoinKeepsCanonical` | src/container/default_allocator.cpp:517-577 | Merging with touching neighbours gives the maximal runs of the larger set. |
| `FreeSpace.OverlapIsFound` | src/container/default_allocator.cpp:517-543 | Testing the two neighbours for overlap detects every intersection with the free set. |
| `FreeSpace.EraseKeepsCanonical` | src/container/default_allocator.cpp:487-498 | Removing an extent leaves the maximal runs of the rest. |
| `FreeSpace.BestFit` | src/container/default_allocator.cpp:129-136 | Finds the smallest extent that is large enough, ties by position, if there is one. |
| `FreeSpace.Neighbours` | src/container/default_allocator.cpp:517-536 | Finds the nearest extents on both sides of a position. |
| `MetaPool.PushNewRange` | src/container/default_allocator.cpp:588-593 | Pushing a range in reverse order keeps the metadata blocks split into spare blocks and nodes. |
| `MetaPool.SplitSize` | src/container/default_allocator.cpp:688-691 | The number of metadata blocks is the number of spare blocks plus the nodes of both trees. |
| `FreeList.List.Push` | src/detail/free_list.cpp:98-112 | The list kept inside the free blocks behaves like a stack; a node is filled before another block becomes a node; only blocks of the list are written. |
| `FreeList.List.Pop` | src/detail/free_list.cpp:114-127 | Returns the block that was pushed last, or fails exactly if the list is empty. |
| `FreeList.List.PushNode` | src/detail/free_list.cpp:108-111 | A full or missing head makes the pushed block itself the new head node. |
| `FreeList.List.PopNode` | src/detail/free_list.cpp:124-126 | An empty head node is itself handed out and the stored next node becomes the head. |
| `FreeList.ShowsPush` | src/detail/free_list.cpp:34-39 | Writing a value behind the others and raising the size shows the longer list of values. |
| `FreeList.StoreLast` | src/detail/free_list.cpp:98-106 | Rewriting the head node leaves all other nodes stored. |
| `FreeList.List.NodesNeeded` | src/detail/free_list.cpp:98-127 | In every state the list has as few nodes as its blocks need: only the head has room. |
| `FreeList.ShowsIs` | src/detail/free_list.cpp:7-14 | The bytes of a node: the next node in 8 bytes, all bits set for none, the number of values in 4, and 8 for each value, most significant byte first. |
| `FreeList.CapacityIs` | src/detail/free_list.cpp:73-78 | A node has as many values as fit behind 12 bytes. |
| `LinearIo.Engine.Copy` | src/address.cpp:196-206 | For every source, destination and size the flat bytes change as by memmove, overlapping or not. |
| `LinearIo.Engine.CopyForward` | src/address.cpp:120-153 | The forward loop over block handles, with its early zeroing of whole destination blocks, is memmove. |
| `LinearIo.Engine.CopyBackward` | src/address.cpp:155-192 | The backward loop is memmove. |
| `LinearIo.ClearUp` | src/address.cpp:128-152 | Zeroing a destination block ahead of the copy destroys no source byte that is still to be read. |
| `LinearIo.MoveUp` | src/address.cpp:128-152 | One forward chunk extends the copied prefix. |
| `LinearIo.Engine.CopyBlocks` | src/block_index.cpp:13-15 | The destination blocks get the source blocks and no other block changes. |
| `LinearIo.MemmoveOfBlocks` | src/block_index.cpp:13-15 | A memmove of block-aligned bytes is a move of blocks. |
| `LinearIo.Engine.Write` | src/address.cpp:19-50 | The three phases replace exactly the bytes at the address by the data. |
| `LinearIo.Engine.Read` | src/address.cpp:55-87 | Returns exactly the bytes at the address. |
| `LinearIo.Engine.Zero` | src/address.cpp:90-118 | Zeroes exactly the bytes at the address. |
| `Blocks.SpliceInBlock` | include/prequel/engine.hpp:288-313 | Writing inside a block writes the matching window of the flat array. |
| `Math.RoundTowardsPow2` | include/prequel/math.hpp:31-38 | The smearing loop yields the least power of two at or above the argument, or 0 when 64 bits cannot hold it. |
| `Math.Log2` | include/prequel/math.hpp:42-49 | The loop yields the exponent of the largest power of two at or below the argument. |
| `Math.IsPow2Test` | include/prequel/math.hpp:52-55 | The bit test accepts exactly the powers of two. |
| `Math.MaskIsMod` | include/prequel/math.hpp:58-62 | Masking with a power of two minus one is the remainder. |
| `Math.AddressBits` | include/prequel/engine.hpp:288-313 | Shift, or and mask split and rebuild an address like division and remainder. |
| `Math.CeilDivCovers` | include/prequel/math.hpp:72-77 | In unbounded arithmetic the quotient rounded up is the least number of parts that cover. |
| `Math.WrappingCeilDivCovers` | include/prequel/math.hpp:72-77 | In an unsigned type the parts cover the dividend if and only if the sum does not wrap around; otherwise the result is zero. |
| `Extents.Extent.Resize` | src/container/extent.cpp:52-60 | The common prefix of the content survives, wherever the extent moves, and nothing of anybody else changes; failure changes nothing. |
| `Extents.Extent.Get` | src/container/extent.cpp:30-33 | An index inside the extent yields its block; others are rejected. |
| `Extents.Extent.Clear` | src/container/extent.cpp:43-50 | Gives back exactly its own blocks. |
| `Extents.Extent.OverwriteZero` | src/container/extent.cpp:37-37 | Zeroes one block of the content. |
| `RawArrays.RawArray.PushBack` | src/container/array.cpp:95-110 | Appends to the sequence of values, or fails and changes nothing. The extent gets the size of the growth strategy for one more block exactly if it is full, and keeps its size otherwise. The first value of a block has only zeroes behind it. |
| `RawArrays.RawArray.PopBack` | src/container/array.cpp:112-118 | Removes the last value; fails exactly if there is none. |
| `RawArrays.RawArray.Get` | src/container/array.cpp:62-70 | Returns the value at the index, or rejects it. |
| `RawArrays.RawArray.Set` | src/container/array.cpp:72-80 | Replaces one value and leaves the others. |
| `RawArrays.RawArray.Resize` | src/container/array.cpp:127-172 | Cuts the sequence off or appends copies of a value, across blocks; the extent grows exactly as by reserving. |
| `RawArrays.RawArray.Fill` | src/container/array.cpp:138-169 | The block-wise loop appends exactly the missing copies. |
| `RawArrays.RawArray.CreateBlock` | src/container/array.cpp:179-179 | Zeroing a block before its first value erases no value. |
| `RawArrays.RawArray.Reserve` | src/container/array.cpp:82-88 | Capacity becomes sufficient and values stay. The extent gets the size of the growth strategy for the needed blocks exactly if the capacity is too small, and keeps its size otherwise. |
| `RawArrays.RawArray.Shrink` | src/container/array.cpp:90-93 | Values stay; the number of blocks is the needed one, rounded by the strategy unless exact, and storage is reduced if and only if the rounded number is not above the old one. |
| `RawArrays.ShrinkGrows` | src/container/array.cpp:90-93 | An array of three values in a block each that has three blocks before shrinking and four after. |
| `RawArrays.ShrinkNeverGrows` | src/container/array.cpp:183-200 | An extent of a given size cannot grow by shrinking, whatever its array needs, if and only if its size is one the growth strategy asks for. |
| `RawArrays.RawArray.NewSize` | src/container/array.cpp:184-198 | Linear growth rounds up to the chunk, exponential growth to a power of two. |
| `RawArrays.GrowthIs` | src/container/array.cpp:183-200 | The strategy asks for the least multiple of its chunk, or the least power of two, that is enough. |
| `RawArrays.RawArray.Reset` | src/container/array.cpp:122-125 | Empties the array and returns its storage. |
| `RawArrays.SetItem` | src/container/array.cpp:72-80 | Writing a value's window changes that value of the represented sequence only. |
| `Pages.AllocatedOk` | src/container/heap.cpp:745-767 | Taking a slot keeps objects disjoint above the free pointer and the space equation. |
| `Pages.FreedOk` | src/container/heap.cpp:817-839 | Giving up a slot keeps the layout, the space equation and a used last slot. |
| `Pages.FreeUndoesAllocate` | src/container/heap.cpp:733-839 | Freeing the object that was allocated last restores the layout exactly. |
| `Pages.AllocatedHasLess` | src/container/heap.cpp:163-174 | Allocation strictly lowers the effective free space, so a free map entry never replaces itself. |
| `Pages.FreedHasSpace` | src/container/heap.cpp:163-174 | After a free the page has effective space. |
| `Pages.FreshPage` | src/container/heap.cpp:138-142 | An empty page has room for all but a header and a slot. |
| `Pages.EffectiveFreeOfShape` | src/container/heap.cpp:163-174 | The effective free space depends only on which slots are in use and on their sizes, so compaction does not change it. |
| `Pages.EffectiveFreeIs` | src/container/heap.cpp:144-174 | The effective free space is the size of the largest object that fits into the block together with header, slots, a new slot if none is unused, and all other objects. |
| `PageBytes.PageHandle.FindFreeSlot` | src/container/heap.cpp:176-185 | Finds the first unused slot in the bytes of the page, if any. |
| `PageBytes.PageHandle.EffectiveFreeBytes` | src/container/heap.cpp:163-174 | Computes the effective free space from the bytes. |
| `PageBytes.ShowsNewSlot` | src/container/heap.cpp:752-758 | Writing a slot and then a header that counts it shows the longer slot array. |
| `PageBytes.ShowsIs` | src/container/heap.cpp:42-75 | The bytes of a page: slot count, free pointer and fragmented bytes in 4 bytes each, then 4 bytes for the offset and 4 for the size of each slot, most significant byte first. |
| `Compaction.PageCompact` | src/container/heap.cpp:779-815 | Every slot keeps index, size and bytes; nothing stays fragmented; the free pointer is the block size minus the live bytes. |
| `Compaction.ShiftStep` | src/container/heap.cpp:799-810 | Moving one object never overwrites an object that is still to be moved. |
| `Compaction.SortDescending` | src/container/heap.cpp:792-794 | The collected objects are permuted into descending order of offsets. |
| `Compaction.Collect` | src/container/heap.cpp:785-791 | Collects exactly the used slots. |
| `PageOps.PageAllocate` | src/container/heap.cpp:733-768 | Succeeds whenever the effective space suffices; takes the first unused slot or a new one; all other objects keep slots and bytes. The page is compacted only if the bytes below the free pointer do not suffice, and no other object moves otherwise. |
| `PageOps.PageFree` | src/container/heap.cpp:817-839 | Succeeds exactly for a used slot, removes that object only, and otherwise changes nothing. |
| `PageOps.ReclaimSlots` | src/container/heap.cpp:187-200 | Drops exactly the unused slots at the end. |
| `PageOps.WriteObject` | src/container/heap.cpp:611-619 | Replaces the bytes of one object. |
| `PageOps.InitPage` | src/container/heap.cpp:138-142 | A zeroed block with a fresh header is an empty page. |
| `PageOps.FindObject` | src/container/heap.cpp:528-539 | Finds the bytes of a used slot and tells missing from unused ones. |
| `Heaps.Heap.constructor` | src/container/heap.cpp:229-244 | A new heap is empty and owns no blocks. |
| `Heaps.Heap.Allocate` | src/container/heap.cpp:291-308 | Returns a reference no live object has, with the given bytes or zeroes; all other objects and all blocks of others stay. The object is large if and only if it has more than three quarters of a block, where three times the block size wraps around at 32 bits; a small one is put on the page with the least sufficient space, if there is one, in the least unused slot. Failure leaves every object as it was, unless it tears the root of an index, exactly when that root is full and one block could be had for its two new nodes: then only objects of allocations at the upper end of the index of pages can be gone, and everything else is still stored and indexed. Sizes for which no blocks are computed are rejected. |
| `Heaps.Heap.Free` | src/container/heap.cpp:310-326 | Removes exactly one object; rejects references that are not live; fails for a live small object exactly if its page has no effective space; states the stale counters after an index failure. |
| `Heaps.Heap.Size` | src/container/heap.cpp:328-347 | Succeeds exactly for live references and returns the size. |
| `Heaps.Heap.Load` | src/container/heap.cpp:349-375 | Succeeds exactly for live references with the right size and returns the stored bytes. |
| `Heaps.Heap.Store` | src/container/heap.cpp:377-403 | Succeeds exactly for live references with the right size and replaces those bytes only. |
| `Heaps.Heap.CheckReference` | src/container/heap.cpp:508-526 | Accepts exactly references to an allocation of the right kind. |
| `Heaps.Heap.AllocateSmall` | src/container/heap.cpp:628-685 | Uses the page with the least sufficient space, else a new page. |
| `Heaps.Heap.AllocateOnPage` | src/container/heap.cpp:634-656 | If the free map cannot be updated the object is taken off again and all objects are unchanged; the free map is too, unless its root is torn, exactly when it is full and there is one block for nodes. |
| `Heaps.Heap.AllocateOnNewPage` | src/container/heap.cpp:659-684 | The guards restore pages, indexes and blocks on failure, except for a torn root; small block sizes are rejected. |
| `Heaps.Heap.AllocateLarge` | src/container/heap.cpp:551-585 | The object lies in its own blocks behind its size; it is rejected exactly when a sum wraps around; failure gives the blocks back, and only a torn root loses objects. |
| `Heaps.Heap.IndexInsert` | src/container/btree/tree.ipp:242-441 | An insertion into an index takes as many nodes as it needs or as there are, and its result is that of the tree algorithm with that many nodes. |
| `Heaps.Heap.InsertFree` | src/container/btree/tree.ipp:242-376 | The free map gains exactly the entry, or stays as it was and its tree has as many nodes as blocks were taken, or is torn: exactly when its root is full and one block was taken. |
| `Heaps.Heap.TakeIndexed` | src/container/heap.cpp:561-567 | Blocks and index entry are taken together or not at all, unless the root is torn, exactly when it is full and there is one block for nodes. |
| `Heaps.Heap.Tear` | src/container/heap.cpp:562-567 | After the root of the index of pages was torn and the new blocks were given back, the remaining entries lead to their objects, the lost entries are the last ones, and the new entry may be left as a stray one. |
| `Heaps.Heap.WriteLarge` | src/container/heap.cpp:570-580 | Writing header and bytes through linear I/O stores the object and touches only its blocks. |
| `Heaps.Heap.FreeSmall` | src/container/heap.cpp:687-726 | Empty pages are given back; otherwise the free map entry is replaced. |
| `Heaps.Heap.FreeOnly` | src/container/heap.cpp:588-607 | The only object of an allocation disappears together with its index entries and blocks. |
| `Heaps.Heap.LowerBound` | src/container/heap.cpp:632-634 | The least free map entry with enough space. |
| `Heaps.Heap.AllocateBlocks` | src/container/heap.cpp:841-845 | New blocks are counted and disjoint from everything the heap has. |
| `Heaps.Heap.FreeBlocks` | src/container/heap.cpp:847-852 | Blocks go back and are no longer counted. |
| `HeapState.FullPage` | src/container/heap.cpp:650-652 | The layout of a page that two small objects leave without effective space. |
| `HeapFull.FillPage` | src/container/heap.cpp:687-706 | In an empty heap with blocks of 512 bytes, objects of 384 and 100 bytes share a page, and then freeing the first one fails. |
| `HeapState.LargeBlocksFit` | src/container/heap.cpp:556-559 | The two 32-bit computations reserve enough blocks if and only if size, header and block size together do not wrap; otherwise no block, or for the three largest sizes at most one. |
| `HeapState.NoBlocks` | src/container/heap.cpp:556-559 | An object of 2^32 - 5 bytes gets no block. |
| `HeapState.TornState` | src/container/heap.cpp:562-567 | Dropping entries from the index of pages drops exactly the objects of their allocations. |
| `HeapState.RefRoundTrip` | src/container/heap.cpp:84-108 | A reference is recovered from its 64-bit value and never equals the invalid one. |
| `HeapState.RefValueIs` | src/container/heap.cpp:84-108 | Shifted to the left, the value of a reference is the address of the slot or of the first block, and the bit that gets lost tells large objects. |
| `HeapState.SmallIf` | src/container/heap.cpp:240-240 | An object is too large for a page if and only if four times its size is more than three times the block size, reduced to 32 bits. |
| `HeapState.LargeImageIs` | src/container/heap.cpp:570-580 | A large object is stored as four bytes for its size, most significant byte first, and its bytes. |
| `HeapState.FreeSet` | src/container/heap.cpp:649-654 | Replacing the entry of one page keeps the free map exact for all pages with space. |
| `HeapState.StructureSet` | src/container/heap.cpp:128-227 | Writing one allocation keeps all others as stored. |
| `HeapRuns.Execute` | src/container/heap.cpp:291-403 | For every sequence of requests and every allocator, up to a request that leaves an index inconsistent: each answer is that of a map from references to bytes, an object is large if and only if it has more than three quarters of a block, an allocation fails only when the file may not grow, a live object is refused to be freed if and only if its page is full, and the counters equal the number and total size of the objects. |
| `HeapRuns.Perform` | src/container/heap.cpp:291-403 | One request, answered as by a map, or what is left when it breaks an index. |
| `HeapRuns.StuckForever` | src/container/heap.cpp:687-726 | Once a page is full it stays full, and none of its objects can ever be freed. |
| `HeapIndexes.MirrorInsert` | src/container/btree/tree.ipp:242-376 | Inserting into the tree of an index with any number of nodes: success adds exactly the entry, failure keeps all entries and uses all nodes, and the root is torn exactly if it is full and there is one node. |
| `HeapIndexes.TornBlocks` | src/container/btree/tree.ipp:290-315 | No entry that a torn root loses comes before one that it keeps. |
| `HeapIndexes.LostPage` | src/container/btree/tree.ipp:290-315 | A torn root leaf has the new allocation, which was given back, instead of its last one. |
| `HeapIndexes.LostAtInput` | src/container/heap.cpp:662-667 | For every block size that has pages: as many pages as fit into the root leaf, 21 for blocks of 256 bytes, a new page in the gap before the last one, and a single block for nodes. The last page is lost, and the new one, which was given back, is in the index. |
| `HeapIndexes.FreeKeyOrder` | include/prequel/container/heap.hpp:156-160 | The keys of the free map order entries by space and then by block, and differ for different entries. |
| `HeapIndexes.LimitsAre` | src/container/btree/internal_node.hpp:108-125 | Leaves and internal nodes of both indexes have as many entries and children as fit into a block. |
| `HeapValidation.Validate` | src/container/heap.cpp:435-501 | Recounting objects, bytes and blocks from the pages agrees with the counters; the check accepts if and only if every page has effective space. |
| `HeapValidation.CountPage` | src/container/heap.cpp:458-466 | The slots of a page yield the number and bytes of its objects. |
| `IdGenerator.Generator.Allocate` | src/container/id_generator.cpp:18-31 | Returns the least positive id not in use; fails exactly when all are in use. |
| `IdGenerator.Generator.Free` | src/container/id_generator.cpp:33-85 | Accepts exactly live ids and rejects all others without effect. When the tree finds no blocks, the id and its free neighbours can get lost, but no live id is ever handed out again. |
| `IdGenerator.LostIntervals` | src/container/id_generator.cpp:67-84 | A generator without some of its free intervals is that of more live ids. |
| `IdGenerator.Generator.PopOne` | src/container/id_generator.cpp:98-112 | Takes the lowest id of the first interval, which is the least free one. |
| `IdGenerator.StateIsFunctionOfLiveIds` | src/container/id_generator.cpp:18-112 | Maximum and intervals are determined by the live ids alone. |
| `IdGenerator.JoinKeepsCanonical` | src/container/id_generator.cpp:67-84 | Joining with neighbours gives the maximal gaps again. |
| `IdGenerator.RejectsExactlyGaps` | src/container/id_generator.cpp:48-62 | The two neighbour tests reject exactly the ids in a gap. |
| `Handles.Manager.Populate` | src/engine.cpp:185-233 | Returns a new handle to the block, pinned once, and the handle shows what the file and the memory together had for the block, or the new content; no other block changes for anybody. On a failing pin or dirty call handles and pins are as before, although replaced content stays replaced. |
| `Handles.Manager.Read` | src/engine.cpp:159-164 | Rejects an invalid index; a block that is in use is never read again, and the handle shows the block as it was last written, in memory or in the file. Nothing that can be seen changes. |
| `Handles.Manager.Overwrite` | src/engine.cpp:173-183 | Rejects an invalid index or too much data; the handle shows the data padded with zeroes, and no other block changes. |
| `Handles.Manager.Release` | src/engine.cpp:253-263 | The last reference unpins the block and ends its management. |
| `Handles.Manager.Copy` | include/prequel/engine.hpp:92-96 | A copy is one more reference to the same block; no content changes. |
| `Handles.Manager.Move` | include/prequel/engine.hpp:98-99 | A move transfers the reference. |
| `Handles.Manager.Assign` | include/prequel/engine.hpp:106-113 | Copy assignment, also to itself, retargets one handle and releases what it had. |
| `Handles.Manager.AssignMove` | include/prequel/engine.hpp:115-122 | Move assignment transfers the reference and releases the old one. |
| `Handles.Manager.Drop` | include/prequel/engine.hpp:101-104 | Destruction drops one reference. |
| `Handles.Manager.Write` | include/prequel/engine.hpp:426-429 | All handles to a block see the bytes that are written, no others do, and the other bytes stay; so does what is read later. |
| `Handles.Manager.SameBlock` | src/engine.cpp:69-74 | Two handles have the same block exactly if they share the managed object. |
| `Handles.Manager.PinnedWhileUsed` | src/engine.cpp:213-214 | A block is pinned once while a handle refers to it and not otherwise. |
| `Handles.Manager.FreeInternal` | src/engine.cpp:87-100 | A released object is kept for reuse exactly if there are fewer than the limit. |
| `Handles.Manager.Evict` | src/engine/engine_base.ipp:149-168 | A block without handles leaves memory, written back if it is dirty; what can be read does not change, except that a block whose change could not be marked as dirty is again as in the file. |
| `Handles.Manager.Replace` | src/engine.cpp:185-233 | New content replaces the block in memory, for all handles. |
| `Handles.Manager.Grow` | include/prequel/engine.hpp:242-242 | New blocks are zero and all others stay. |
| `HandleRuns.Execute` | include/prequel/engine.hpp:242-278 | For every sequence of reads, overwrites, writes, copies, assignments, drops, evictions and growth, with failing pins and dirty calls anywhere: each answer and each byte that a handle shows is that of a plain sequence of blocks, in which every block is what was last written to it; only a block whose change could not be marked as dirty can become another one when it is evicted. |
| `HandleRuns.Application.Perform` | include/prequel/engine.hpp:242-278 | One operation, explained by the sequence of blocks before and after it. |
| `Serialization.RoundTrip` | include/prequel/serialization.hpp:108-487 | Decoding the bytes of any typed value gives the value back, over the whole universe of types. |
| `Serialization.Canonical` | include/prequel/serialization.hpp:302-439 | Two values have the same bytes exactly if they are equal, including the zero fill of optionals and variants. |
| `Serialization.Encode` | include/prequel/serialization.hpp:608-633 | Every value takes exactly the serialized size of its type. |
| `Serialization.Decode` | include/prequel/serialization.hpp:686-705 | What is decoded has the type. |
| `Serialization.EncodeIs` | include/prequel/serialization.hpp:108-487 | A value is encoded as exactly the bytes of its layout, for every type. |
| `Serialization.DecodeIs` | include/prequel/serialization.hpp:108-487 | Bytes are decoded to a value if and only if they are a layout of it; behind an absent optional or a short alternative they may be anything. |
| `Serialization.LayoutSize` | include/prequel/serialization.hpp:608-633 | Whatever bytes are a layout of a value of a type, their number is the serialized size of the type. |
| `Serialization.FieldsAre` | include/prequel/serialization.hpp:253-268 | The fields of a tuple lie one after the other. |
| `Serialization.Serialize` | include/prequel/serialization.hpp:571-575 | The buffer gets the bytes that `Layout` gives the value, whatever it held before, and nothing else changes; the next position is returned. `Layout` states the bytes themselves: digits of integers, most significant byte first, and of negative ones modulo the range; flags and tags; members one after the other; zeroes in absent optionals and behind short alternatives. |
| `Serialization.SerializeVariant` | include/prequel/serialization.hpp:347-392 | Tag, value and zero fill, given that each alternative fits. |
| `Serialization.SerializeArray` | include/prequel/serialization.hpp:200-205 | The advancing pointer writes all elements. |
| `Serialization.SerializeAll` | include/prequel/serialization.hpp:260-263 | The advancing pointer writes all fields. |
| `Serialization.Deserialize` | include/prequel/serialization.hpp:577-581 | Succeeds with a value if and only if the bytes are a layout of that value, and reports the first invalid flag or tag otherwise. |
| `Serialization.DeserializeArray` | include/prequel/serialization.hpp:207-212 | The loop stops at the first invalid element. |
| `Serialization.DeserializeAll` | include/prequel/serialization.hpp:265-268 | The loop stops at the first invalid field. |
| `Serialization.DeserializeOptional` | include/prequel/serialization.hpp:318-330 | Accepts the flags 0 and 1 only. |
| `Serialization.DeserializeVariant` | include/prequel/serialization.hpp:394-438 | Accepts the tags of existing alternatives only. |
| `Serialization.MaxSize` | include/prequel/serialization.hpp:290-300 | The loop computes the maximum. |
| `BigEndian.DecodeEncode` | include/prequel/serialization.hpp:107-142 | Integers of any width are recovered from their bytes. |
| `BigEndian.EncodeDigits` | include/prequel/serialization.hpp:107-142 | Byte `k` of `n` is the number divided by 256 to the power of `n - 1 - k`, modulo 256: the most significant byte comes first. |
| `BigEndian.DigitsAre` | include/prequel/serialization.hpp:107-142 | Only one sequence of bytes has the digits of a number, and it is read as that number. |
| `Members.MemberWindow` | include/prequel/serialization.hpp:750-789 | At any depth the window of a member holds its bytes, and replacing the window replaces the member. |
| `Members.WindowsApart` | include/prequel/serialization.hpp:802-839 | Members of which neither contains the other have disjoint windows. |
| `Members.OthersStay` | include/prequel/serialization.hpp:870-883 | Replacing one member leaves every separate member as it was. |
| `Members.FieldOffset` | include/prequel/serialization.hpp:750-771 | The search adds up the sizes of the fields before the one that is found. |
| `Members.SerializeMember` | include/prequel/serialization.hpp:870-883 | The buffer then holds the struct with that member replaced. |
| `Members.DeserializeMember` | include/prequel/serialization.hpp:841-856 | Reads exactly that member. |
| `FileFormat.File.Open` | src/simple_file_format.cpp:221-254 | Opens exactly files of whole blocks whose first block has the magic at 0, the version at 20, a flag byte with bit 0 set and bit 1 clear at 24, the block size at 25, the user data size at 29, and a readable anchor at 33; for writing, whatever a crash leaves from now on is rejected or is the image that was opened. |
| `FileFormat.File.MarkDirty` | src/simple_file_format.cpp:242-250 | The dirty mark is durable before anything else can change. |
| `FileFormat.File.Create` | src/simple_file_format.cpp:256-301 | Of all images a crash may leave while a file is created, only the complete new file is accepted. |
| `FileFormat.File.Flush` | src/simple_file_format.cpp:303-312 | Everything the application sees is in the file, and durable if sync is enabled, still marked dirty. |
| `FileFormat.File.Close` | src/simple_file_format.cpp:314-334 | With sync, every image that a crash could have left since opening is rejected, or is the one that was opened, or is the complete final state; the final state is accepted. |
| `FileFormat.File.MarkClean` | src/simple_file_format.cpp:321-332 | Removing the dirty mark is the last write, after all others are durable. |
| `FileFormat.File.SetUserData` | src/simple_file_format.cpp:356-360 | Changes the user data and no byte of the header. |
| `FileFormat.File.SyncHeader` | src/simple_file_format.cpp:95-100 | The main block then holds the header in memory. |
| `FileFormat.File.FlushMainBlock` | src/simple_file_format.cpp:110-113 | Writes the main block with the current header. |
| `FileFormat.File.Evict` | src/engine/engine_base.ipp:149-158 | Writing back a cached block at any time keeps what the application sees and the guarantee. |
| `FileFormat.File.FlushEngine` | src/engine/engine_base.ipp:106-116 | All changed blocks reach the file. |
| `FileFormat.MixtureWithoutSync` | src/simple_file_format.cpp:248-249 | Without sync, for every file and every change, a crash can leave a mixture that is opened. |
| `FileFormat.ZerosAreRejected` | src/simple_file_format.cpp:380-381 | A block of zeroes is not accepted as a header. |
| `FileFormat.HeaderReadBack` | src/simple_file_format.cpp:95-100 | A header is read back as it was written. |
| `FileFormat.AcceptsBytes` | src/simple_file_format.cpp:362-391 | A block is accepted as a header if and only if those bytes are in their places. |
| `FileFormat.NewBlockBytes` | src/simple_file_format.cpp:256-301 | The first block of a new file has those bytes, and the user data behind them. |
| `FileFormat.FlagsByte` | src/simple_file_format.cpp:102-108 | The flags are bits 0 and 1 of one byte. |
| `BTree.InsertOk` | src/container/btree/tree.ipp:242-376 | Every insertion with enough nodes keeps all leaves on one level, all nodes within their limits and the order; it adds exactly the value, at most one level, and at most one node per level plus one, which is the reserve that the allocator keeps. |
| `BTree.TryInsertOk` | src/container/btree/tree.ipp:242-450 | An insertion with any number of nodes adds exactly the value or keeps exactly the values, and keeps the tree valid, unless the root must be split and there is exactly one node. |
| `BTree.Enough` | src/container/btree/tree.ipp:242-450 | It succeeds if and only if there are as many nodes as the tree grows by, and the result does not depend on further nodes. |
| `BTree.Torn` | src/container/btree/tree.ipp:290-315 | With one node for a root that must be split, exactly the values above a key are lost: the upper half of an internal root, or the largest value of a root leaf, which may have the new value. |
| `BTree.FailureKeepsValues` | src/container/btree/tree.ipp:395-404 | A failed insertion keeps exactly the old values if and only if the root need not be split, or the number of nodes is not one, or the value is a new largest one of a root leaf. |
| `BTree.LostEntry` | src/container/btree/tree.ipp:290-315 | A root leaf with the values 1 and 3 that loses 3 in a failed insertion of 2. |
| `BTree.InsertDownOk` | src/container/btree/tree.ipp:378-429 | With any number of nodes, the descent below a node that is not full keeps shape, order and bounds; it adds the value, or no value and uses all nodes. |
| `BTree.InsertSplitOk` | src/container/btree/tree.ipp:395-419 | Splitting a full child and continuing in the half that its old position falls into preserves the order. |
| `BTree.InsertBelowRoot` | src/container/btree/tree.ipp:401-404 | After a root split one split less is needed below, so the bound on new nodes also holds when the tree grows. |
| `BTree.SplitOk` | src/container/btree/internal_node.ipp:139-162 | Both halves of a full node are trees of the same height within the limits, on either side of the key, and neither is full. |
| `BTree.SplitHas` | src/container/btree/internal_node.ipp:139-162 | The halves together hold exactly the values of the node. |
| `BTree.SplitLeafOk` | src/container/btree/tree.ipp:286-304 | With each of the three split positions both leaves are non-empty, within the limit, and separated by the key. |
| `BTree.WithSplitOrdered` | src/container/btree/internal_node.ipp:8-28 | A key strictly between the bounds of a child, with the two halves of that child, keeps the parent a search tree. |
| `BTree.FindOk` | src/container/btree/tree.ipp:64-117 | The one path that the search follows decides whether the value is anywhere in the tree. |
| `BTree.LookupOk` | src/container/btree/tree.ipp:171-180 | Searching finds a value if and only if the tree has it. |
| `BTreeErase.EraseOk` | src/container/btree/tree.ipp:537-687 | Erasing keeps all leaves on one level, all nodes within their limits and the order, removes exactly the value, and makes neither the number of nodes nor the height larger. |
| `BTreeErase.EraseDownOk` | src/container/btree/tree.ipp:537-786 | Below an internal node exactly the value goes, and the node loses at most one child. |
| `BTreeErase.FixLeafOk` | src/container/btree/tree.ipp:576-687 | Taking a value from a neighbour, merging with one, and dropping an empty first or last leaf keep all values in order. |
| `BTreeErase.FixLeafShape` | src/container/btree/tree.ipp:576-687 | The repaired leaves are within their limits. |
| `BTreeErase.FixNodeOk` | src/container/btree/tree.ipp:735-786 | Taking a child from a neighbour and merging internal nodes keep all values in order. |
| `BTreeErase.FixNodeShape` | src/container/btree/tree.ipp:735-786 | The repaired internal nodes are within their limits. |
| `BTreeErase.MergedRight` | src/container/btree/tree.ipp:944-968 | Merging with the right leaf may lower the key behind it to the largest value. |
| `BTreeErase.LookupAfterRun` | src/container/btree/tree.ipp:242-687 | After any insertions and erasures, in any order, exactly the values of the corresponding set are found. |
| `BTreeFill.BalancedAfterRun` | src/container/btree/tree.ipp:1305-1370 | After any insertions and erasures, in any order, every leaf but the first and the last and every internal node but the root is at least half full. |
| `BTreeFill.InsertBalanced` | src/container/btree/tree.ipp:242-450 | An insertion with any number of nodes keeps the tree balanced, even if its root is torn. |
| `BTreeFill.EraseBalanced` | src/container/btree/tree.ipp:537-786 | Erasing keeps the tree balanced. |
| `BTreeFill.FixLeafFilled` | src/container/btree/tree.ipp:576-687 | The leaf that lost a value and the neighbour that gave one or was merged are full enough again. |
| `BTreeFill.FixNodeFilled` | src/container/btree/tree.ipp:735-786 | The internal node that lost a child and the neighbour that gave one or was merged are full enough again. |
| `BTreeFill.TwoLeaves` | src/container/btree/tree.ipp:621-637 | The last two leaves become one exactly if the values that are left fit into it. |
| `BTreeFill.PackedAfterRun` | src/container/btree/tree.ipp:292-299 | When values are inserted in ascending or in descending order, all leaves but the first and the last are completely full. |
| `BTreeFill.HeightAfterRun` | src/container/btree/tree.ipp:242-687 | After any insertions and erasures, the height is logarithmic in the number of values. |
| `BTreeNodes.LeafNode.InsertNonfull` | src/container/btree/leaf_node.ipp:8-18 | Shifting in place inserts the value at its position. |
| `BTreeNodes.LeafNode.InsertFull` | src/container/btree/leaf_node.ipp:31-43 | The two leaves, one after the other, hold the old values with the new one at its position. |
| `BTreeNodes.SequenceInsert` | src/container/btree/leaf_node.ipp:88-112 | Both branches, without ever having room for all values in one leaf, produce the two parts of the sequence with the value inserted. |
| `BTreeNodes.InternalNode.InsertSplitResult` | src/container/btree/internal_node.ipp:8-28 | Key and child are inserted one position apart, and nothing else moves. |
| `BTreeNodes.InternalNode.Split` | src/container/btree/internal_node.ipp:139-162 | The node keeps the lower half, the new node has the upper half, and the key between them is returned and in neither. |
| `BTreeNodes.SplitStored` | src/container/btree/internal_node.ipp:8-28 | When children are referred to by block number, entering the new block at the parent replaces one subtree by its two halves. |
| `JournalLog.ReadBytes` | src/engine/journal.hpp:186-235 | Reading the bytes of a record gives the record, whatever follows. |
| `JournalLog.ReadIs` | src/engine/journal.hpp:186-235 | Bytes are read as a record if and only if they start with its type, 1 for begin, 2 for abort, 3 for commit and 4 for write, and its fields, most significant byte first. |
| `JournalLog.BytesAre` | src/engine/journal.hpp:186-235 | A record is written as exactly those bytes. |
| `JournalLog.ReadCut` | src/engine/journal.ipp:160-202 | A record that is cut off at any byte is not read. |
| `JournalLog.ReadWhole` | src/engine/journal.ipp:122-142 | What is read as a record is exactly the bytes that are there. |
| `JournalLog.HeaderIs` | src/engine/journal.ipp:59-84 | A file starts with the header exactly if magic, version and block size are the expected ones. |
| `JournalLog.NextOf` | src/engine/journal.ipp:153-227 | A complete transaction is found with its writes and its end, whatever follows it. |
| `JournalLog.NextWhole` | src/engine/journal.ipp:153-227 | What is found as a transaction is exactly the bytes of that transaction. |
| `JournalLog.NextOfUnfinished` | src/engine/journal.ipp:153-162 | A transaction that is cut off at any byte is not found. |
| `JournalLog.RestoreOf` | src/engine/journal.ipp:86-103 | A scan over complete transactions applies them in order and goes on behind the last one. |
| `JournalLog.RecoversOk` | src/engine/journal.ipp:86-103 | If no complete transaction starts behind those of a list, the scan restores the state after exactly that list. |
| `JournalLog.AnyTail` | src/engine/journal.ipp:86-115 | Whatever follows the synced transactions: the complete transactions that it starts with are restored as if they had been committed, nothing else is, and the scan stops at the synced part exactly if there are none. |
| `JournalLog.EveryLog` | src/engine/journal.ipp:86-115 | Every sequence of bytes starts with a list of transactions behind which no other one is found. |
| `JournalLog.TornBlockIsRestored` | src/engine/journal.ipp:181-190 | There are no checksums: if a crash keeps the end of a transaction but not one of its blocks, the log restores a block that was never committed, for every log, transaction and block. |
| `JournalLog.DataIsThere` | src/engine/journal.ipp:345-351 | The block of a write is at the recorded position. |
| `JournalLog.DataReplaced` | src/engine/journal.ipp:338-343 | Overwriting a block in the log, or the start of it, gives the log of the transaction with that block changed. |
| `JournalLog.SameView` | src/engine/journal.hpp:23-28 | Blocks that the journal has may be anything in the database file. |
| `JournalLog.AfterBelow` | src/engine/journal.ipp:291-296 | After any transactions the blocks of the journal lie within the committed size, and there are none without one. |
| `JournalIndex.LocatedMore` | src/engine/journal.ipp:286-296 | Merging the positions of a transaction, whose last write of a block counts, leads to the blocks of the state after its commit. |
| `JournalIndex.WrittenIs` | src/engine/journal.ipp:232-253 | After the writes of a transaction a block is the last one written to it, or the one before. |
| `JournalScan.ScanTransaction` | src/engine/journal.ipp:117-230 | The loop over the records finds a transaction exactly if there is a complete one, with its bytes and the positions of the last writes of all blocks. |
| `JournalScan.RecoversOne` | src/engine/journal.ipp:86-103 | A log has only one list of transactions. |
| `Journals.CrashRecovery` | src/engine/journal.hpp:80-88 | From every image of the log that a crash may leave, exactly the state of one of the commits is restored, from the last synced one on. |
| `Journals.FoundAfterCrash` | src/engine/journal.ipp:86-115 | The transactions that are found after a crash are those that were committed, without some of the unsynced ones. |
| `Journals.Recover` | src/engine/journal.ipp:33-115 | Opening what a crash left behind gives a valid journal with the state of a commit that may be the last one; a crash while doing so changes nothing. |
| `Journals.Journal.constructor` | src/engine/journal.ipp:17-24 | A journal that knows nothing of its log yet. |
| `Journals.Journal.Flush` | src/engine/journal.ipp:514-524 | Writes the buffer behind the end of the file; a crash may leave any part of it. |
| `Journals.Journal.Append` | src/engine/journal.ipp:493-512 | Appends to the log through the buffer, with as many flushes as needed; a crash leaves a part of the log between its old and its new end. |
| `Journals.Journal.ReadAt` | src/engine/journal.ipp:432-460 | Reads from the file and the buffer as from one log. |
| `Journals.Journal.WriteAt` | src/engine/journal.ipp:462-491 | Overwrites a part of the log across file and buffer; a crash leaves a part of the change. |
| `Journals.Journal.Start` | src/engine/journal.ipp:255-264 | Starts a transaction; every crash image restores what it did before. |
| `Journals.Journal.Write` | src/engine/journal.ipp:332-352 | The running transaction sees the block; every crash image restores the same commits as before. |
| `Journals.Journal.WriteNew` | src/engine/journal.ipp:345-351 | A block that the transaction writes for the first time is appended. |
| `Journals.Journal.Rewrite` | src/engine/journal.ipp:338-343 | A block that the transaction has written before is overwritten in its place, even where the file already has it. |
| `Journals.Journal.Commit` | src/engine/journal.ipp:266-301 | The state is that of the running transaction, cut to the new size. Every crash image during the commit restores the state with or without it; after a sync only the new one. |
| `Journals.Journal.Abort` | src/engine/journal.ipp:303-330 | The state is that of the last commit again, whether the transaction was in the buffer or already in the file. |
| `Journals.Journal.Read` | src/engine/journal.ipp:232-253 | Reads the block as the running transaction sees it, or says that the journal does not have it. |
| `Journals.Journal.Replay` | src/engine/journal.ipp:192-223 | A transaction that was found extends the known part of the log: a commit merges the positions and cuts them to the size, an abort has no effect. |
| `Journals.Journal.ScanAll` | src/engine/journal.ipp:86-103 | The scan stops exactly where no complete transaction starts. |
| `Journals.Journal.HasHeader` | src/engine/journal.ipp:56-84 | Accepts exactly the files that start with the header. |
| `Journals.Journal.Open` | src/engine/journal.ipp:33-115 | Opens exactly the empty files and those with the right header; the journal has all complete transactions, and the rest is cut off. A crash while an empty file is initialized can leave a part of the header, which is refused later. |
| `Journals.Journal.OpenForReading` | src/engine/journal.ipp:33-115 | For a file that may not be written to: accepts the same files, finds the same transactions, and leaves the file as it is. |
| `Journals.Journal.ReadOnly` | src/engine/journal.ipp:232-253 | Reads the committed blocks of such a file, although its end was not cut off. |
| `Journals.Journal.Transfer` | src/engine/journal.ipp:370-404 | The database file becomes the database; until then, whatever part of the changes reaches the disk in whatever order, the two files have the same database together. |
| `Journals.Journal.CopyBlocks` | src/engine/journal.ipp:380-398 | Copies every block of the journal and no other. |
| `Journals.Journal.Clear` | src/engine/journal.ipp:406-419 | Empties the log, which requires that all its blocks are safe in the database file. |
| `Journals.Journal.Checkpoint` | src/engine/journal.ipp:354-420 | The two files have the same database as before, now without the journal. All combinations of log and database file that a crash can leave at any time give that same database. Fails exactly if the size in bytes does not fit 64 bits. |
| `TransactionEngines.TransactionEngine.constructor` | src/engine/transaction_engine.ipp:13-31 | The database is what the two files have together. |
| `TransactionEngines.TransactionEngine.Begin` | src/engine/transaction_engine.ipp:37-47 | Fails exactly if a transaction is running. |
| `TransactionEngines.TransactionEngine.Grow` | src/engine/transaction_engine.ipp:160-166 | The new blocks are zero, also where the cache, the journal or a rolled back transaction had blocks there. |
| `TransactionEngines.TransactionEngine.ReadBlock` | src/engine/transaction_engine.ipp:139-182 | Reads the block that the running transaction sees, from cache, journal, file or behind its end; fails exactly without a transaction or behind the end. |
| `TransactionEngines.TransactionEngine.Pin` | src/engine/transaction_engine.ipp:139-152 | Keeps a block in memory; fails exactly without a transaction, behind the end, and for a block that is pinned. |
| `TransactionEngines.TransactionEngine.WriteBlock` | src/engine/engine_base.ipp:82-94 | Changes exactly one block of what the running transaction sees. |
| `TransactionEngines.TransactionEngine.FlushBlock` | src/engine/transaction_engine.ipp:184-197 | Moves a changed block to the journal, whose transaction starts with the first one; nothing visible or stored changes. |
| `TransactionEngines.TransactionEngine.Evict` | src/engine/engine_base.ipp:149-168 | Evicting any block that is not pinned at any time takes it out of memory and changes nothing that can be seen. |
| `TransactionEngines.TransactionEngine.Flush` | src/engine/engine_base.ipp:106-116 | No changed block remains in memory only. |
| `TransactionEngines.TransactionEngine.Commit` | src/engine/transaction_engine.ipp:49-74 | Fails exactly without a transaction or with pinned blocks. What the transaction sees becomes what is stored exactly if it has changed a block or the size is the stored one. Every crash image during the commit restores a commit. |
| `TransactionEngines.TransactionEngine.Discard` | src/engine/transaction_engine.ipp:86-104 | What remains in the cache is what was committed, although blocks of the transaction may be clean in memory. |
| `TransactionEngines.TransactionEngine.Rollback` | src/engine/transaction_engine.ipp:76-111 | Fails exactly without a transaction or with pinned blocks. The database is what is stored, in content and size. |
| `TransactionEngines.TransactionEngine.Checkpoint` | src/engine/transaction_engine.ipp:113-137 | Nothing that can be seen or that is stored changes, also for cached blocks, and every crash state has the same database. States exactly when it fails. |
| `TransactionEngines.TransactionEngine.CrashKeeps` | src/engine/journal.hpp:80-88 | At any time, also in the middle of a transaction, a crash leaves the state of a commit: the last one if commits are synced. |
| `TransactionEngines.BeforeOrAfter` | src/engine/journal.ipp:266-301 | Every log that a crash leaves during a commit has the database before or after it. |
| `TransactionRuns.Perform` | include/prequel/transaction_engine.hpp:33-82 | Every pair of files that a crash can leave between the start and the end of any operation has what was stored before it or what is stored after it. |
| `TransactionRuns.Execute` | include/prequel/transaction_engine.hpp:33-82 | In every run, with evictions anywhere, all answers are those of two sequences of blocks, the stored and the visible one. |
| `TransactionRuns.Reopen` | src/engine/transaction_engine.ipp:13-31 | Opening two files that have a database together gives an engine with that database and nothing running. |
| `TransactionRuns.LiveOnce` | include/prequel/transaction_engine.hpp:33-82 | A run that a crash stops in the middle of an operation, and the engine that is opened afterwards: it has what was stored, with or without the interrupted commit. |
| `TransactionRuns.Survive` | include/prequel/transaction_engine.hpp:33-82 | Any number of crashes, each in the middle of any operation of a run, with any files that the crash can leave: every engine that is opened goes on with what the last one had stored. |
| `TransactionRuns.StoredByCommit` | include/prequel/transaction_engine.hpp:41-51 | After every run, a commit that succeeds stores what the transaction sees exactly if it has changed a block or the size is the stored one. |
| `TransactionRuns.GrowthIsLost` | src/engine/transaction_engine.ipp:65-71 | A transaction that only grows the database is committed without an error, and the next rollback takes its block away. |

## Left out

- The rest of the B-tree: cursors and their updates, lower and upper bounds over leaf borders, bulk loading. Insertion and erasing are modelled on trees as values; the node operations of insertion also in place on arrays of elements. After a root was torn, the stale reference to the last leaf and the counters of the tree are not modelled.
- Integer widths other than those stated: block numbers, addresses and counters are unbounded. Widths are explicit where the code depends on them (rounding to powers of two, array sizes up to 2^63, 32-bit page fields and object sizes, reference values).
- Heaps.Heap.Allocate: excludes the three sizes for which size and header wrap around to 1, 2 or 3 bytes. HeapState.LargeBlocksFit proves that they get at most one block; the bytes are then written over the blocks behind it.
- Allocator.Allocator.FixFreelist: which spare blocks are returned and which are taken depends on the shapes of the index trees, which are left open. Exact is only that a reserve that needs no change stays as it is, and that each of the two loops ends where the library ends it.
- Allocator.Allocator.Release: for the same reason, how many of the freed blocks become spare ones is bounded, not exact.
- Heaps.Heap.LowerBound: searches the entries of the free map instead of the leaves of its tree.
- HeapRuns.Execute: ends with a request that leaves an index inconsistent. What is left then is stated by Heaps.Heap.Allocate and Heaps.Heap.Free, but no further requests are considered.
- AllocatorRuns.Run.Execute: regions lie in the file as it is at the start of the run. AllocatorRuns.Run.AddRegion has the exact condition for any region.
- Heaps.Heap.ReadPage: a page is read into a handle object and written back at the end of an operation instead of being changed in the engine's buffer; the writes between are to other blocks.
- FileFormat.File.Open: writes of a block are atomic, as the protocol needs.
- FileFormat.File.WriteBlock: the application does not write the main block through the engine, only its user data.
- IdGenerator.Generator.Free: the tree is a set of intervals, and which of them a failed insertion loses is left open. Lost ids count as live. An id of zero or above the maximum, which aborts the process, is an error result.
- Serialization of variants without a value, of floating point numbers and of user-written serializers.
- Serialization.SerializeVariant: requires that every alternative fits the space that the in-memory sizes reserve; the library does not check this.
- Allocation of handle objects, memory exhaustion and I/O errors other than those of pinning and marking blocks.
- Journals.Journal.Commit: the log file keeps writes in their order, up to some byte, until the next sync, and a change of its size is atomic; JournalLog.AnyTail covers any other order. Journals.Journal.Transfer needs no order for the database file.
- Journals.Journal.Checkpoint: the database file is a sequence of whole blocks. That its size may not be a multiple of the block size is not modelled.
- Journals.Journal.Open: opening is a method of its own, since the constructor of the library fails with it.
- TransactionEngines.TransactionEngine.constructor: requires a database file that is not longer than the size in the journal, as every run and every crash leaves it.
- TransactionEngines.TransactionEngine.ReadBlock: a block that is not pinned is pinned only during a read or write. Which block is evicted when is left open.
- TransactionRuns.Survive: commits are synced, as by default. TransactionEngines.TransactionEngine.CrashKeeps and Journals.CrashRecovery state what is left otherwise.
- The memory-mapped and in-memory engines, and the virtual file system.
- Hash tables, lists, default containers, iterators, printing and dump functions, example programs: they would add easy members only or rest on the B-tree.

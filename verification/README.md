# iPXE core: a verified model

This project models the core of the iPXE network boot firmware as vendored in
`ipxe-builder/ipxe/src/core`, and proves what its comments, assertions and callers rely on.
Verify with `dafny verify dfyconfig.toml`.

Code that works on state is modelled by classes and methods with loops, each proved against a
specification function or relation; the laws are then lemmas about those specifications.

| files | subject |
|---|---|
| `Basics`, `Lists` | shared types and lists |
| `Bits`, `FreeList`, `HeapState`, `HeapLaws`, `Heap`, `Realloc` | the heap: free list, alignment, reallocation (`malloc.c`) |
| `UHeapState`, `UHeap` | the external heap that grows and shrinks around it (`uheap.c`) |
| `FdtFormat`, `FdtWalk`, `FdtTree`, `FdtSpec`, `FdtRead`, `FdtReadLaws` | reading flattened device trees (`fdt.c`) |
| `FdtSplice`, `FdtBlob`, `FdtEdit`, `FdtUpdate`, `FdtSet`, `FdtProps`, `FdtBoot`, `FdtBuild` | editing them in place (`fdt.c`) |
| `Memmap`, `Relocate` | the memory map and the choice of a relocation address (`memmap.c`, `fdtmem.c`) |
| `InterfaceNet`, `InterfaceClose`, `Interface` | object interfaces and reference counts (`interface.c`, `refcnt.c`) |
| `Settings`, `SettingsTree` | the settings tree and its priorities (`settings.c`) |
| `UriCodec`, `Uri`, `UriLaws` | URI encoding, parsing and formatting (`uri.c`) |
| `Process` | the cooperative scheduler (`process.c`) |
| `San` | SAN paths, command retries and transfers (`sanboot.c`) |
| `Base64`, `LineBuffer`, `Calendar` | `base64.c`, `linebuf.c`, `time.c` |

## Properties that hold only under a condition

Each has its exact condition as a lemma, and an example where that is not obvious.

- The overflow check of `heap_alloc_block()` is complete, and the caller gets all the bytes asked for, if and only if size
  plus offset is at most 2^64 (`OverflowCheckExact`, `AllocCoversRequestExactly`, `ShortFootprint`).
- Memory at address zero is taken for a null pointer and ignored by populate and by the external heap's grow
  (`PopulateExact`, `GrowExact`, `GrowToZeroFails`).
- The assertion at the end of `fdt_describe()` holds for all trees of a length if and only if that is whole words
  (`StaysInsideExactly`).
- `fdt_match()` is equality if and only if the name looked up has only permitted characters (`MatchExactly`).
- `fdt_insert()` recognises the blocks to move by their start, so a string added to an empty strings block is stored past the
  inserted space, over whatever follows (`AppendExact`, `EmptyAppend`, `StructureLost`).
- `fdt_set()` erases before it inserts, so a failure, for lack of free space only, loses an existing property (`Set`,
  `DeleteUnchanged`, `LoseProperty`); deleting removes only the first match (`DeleteThenFind`). Deleting a property that does
  not exist still adds its name to the strings block, and fails if there is no room for that (`Set`).
- `memmap_update()` does not shorten an interval whose last address is the start of the known region (`UpdateExact`,
  `DescribeExact`, `WalkExact`, `OrderMatters`), and relocation may then choose a place whose last byte is taken
  (`LastByteTaken`). Its comment promises the shortening; the model follows the code.
- `intf_plug()` and `intf_unplug()` release the old destination before they store the new one, which is safe if and only if that
  does not free the interface itself (`PlugStoreExact`, `SelfPlugLost`).
- `reprioritise_settings()` keeps siblings sorted by priority if and only if no sibling has higher priority and lower
  order (`ReinsertExact`, `MixedOrder`), and the whole tree if and only if that is so at every level (`ReprioritiseExact`).
- A formatted host parses back if and only if its colons are within brackets at the end (`HostExact`, `ColonInHost`), and a whole
  absolute URI if and only if it is canonical (`ParseFormatExact`).
- `sandev_rw()` computes the number of blocks in 32 bits and addresses in 64 (`WholeTransfer`).
- `sandev_reopen()` returns zero without an active path if and only if all paths close and the first of them as a spare
  (`AllClosedExact`, `ZeroWithoutPath`).
- `mktime()` divides with truncation, so before 1900 leap days are counted wrongly in some years and months (`LeapExact`,
  `LeapCountExact`, `CountExact`, `WeekDay`, `DayLost`).

## Model

| member | source | states |
|---|---|---|
| FreeList.CanonicalIndex | ipxe-builder/ipxe/src/core/malloc.c:186-218 | A list in the model's recursive order is exactly one whose blocks are non-empty, ascending and never touching, pair by pair, which is what the integrity check asserts neighbour by neighbour |
| FreeList.CanonicalUnique | ipxe-builder/ipxe/src/core/malloc.c:456-495 | A sorted, coalesced free list is determined by the set of bytes it covers |
| FreeList.SplitThenInsert | ipxe-builder/ipxe/src/core/malloc.c:317-368 | Taking a range out of a block and inserting it again gives back the same list, block for block |
| HeapState.OverflowCheckExact | ipxe-builder/ipxe/src/core/malloc.c:287-296 | The test `actual_size == 0` catches every wrap of the size computation if and only if the size plus the offset within an alignment unit is at most 2^64 |
| HeapState.PrepareBits | ipxe-builder/ipxe/src/core/malloc.c:281-296 | The mask expressions compute the rounded size and the offsets that the specification states with remainders |
| HeapState.PreSizeBits | ipxe-builder/ipxe/src/core/malloc.c:314-316 | `( actual_offset - block ) & align_mask` is the distance from the block to the first address with the wanted residue |
| HeapState.Placement | ipxe-builder/ipxe/src/core/malloc.c:311-368 | A request that fits is placed so that the footprint of the pointer is exactly the bytes taken from the block |
| HeapLaws.AllocKeepsInv | ipxe-builder/ipxe/src/core/malloc.c:266-396 | Allocation, successful or not, keeps the heap invariant: canonical aligned free list, free and live bytes disjoint, live footprints pairwise disjoint, both counters exact |
| HeapLaws.AllocFails | ipxe-builder/ipxe/src/core/malloc.c:293-296 | Allocation fails if and only if the rounded size is zero or no block fits, and then changes nothing |
| HeapLaws.AllocAligned | ipxe-builder/ipxe/src/core/malloc.c:252-264 | The pointer is not null, lies in its own footprint and is congruent to the requested offset modulo the requested alignment |
| HeapLaws.AllocTakesFootprint | ipxe-builder/ipxe/src/core/malloc.c:317-368 | A byte is free afterwards if and only if it was free before and is not in the new footprint, and the whole footprint was free |
| HeapLaws.AllocCoversRequestExactly | ipxe-builder/ipxe/src/core/malloc.c:287-304 | The caller's bytes lie inside the footprint if and only if the size plus the requested offset within an alignment unit is at most 2^64 |
| HeapLaws.ShortFootprint | ipxe-builder/ipxe/src/core/malloc.c:287-304 | 2^64 - 1 bytes at offset 16 of alignment 32 are granted with a footprint of 32 bytes |
| HeapLaws.ZeroAlignFails | ipxe-builder/ipxe/src/core/malloc.c:281-296 | A request with alignment zero never succeeds |
| HeapLaws.FreeKeepsInv | ipxe-builder/ipxe/src/core/malloc.c:407-514 | Freeing a live allocation keeps the invariant and makes free exactly the bytes of its footprint |
| HeapLaws.AllocThenFree | ipxe-builder/ipxe/src/core/malloc.c:266-514 | Allocating and then freeing the same pointer and size restores the free list, the live list and both counters; only the high-water mark may have moved |
| HeapLaws.PopulateExact | ipxe-builder/ipxe/src/core/malloc.c:739-750 | Adding memory keeps the invariant if and only if it does not start at address zero, where the memory is ignored and the usage counter drifts |
| HeapLaws.RunKeepsInv | ipxe-builder/ipxe/src/core/malloc.c:186-514 | Every state reached by any run of populate, alloc and free satisfies the invariant |
| HeapLaws.ReachableHeap | ipxe-builder/ipxe/src/core/malloc.c:186-218 | In every reachable heap the free blocks are aligned, ordered, apart and non-empty, live footprints are pairwise disjoint and disjoint from free blocks, the counters are the sums of the sizes, and every live pointer is congruent to the offset, modulo the alignment, of the request that it was granted for |
| Heap.Gaps | ipxe-builder/ipxe/src/core/malloc.c:456-470 | The two differences, reinterpreted as signed, are negative, zero or positive exactly as the blocks overlap, touch or lie apart |
| Heap.FindPlace | ipxe-builder/ipxe/src/core/malloc.c:456-481 | The walk finds the place of the freed block, absorbing a block that ends where it starts: linking it in there yields the canonical insertion |
| Heap.Heap.CheckBlocks | ipxe-builder/ipxe/src/core/malloc.c:186-218 | The neighbour-by-neighbour check passes if and only if the list is ordered and apart pair by pair, every block starts aligned, and none is smaller than its record or than the alignment |
| Heap.Heap.PrepareRequest | ipxe-builder/ipxe/src/core/malloc.c:281-296 | The request computed with masks is the one of the specification |
| Heap.Heap.Search | ipxe-builder/ipxe/src/core/malloc.c:311-325 | The search stops at the first block that fits, or at the end of the list if none does |
| Heap.Heap.AllocOnce | ipxe-builder/ipxe/src/core/malloc.c:281-368 | One pass over the free list refines the specified allocation and changes no byte outside free memory |
| Heap.Heap.Take | ipxe-builder/ipxe/src/core/malloc.c:317-368 | Carving the request out of the block refines the specified split, with counters and pointer |
| Heap.Heap.InsertBlock | ipxe-builder/ipxe/src/core/malloc.c:456-495 | In-place insertion with merging on either side refines the canonical insertion, and says which block now holds the freed one |
| Heap.Heap.BlockOf | ipxe-builder/ipxe/src/core/malloc.c:421-427 | The block computed with masks from a pointer and size is the footprint that was allocated |
| Heap.Heap.FreeBlock | ipxe-builder/ipxe/src/core/malloc.c:407-509 | Refines the specified free, changes no byte outside free memory, and returns the merged block that the shrink hook sees |
| Heap.Heap.PopulateBlock | ipxe-builder/ipxe/src/core/malloc.c:739-750 | Refines the specified populate, also for memory at address zero, and returns the merged block that the shrink hook is given |
| Realloc.AllocBlock | ipxe-builder/ipxe/src/core/malloc.c:311-392 | With caches to discard, succeeds as soon as enough has been discarded; every allocation outside the cache keeps its place and its bytes |
| Realloc.CachedFails | ipxe-builder/ipxe/src/core/malloc.c:311-392 | Allocation gives up if and only if the rounded size is zero or nothing fits even with the whole cache discarded |
| Realloc.Discard | ipxe-builder/ipxe/src/core/malloc.c:228-239 | Discarding a cached block leaves the bytes of every other allocation alone |
| Realloc.LERoundTrip | ipxe-builder/ipxe/src/core/malloc.c:556-580 | A size stored in a block header reads back, for every size that fits the field |
| Realloc.TrackedPlacement | ipxe-builder/ipxe/src/core/malloc.c:548-564 | The data of a size-tracked block is aligned to the pointer alignment and has room for the header before it and the requested size after it |
| Realloc.CopyData | ipxe-builder/ipxe/src/core/malloc.c:566-575 | The first min(old, new) bytes of the new block equal those of the old, and no other allocation changes |
| Realloc.ReallocBlock | ipxe-builder/ipxe/src/core/malloc.c:537-590 | heap_realloc(): succeeds if and only if the allocation of size and header does; on failure the old block and every other non-cached allocation are untouched; on success the result is aligned, tracked with its size, starts with the old contents, and the old block is gone; size zero frees |
| UHeapState.FindAligned | ipxe-builder/ipxe/src/core/uheap.c:92-124 | A region is recorded if and only if its first page boundary is not after its last one, and then it runs from one to the other |
| UHeapState.GrowExact | ipxe-builder/ipxe/src/core/uheap.c:135-152 | Growing succeeds if and only if enough space is left below the heap, and then keeps the heap sound if and only if the new start is not address zero |
| UHeapState.GrownAllocSucceeds | ipxe-builder/ipxe/src/core/uheap.c:135-152 | After a successful grow the retried allocation succeeds and takes the lowest block, so none is left free for shrink |
| UHeapState.AllocKeepsUInv | ipxe-builder/ipxe/src/core/malloc.c:311-368 | An allocation without growing keeps the heap tiled and its lowest block live |
| UHeapState.UFreeKeepsUInv | ipxe-builder/ipxe/src/core/uheap.c:161-171 | Freeing, with the shrink hook, keeps the heap exactly tiled, its bounds aligned and ordered, and its lowest block live |
| UHeapState.FreedIsLowest | ipxe-builder/ipxe/src/core/uheap.c:161-171 | The test on the pointer given to the hook is true exactly when the freed block is now the first block of the heap |
| UHeapState.AllFreeIsEmpty | ipxe-builder/ipxe/src/core/uheap.c:161-171 | When nothing is live, start equals end: freeing everything restores the initial state |
| UHeapState.UAllocExact | ipxe-builder/ipxe/src/core/malloc.c:311-392 | Allocation on the external heap keeps the invariant and fails if and only if the rounded size is zero or neither the free blocks nor the space left suffice |
| UHeapState.GrowToZeroFails | ipxe-builder/ipxe/src/core/uheap.c:135-152 | A heap that grows down to address zero uses all of its region and still cannot satisfy the request |
| UHeapState.URunKeepsUInv | ipxe-builder/ipxe/src/core/uheap.c:72-171 | Over every run, `limit <= start <= end` are page aligned, free and live blocks exactly tile the heap, and the lowest block is never free |
| UHeap.UHeap.FindRegion | ipxe-builder/ipxe/src/core/uheap.c:92-124 | The mask arithmetic computes the specified page-aligned region |
| UHeap.UHeap.ShrinkBy | ipxe-builder/ipxe/src/core/uheap.c:161-171 | The hook shrinks the heap if and only if the block it is given starts the heap |
| UHeap.UHeap.GrowHere | ipxe-builder/ipxe/src/core/uheap.c:141-152 | Refines the specified grow; the shrink hook that populate calls meanwhile is given a block below the current start and declines |
| UHeap.UHeap.GrowBy | ipxe-builder/ipxe/src/core/uheap.c:135-152 | Finds a region if none is in use, and refines the specified grow |
| UHeap.UHeap.AllocBlock | ipxe-builder/ipxe/src/core/malloc.c:311-392 | The retry loop around the grow hook refines the specified allocation |
| UHeap.UHeap.FreeBlock | ipxe-builder/ipxe/src/core/uheap.c:161-171 | Free followed by the shrink hook refines the specified free |
| FdtFormat.StaysInsideExactly | ipxe-builder/ipxe/src/core/fdt.c:90-190 | For trees of a given length, the next token never starts past the end, whatever the bytes, if and only if the length is whole words or less than one |
| FdtFormat.PaddedPastEnd | ipxe-builder/ipxe/src/core/fdt.c:178-187 | A concrete tree of each other length whose last token is padded past the end |
| FdtWalk.TokensOf | ipxe-builder/ipxe/src/core/fdt.c:90-190 | Each described token ends strictly after it starts and within the tree, which is why every walk terminates |
| FdtWalk.MatchExactly | ipxe-builder/ipxe/src/core/fdt.c:61-80 | Name matching is equality for all token names if and only if the looked-up name has only permitted characters |
| FdtWalk.FdtEnter | ipxe-builder/ipxe/src/core/fdt.c:212-242 | The loop computes the specified walk over NOPs, for any bytes |
| FdtWalk.FdtDepth | ipxe-builder/ipxe/src/core/fdt.c:252-284 | The loop computes the specified depth, for any bytes |
| FdtWalk.FdtParent | ipxe-builder/ipxe/src/core/fdt.c:293-336 | The loop computes the specified parent, for any bytes |
| FdtWalk.FdtChild | ipxe-builder/ipxe/src/core/fdt.c:347-381 | The loop computes the specified child search, for any bytes |
| FdtWalk.FdtEnd | ipxe-builder/ipxe/src/core/fdt.c:391-416 | The loop computes the specified end, for any bytes |
| FdtWalk.FdtProperty | ipxe-builder/ipxe/src/core/fdt.c:495-529 | The loop computes the specified property search, for any bytes |
| FdtWalk.FdtPath | ipxe-builder/ipxe/src/core/fdt.c:426-456 | The loop over path components computes the specified lookup, for any bytes |
| FdtReadLaws.ChildCorrect | ipxe-builder/ipxe/src/core/fdt.c:347-381 | On a buffer that encodes a tree, with NOPs anywhere, fdt_child() returns exactly the first matching child, or not found |
| FdtReadLaws.PropertyCorrect | ipxe-builder/ipxe/src/core/fdt.c:495-529 | fdt_property() returns the first matching property of the node with its name, length and data, or not found |
| FdtReadLaws.EndCorrect | ipxe-builder/ipxe/src/core/fdt.c:391-416 | fdt_end() returns the closing token of that node and no other |
| FdtReadLaws.ParentCorrect | ipxe-builder/ipxe/src/core/fdt.c:252-336 | fdt_parent() returns the true parent of every node but the root |
| FdtReadLaws.PathCorrect | ipxe-builder/ipxe/src/core/fdt.c:426-456 | fdt_path(), which starts at offset 0, resolves every path to the node that its components between slashes lead to by name matching, or not found, with repeated slashes and even if NOPs come before the root; no node name has a slash |
| FdtReadLaws.PlainComponent | ipxe-builder/ipxe/src/core/fdt.c:61-80 | A component of permitted characters leads to the first child of exactly that name |
| FdtReadLaws.SerialisesUnique | ipxe-builder/ipxe/src/core/fdt.c:90-190 | A buffer serialises at most one tree |
| FdtBlob.BlockMoves | ipxe-builder/ipxe/src/core/fdt.c:1076-1110 | A block that the insertion point does not cut keeps its bytes at the place its recorded offset moves to |
| FdtBlob.BlockAround | ipxe-builder/ipxe/src/core/fdt.c:1076-1081 | A block that contains the insertion point gains exactly the zero bytes there |
| FdtBlob.StoreField | ipxe-builder/ipxe/src/core/fdt.c:1090-1107 | Storing one header field changes no other field and nothing after the header |
| FdtBlob.MoveAligned | ipxe-builder/ipxe/src/core/fdt.c:1044-1057 | Insertions of a multiple of eight bytes keep the alignment of every block |
| FdtEdit.Editor.Realloc | ipxe-builder/ipxe/src/core/fdt.c:1330-1350 | Growing keeps the contents and records the new size in the header; failing changes nothing |
| FdtEdit.Editor.Insert | ipxe-builder/ipxe/src/core/fdt.c:1049-1110 | Fails only for lack of free space, and always then if the blob cannot grow, changing nothing; on success the bytes are inserted, later blocks move, and the header agrees with every recorded offset and length |
| FdtEdit.Editor.Nop | ipxe-builder/ipxe/src/core/fdt.c:1117-1130 | Fills exactly the given range with NOP tokens |
| FdtEdit.Editor.InsertNop | ipxe-builder/ipxe/src/core/fdt.c:1139-1164 | The structure block gains exactly the NOPs at the offset; strings, reservations, alignment and header stay consistent; fails only for lack of free space, and always then if the blob cannot grow |
| FdtEdit.Editor.InsertString | ipxe-builder/ipxe/src/core/fdt.c:1174-1199 | The space and the string go where the C code puts them, for any strings block; the offset is the old length; fails only for lack of free space, and always then if the blob cannot grow |
| FdtEdit.StringInserted | ipxe-builder/ipxe/src/core/fdt.c:1174-1199 | A strings block that is not empty gains exactly the padded string, and the other blocks keep their bytes |
| FdtEdit.AppendReadsBack | ipxe-builder/ipxe/src/core/fdt.c:1188-1190 | The string reads back at the offset returned, wherever it was stored |
| FdtEdit.AppendExact | ipxe-builder/ipxe/src/core/fdt.c:1083-1104 | Afterwards the blocks still lie apart if and only if the strings block was not empty or no other block lies in as many bytes after its start |
| FdtEdit.EmptyAppend | ipxe-builder/ipxe/src/core/fdt.c:1096-1102 | With an empty strings block the inserted space stays zero and the string is stored over the bytes that follow it |
| FdtEdit.StructureLost | ipxe-builder/ipxe/src/core/fdt.c:1096-1102 | With an empty strings block just before the structure block, the string overwrites the first tokens |
| FdtSplice.UpdateSplices | ipxe-builder/ipxe/src/core/fdt.c:1209-1321 | Replacing a node's contents in the tree is replacing one contiguous range in its encoding |
| FdtSplice.PutAtReads | ipxe-builder/ipxe/src/core/fdt.c:1254-1321 | A replaced subtree is what its path leads to, every other path that does not pass it leads where it did, and the ancestors keep name, properties and number of children |
| FdtUpdate.NodeEdited | ipxe-builder/ipxe/src/core/fdt.c:1209-1321 | A splice of the bytes of one node yields a blob that encodes the old tree with exactly that node's contents replaced |
| FdtUpdate.NamesGrow | ipxe-builder/ipxe/src/core/fdt.c:1174-1199 | Adding to the strings block changes no property name |
| FdtUpdate.ChildOverNops | ipxe-builder/ipxe/src/core/fdt.c:1228-1238 | What is written for a new node is an empty node, its name padded with the rest of a NOP, followed by whole NOPs |
| FdtUpdate.PropOverNops | ipxe-builder/ipxe/src/core/fdt.c:1308-1316 | What is written for a property is the property with zero padding, followed by whole NOPs |
| FdtUpdate.EncodesRepresents | ipxe-builder/ipxe/src/core/fdt.c:1049-1321 | Every blob that the editor maintains is one that the readers' theorems apply to |
| FdtSet.EnsureChild | ipxe-builder/ipxe/src/core/fdt.c:1209-1242 | An existing child is returned and nothing changes; otherwise the tree gains exactly an empty child, last, at the returned offset; it fails only for lack of free space, always then if the blob cannot grow, and nothing changes |
| FdtProps.Set | ipxe-builder/ipxe/src/core/fdt.c:1254-1321 | The tree has exactly that property set or deleted, everything else and the node's offset unchanged. It fails only if less is free than it inserts, and always then if the blob cannot grow; the property is then deleted. The strings block gains the name exactly if there was no such property, even to delete it |
| FdtProps.DeleteUnchanged | ipxe-builder/ipxe/src/core/fdt.c:1269-1302 | What a failure leaves is the tree as it was if and only if there was no such property |
| FdtBuild.LoseProperty | ipxe-builder/ipxe/src/core/fdt.c:1269-1307 | A blob without free space: setting an existing property to longer data fails and deletes it |
| FdtProps.SetThenFind | ipxe-builder/ipxe/src/core/fdt.c:1254-1321 | A property that was set is the one found, with the data that was set |
| FdtProps.DeleteThenFind | ipxe-builder/ipxe/src/core/fdt.c:1300-1302 | A deleted property is no longer found if and only if it was the only match |
| FdtProps.SetThenFindOther | ipxe-builder/ipxe/src/core/fdt.c:1254-1321 | A lookup of any other name finds what it did before |
| FdtProps.ReplaceFits | ipxe-builder/ipxe/src/core/fdt.c:1283-1306 | The erased and the inserted space together always have room for the new property |
| FdtBoot.BootArgs | ipxe-builder/ipxe/src/core/fdt.c:1363-1393 | On success a lookup of the chosen node finds properties that read back the command line and the bounds of the ramdisk; what is not given is no longer found if and only if it was there at most once; no other property of permitted characters and no other part of the tree is changed. A failure leaves the tree as it was, or the properties before the failing one as given, that one deleted, and those after it as they were |
| FdtBoot.AddressReads | ipxe-builder/ipxe/src/core/fdt.c:1380-1387 | The big-endian words of a stored address make up the address, whether it has 64 or 32 bits |
| Memmap.UpdateExact | ipxe-builder/ipxe/src/core/memmap.c:47-97 | One update makes the known region cover all or none of the described interval if and only if it does not start at the interval's last address |
| Memmap.DescribeExact | ipxe-builder/ipxe/src/core/memmap.c:47-97 | Every known region covers all or none of the described interval, in every order of the known regions, if and only if it is not the case that a region starts, with nothing changing before, at an address that another one makes the last |
| Memmap.DescribeSound | ipxe-builder/ipxe/src/core/memmap.c:47-97 | The interval then has the same flags at every address, those of the regions that cover `min`, and cannot be extended |
| Memmap.DescribeAlmost | ipxe-builder/ipxe/src/core/memmap.c:77-92 | In any case every address of the interval but the last has its flags |
| Memmap.OrderIrrelevant | ipxe-builder/ipxe/src/core/memmap.c:47-97 | Under that condition the description does not depend on the order of the known regions |
| Memmap.OrderMatters | ipxe-builder/ipxe/src/core/memmap.c:89-93 | Two regions that meet in one address: the result depends on their order, and one order is wrong |
| Memmap.WalkTiles | ipxe-builder/ipxe/src/include/ipxe/memmap.h:178-183 | The walk visits consecutive intervals from zero to the last address, each described from its own start |
| Memmap.WalkExact | ipxe-builder/ipxe/src/include/ipxe/memmap.h:178-183 | Every known region covers all or none of every visited interval, in every order of the known regions, if and only if no region clashes: starts where nothing ended just before, and at the last address of all, the last address of a region that started before, or just before another starts |
| Memmap.EvenNoClash | ipxe-builder/ipxe/src/core/memmap.c:77-92 | Regions with even starts and sizes do not clash |
| Memmap.WalkIsMap | ipxe-builder/ipxe/src/include/ipxe/memmap.h:178-183 | If no regions clash, each visited interval has, at every address in it, exactly the flags of the known regions there |
| Memmap.Region.UpdateWith | ipxe-builder/ipxe/src/core/memmap.c:47-97 | The 64-bit arithmetic, with its truncation, computes the specified update and keeps `min <= max` |
| Memmap.DescribeRegion | ipxe-builder/ipxe/src/core/fdtmem.c:211-225 | Initialisation and all updates compute the specified description |
| Memmap.Largest | ipxe-builder/ipxe/src/core/memmap.c:120-141 | The walk returns the specified choice over the whole map |
| Memmap.ChooseIsLargest | ipxe-builder/ipxe/src/core/memmap.c:120-141 | No usable interval is larger than the one chosen, and no earlier one is as large |
| Relocate.SlotIsHighest | ipxe-builder/ipxe/src/core/fdtmem.c:316-328 | The candidate taken from an interval is aligned, fits, and is the highest; it is found whenever one exists |
| Relocate.PickIsHighest | ipxe-builder/ipxe/src/core/fdtmem.c:298-329 | When any interval has a slot, the result is a slot and no slot in any interval is higher |
| Relocate.PickFits | ipxe-builder/ipxe/src/core/fdtmem.c:298-329 | The result is the old address or a slot in some usable interval |
| Relocate.FreeMeans | ipxe-builder/ipxe/src/core/fdtmem.c:301-307 | An address is usable if and only if the device tree gives it as memory and nothing else, it is accessible, and it is in neither the image nor the device tree |
| Relocate.ChooseAddress | ipxe-builder/ipxe/src/core/fdtmem.c:296-329 | The loop terminates and returns the specified choice, including the wrap to zero at the end |
| Relocate.RelocateImage | ipxe-builder/ipxe/src/core/fdtmem.c:264-336 | The result is the old address, or an aligned one below 4 GiB whose bytes are all free if no regions clash, and all but the last in any case; none within one interval is higher; without a device tree it is the old address |
| Relocate.EvenPlaces | ipxe-builder/ipxe/src/core/fdtmem.c:301-307 | Even addresses and sizes and an odd highest address rule clashes out |
| Relocate.LastByteTaken | ipxe-builder/ipxe/src/core/fdtmem.c:298-329 | Memory whose last byte a reservation starts at: the place chosen ends with that byte, which is not free |
| InterfaceNet.PointedAlive | ipxe-builder/ipxe/src/core/interface.c:84-101 | No object is freed while an interface is plugged into it |
| InterfaceNet.GetKeeps | ipxe-builder/ipxe/src/core/refcnt.c:43-50 | Taking a reference keeps every count one below the number of plugs and holds |
| InterfaceNet.PutKeeps | ipxe-builder/ipxe/src/core/refcnt.c:62-92 | Dropping one does too, and frees the object exactly when no reference is left |
| InterfaceClose.Plug | ipxe-builder/ipxe/src/core/interface.c:84-101 | Replugging keeps all counts exact and leaves held references as they were |
| InterfaceClose.PlugPlug | ipxe-builder/ipxe/src/core/interface.c:108-111 | Plugging a pair together keeps all counts exact |
| InterfaceClose.Unplug | ipxe-builder/ipxe/src/core/interface.c:118-123 | Unplugging keeps all counts exact |
| InterfaceClose.PlugStoreExact | ipxe-builder/ipxe/src/core/interface.c:93-95 | The store into the interface, which comes after the release, is to memory not yet freed if and only if the plug released was not the last reference to the interface's own object |
| InterfaceClose.HeldPlugSafe | ipxe-builder/ipxe/src/core/interface.c:93-95 | A caller that holds the object is safe |
| InterfaceClose.SelfPlugLost | ipxe-builder/ipxe/src/core/interface.c:118-123 | An object plugged into itself and released by its creator: plug and unplug both store into freed memory |
| InterfaceClose.Shutdown | ipxe-builder/ipxe/src/core/interface.c:250-298 | Shutting down terminates, keeps all counts exact, leaves held references as they were, only ever removes plugs, and leaves the interface unplugged |
| InterfaceClose.ShutdownAll | ipxe-builder/ipxe/src/core/interface.c:306-320 | The same for a list of interfaces that an object's close handler shuts down |
| InterfaceClose.ShutdownExact | ipxe-builder/ipxe/src/core/interface.c:250-298 | With default handlers exactly the chain of destinations is unplugged, up to the first nullified interface, and only the first interface stays nullified |
| InterfaceClose.PairShutdown | ipxe-builder/ipxe/src/core/interface.c:279-298 | Shutting down one end of a mutually plugged pair leaves both ends unplugged and every other plug as it was |
| InterfaceClose.Insert | ipxe-builder/ipxe/src/core/interface.c:402-410 | Inserting a filter keeps all counts exact, although the old destination may be referenced by nothing else meanwhile |
| InterfaceClose.InsertCounts | ipxe-builder/ipxe/src/core/interface.c:402-410 | Both ends keep their counts, the filter gains one for each of its plugs, and the old destination is not freed |
| InterfaceClose.RunSafe | ipxe-builder/ipxe/src/core/interface.c:84-410 | In every state of every run, counts equal plugs plus holds minus one, and nothing plugged into or held has been freed |
| Interface.Interfaces.RefPut | ipxe-builder/ipxe/src/core/refcnt.c:62-92 | Refines the release of a held reference; the count never falls below minus one, and the object is freed when it reaches that |
| Interface.Interfaces.PlugIntf | ipxe-builder/ipxe/src/core/interface.c:84-101 | Get, put, store, in that order, refine the specified plug; every access, under the exact condition, is to memory that has not been freed |
| Interface.Interfaces.UnplugIntf | ipxe-builder/ipxe/src/core/interface.c:118-123 | Put, then store, refine the specified unplug; every access, under the exact condition, is to memory that has not been freed |
| Interface.Interfaces.ShutdownIntf | ipxe-builder/ipxe/src/core/interface.c:279-298 | Refines the specified shutdown, touching only memory that has not been freed; the number of plugged interfaces drops before every recursive close |
| Interface.Interfaces.CloseIntf | ipxe-builder/ipxe/src/core/interface.c:250-267 | Refines the specified close, with the destination held meanwhile |
| Interface.Interfaces.RestartIntf | ipxe-builder/ipxe/src/core/interface.c:344-359 | Refines the specified restart; the descriptor is restored only while the object is held |
| Interface.Interfaces.ShutdownList | ipxe-builder/ipxe/src/core/interface.c:306-320 | Nullifies every interface before shutting any down, and refines the specified shutdown of the list |
| Interface.Interfaces.InsertFilter | ipxe-builder/ipxe/src/core/interface.c:402-410 | Refines the specified insertion |
| Settings.FetchIsFirst | ipxe-builder/ipxe/src/core/settings.c:667-721 | A fetch finds the first value in preorder of the subtree |
| Settings.ReinsertExact | ipxe-builder/ipxe/src/core/settings.c:452-462 | Reinsertion leaves a sorted sibling list sorted if and only if no sibling has higher priority and lower order |
| Settings.ReinsertPlace | ipxe-builder/ipxe/src/core/settings.c:452-462 | Among blocks of equal order the block goes after all of at least its priority and before all of lower |
| Settings.ReinsertSame | ipxe-builder/ipxe/src/core/settings.c:450-462 | Reinsertion neither loses nor adds a block |
| Settings.ReprioritiseExact | ipxe-builder/ipxe/src/core/settings.c:438-466 | Every sibling list of the tree is sorted again if and only if at each level no other child has higher priority and lower order than the one on the path, whose priority is read off the tree before the call |
| Settings.NewPriorityIs | ipxe-builder/ipxe/src/core/settings.c:438-466 | The effective priority of a block after the call, from the priorities and orders of its children before it |
| Settings.StoreSorted | ipxe-builder/ipxe/src/core/settings.c:616-651 | With blocks of equal order, every sibling list is sorted again after any store |
| Settings.StoreOther | ipxe-builder/ipxe/src/core/settings.c:616-651 | Storing one setting changes what a fetch of another finds nowhere |
| Settings.RegisterSorted | ipxe-builder/ipxe/src/core/settings.c:476-508 | With blocks of equal order, every sibling list is sorted again after a block is registered |
| Settings.MixedOrder | ipxe-builder/ipxe/src/core/settings.c:457-460 | Blocks whose orders differ: a lower priority is put before a higher one |
| Settings.ParentMoves | ipxe-builder/ipxe/src/core/settings.c:464-465 | Reordering children changes the effective priority of their parent |
| SettingsTree.OneLevel | ipxe-builder/ipxe/src/core/settings.c:438-466 | Placing a block and then recursing to its parent places it and all of its ancestors |
| SettingsTree.Tree.FetchFrom | ipxe-builder/ipxe/src/core/settings.c:667-721 | The recursive search refines the specified fetch |
| SettingsTree.Tree.Place | ipxe-builder/ipxe/src/core/settings.c:452-462 | The loop over siblings refines the specified reinsertion |
| SettingsTree.Tree.ReprioritiseBlock | ipxe-builder/ipxe/src/core/settings.c:438-466 | The recursion to the root refines the specified reprioritisation |
| SettingsTree.Tree.StoreSetting | ipxe-builder/ipxe/src/core/settings.c:616-651 | Refines the specified store |
| SettingsTree.Tree.RegisterBlock | ipxe-builder/ipxe/src/core/settings.c:476-508 | Refines the specified registration, replacing a block of the same name |
| UriCodec.DecodeEncode | ipxe-builder/ipxe/src/core/uri.c:54-77 | Decoding undoes encoding for every byte string, in every field that is not kept verbatim |
| UriCodec.EncodeAvoids | ipxe-builder/ipxe/src/core/uri.c:150-190 | An encoded field contains none of the characters that are special in it |
| UriCodec.EncodeField | ipxe-builder/ipxe/src/core/uri.c:201-225 | The loop computes the specified encoding |
| UriCodec.DecodeStep | ipxe-builder/ipxe/src/core/uri.c:63-75 | One round of the decoder consumes part of the string and yields its first decoded character |
| UriCodec.DecodeInPlace | ipxe-builder/ipxe/src/core/uri.c:85-98 | The decoded string takes the place of the encoded one; writing never overtakes reading, and nothing else changes |
| UriLaws.HostExact | ipxe-builder/ipxe/src/core/uri.c:430-435 | A formatted host and port parse back if and only if a host without port has no colon or ends with a bracket, a port does not end with one, and neither has a NUL |
| UriLaws.AuthorityRoundTrip | ipxe-builder/ipxe/src/core/uri.c:412-435 | User, password, host and port parse back from the formatted authority |
| UriLaws.ParseFormat | ipxe-builder/ipxe/src/core/uri.c:297-531 | For every canonical absolute URI, parsing its formatted form gives back every field |
| UriLaws.ParseFormatExact | ipxe-builder/ipxe/src/core/uri.c:297-531 | An absolute URI parses back from its formatted form if and only if it is canonical |
| UriLaws.ColonInHost | ipxe-builder/ipxe/src/core/uri.c:131-140 | A host with a colon but no brackets does not parse back |
| Process.Add | ipxe-builder/ipxe/src/core/process.c:60-71 | A process is appended once, with one reference; a second call has no effect |
| Process.Del | ipxe-builder/ipxe/src/core/process.c:80-91 | A queued process is removed and its reference dropped; a second call has no effect |
| Process.DoAll | ipxe-builder/ipxe/src/core/process.c:103-119 | Whatever the process does to the queue and to references, its own object stays alive during its step |
| Process.Step | ipxe-builder/ipxe/src/core/process.c:99-122 | A step keeps every count one below the queued processes of the object plus its holds |
| Process.Fair | ipxe-builder/ipxe/src/core/process.c:99-122 | A process at position k that is not deleted runs within k + 1 steps, whatever the others do |
| Process.Scheduler.AddProcess | ipxe-builder/ipxe/src/core/process.c:60-71 | Refines the specified addition |
| Process.Scheduler.DelProcess | ipxe-builder/ipxe/src/core/process.c:80-91 | Refines the specified removal |
| Process.Scheduler.StepOnce | ipxe-builder/ipxe/src/core/process.c:99-122 | Refines the specified step, and runs the first process of the queue |
| San.FragmentsCover | ipxe-builder/ipxe/src/core/sanboot.c:618-633 | The fragments are contiguous on the disk and in the buffer, none empty or above the limit, and add up to the transfer |
| San.BlockInOne | ipxe-builder/ipxe/src/core/sanboot.c:618-633 | Each block is in exactly one fragment, which puts it where it belongs in the buffer |
| San.ReadWrite | ipxe-builder/ipxe/src/core/sanboot.c:598-636 | The commands issued are the fragments in order, with addresses modulo 2^64, all of them on success, and up to the first failure otherwise |
| San.WholeTransfer | ipxe-builder/ipxe/src/core/sanboot.c:612-616 | The commands are those for the blocks asked for if and only if the number of blocks fits in 32 bits and the last command's address in 64 |
| San.Command | ipxe-builder/ipxe/src/core/sanboot.c:511-568 | The first good outcome ends the command, unless more failures than the limit come before it; the result is that of the last attempt |
| San.SinglePath | ipxe-builder/ipxe/src/core/sanboot.c:533-545 | On a single-path device at most one attempt more than the number of retries is made |
| San.NeverGivesUp | ipxe-builder/ipxe/src/core/sanboot.c:536-545 | On a multipath device, a command never ends as long as the device cannot be opened |
| San.Close | ipxe-builder/ipxe/src/core/sanboot.c:241-262 | Closing a path keeps every path in exactly one list, adds it last to the closed ones, and clears it if it was active |
| San.React | ipxe-builder/ipxe/src/core/sanboot.c:270-326 | Every event keeps each path in exactly one list and the active path open |
| San.CloseAllOrder | ipxe-builder/ipxe/src/core/sanboot.c:349-363 | A restart leaves every path closed, those that were open after the others and in order |
| San.Await | ipxe-builder/ipxe/src/core/sanboot.c:394-416 | Looking after each step(), waiting ends with an active path that is open, or with all closed and the status of the first in the list |
| San.FirstToClose | ipxe-builder/ipxe/src/core/sanboot.c:397-407 | The list of closed paths only grows at its end, so the status reported is that of the first that closed |
| San.AllClosedExact | ipxe-builder/ipxe/src/core/sanboot.c:394-416 | When all paths have closed, the result is zero if and only if the first to close was found available while another was active, which takes both in one step() |
| San.OneAtATime | ipxe-builder/ipxe/src/core/sanboot.c:394-416 | When each step() delivers at most one event, that does not happen |
| San.ZeroWithoutPath | ipxe-builder/ipxe/src/core/sanboot.c:394-416 | Two paths become available and the active one fails in one step(): the result is zero with no path active |
| San.Device.ClosePath | ipxe-builder/ipxe/src/core/sanboot.c:241-262 | Refines the specified close |
| San.Device.Restart | ipxe-builder/ipxe/src/core/sanboot.c:349-363 | The loop terminates and refines the specified restart |
| San.Device.Handle | ipxe-builder/ipxe/src/core/sanboot.c:270-326 | Refines the specified reaction |
| San.Device.AwaitActive | ipxe-builder/ipxe/src/core/sanboot.c:394-416 | The loop refines the specified wait, with any number of events in each step() |
| San.Device.Reopen | ipxe-builder/ipxe/src/core/sanboot.c:373-423 | An error leaves every path closed and none connected. A result of zero means that an open path is active, or that the first path to close was a spare; no other case gives zero |
| Base64.EncodeLength | ipxe-builder/ipxe/src/core/base64.c:52-83 | The encoding has four characters for every three bytes or part of them |
| Base64.EncodeByGroups | ipxe-builder/ipxe/src/core/base64.c:62-75 | The bit-by-bit encoding is the one by groups of section 4 of RFC 4648 |
| Base64.EncodeData | ipxe-builder/ipxe/src/core/base64.c:52-83 | The two loops return the length of the specified encoding and store as much of it as the buffer has room for, with a terminator at its end or in the last byte |
| Base64.DecodeEncode | ipxe-builder/ipxe/src/core/base64.c:92-158 | Decoding undoes encoding for every byte string |
| Base64.AddSextet | ipxe-builder/ipxe/src/core/base64.c:138-146 | Adding a sextet to the bytes that it overlaps gives the bytes of the longer sextet list |
| Base64.DecodeInto | ipxe-builder/ipxe/src/core/base64.c:92-158 | The loop accepts exactly the strings that the specification accepts and fills the buffer with the decoded data as far as there is room |
| LineBuffer.LinesOfTwo | ipxe-builder/ipxe/src/core/linebuf.c:92-144 | The lines of a stream are those of any prefix followed by those of the rest |
| LineBuffer.Buffer.Add | ipxe-builder/ipxe/src/core/linebuf.c:92-144 | Takes the data up to and including the first line feed, finishing at most one line; it is invalid if and only if there is a NUL in that part, and that or lack of memory changes nothing |
| LineBuffer.Buffer.LastLine | ipxe-builder/ipxe/src/core/linebuf.c:46-59 | Returns a line if and only if the last call finished one, and then that line |
| LineBuffer.FeedAll | ipxe-builder/ipxe/src/core/linebuf.c:46-144 | However a stream is cut into chunks, the lines retrieved are the stream split at line feeds with one trailing carriage return trimmed |
| Calendar.LeapCount | ipxe-builder/ipxe/src/core/time.c:80-88 | The number of leap years, with quotients rounded down, grows by one exactly at leap years, before 1900 as well |
| Calendar.LeapExact | ipxe-builder/ipxe/src/core/time.c:61-73 | The code knows every leap year but the century ones before 1900 |
| Calendar.LeapCountExact | ipxe-builder/ipxe/src/core/time.c:81-89 | The truncated quotients give the number of leap years if and only if truncation does no harm or cancels out, by a condition on the year alone |
| Calendar.YearStarts | ipxe-builder/ipxe/src/core/time.c:132-134 | The days before a year, counted year by year from 1970 in either direction, are given by the number of leap years |
| Calendar.MonthStarts | ipxe-builder/ipxe/src/core/time.c:124-127 | The days before a month are those of all earlier months of the year |
| Calendar.CountExact | ipxe-builder/ipxe/src/core/time.c:124-134 | The day count of mktime() is the number of days since the Epoch if and only if a condition on year and month holds |
| Calendar.WeekDay | ipxe-builder/ipxe/src/core/time.c:97-107 | The day of the week is the number of days since the Epoch plus four, modulo seven, if and only if the leap years are counted right and the sum to be reduced is not negative or a multiple of seven |
| Calendar.DayLost | ipxe-builder/ipxe/src/core/time.c:132-134 | The year after every leap year from 1604 to 1896: the count is a day short |
| Calendar.Time.MkTime | ipxe-builder/ipxe/src/core/time.c:118-146 | For every year the seconds are 86400 times the days counted year by year and month by month plus the time of day, and day of year and day of the week are right, each if and only if its condition holds; all hold from 1900 on |

## Left out

- Machine model: pointers are addresses below 2^63 and `size_t` has 64 bits; counters that only feed statistics are unbounded; `char` is an unsigned byte.
- The contents of the free-list records are arbitrary bytes in the model; only where they are written matters.
- Cache discarders of the heap are modelled as freeing one live allocation at a time; the discarders themselves are not part of this model.
- `valgrind` hooks, `heap_dump()`, debug messages and the wrappers `malloc()`, `zalloc()`, `malloc_phys()` and the like, which would only add easy members.
- Bytes past the end of a device tree buffer read as zero; a token that fails the assertion of `fdt_describe()` ends a walk with an error.
- FdtEdit.Editor.Realloc: never grants 4 GiB or more, because the C code would silently truncate the size in the header.
- FdtEdit.Editor.InsertString: requires the string to be stored within the buffer, which for an empty strings block the C code does not check.
- FdtProps.Set: needs a strings block that is not empty, because adding the first name to an empty one can overwrite another block; `AppendExact` says when.
- FdtBoot.BootArgs: needs a strings block that is not empty, for the same reason.
- The device tree editor is specified for buffers whose blocks do not overlap and whose header agrees with the recorded offsets; `fdt_parse()` checks neither and is not part of this model.
- `fdt_create()`, aliases, cell and register properties, MAC addresses and images.
- The regions that a device tree contributes to the memory map are given as a list; reading them from the tree is not part of this model. `physaddr_t` has 64 bits.
- Pass-through interfaces; close handlers other than the default one and those that shut down interfaces of their own object; free methods with side effects.
- Interface.Interfaces.PlugIntf: requires the condition of `PlugStoreExact`, because the C code otherwise writes to freed memory.
- Interface.Interfaces.UnplugIntf: requires the same condition.
- Settings: values are integers, applicability and redirection are not modelled, and neither is `unregister_settings()` on its own, which does not reprioritise ancestors.
- URI: request parameters (beyond cutting them off), relative resolution, TFTP and PXE URIs; `parse_uri()` is modelled on values, except for decoding, which is in place; truncation of formatted strings to a buffer.
- Process.Scheduler.StepOnce: what the process does is a given list of additions, removals and reference changes; nested calls of `step()` are not modelled.
- San.Command: how each attempt ends is given, because connections, timers and targets are not modelled.
- San.Device.Reopen: says nothing about the end of waiting if the given steps run out, because the C code then waits on.
- Descriptors, CD-ROM configuration and capacity of SAN devices; a device whose transfer limit is zero, for which `sandev_rw()` does not terminate.
- Calendar: the fields of a time are unbounded integers, and leap seconds do not exist.
- Consoles, drivers, images, the configuration server and build scripts of the repository.

# Implicit-free-list allocator (malloc lab, `mm.c`)

This project models the dynamic memory allocator of `MallocLab/malloclab-handout-old/mm.c`. It is the
boundary-tag allocator of Figure 9.43 of *Computer Systems: A Programmer's Perspective*. The heap is a
run of 32-bit words:

    | pad 0 | hdr(8:a) | ftr(8:a) | block | block | ... | hdr(0:a) |

Every block carries a header and a footer word. Each holds `PACK(size, alloc)`: the block size, a
multiple of 8, with the allocated flag in bit 0. `heap_listp` points at the prologue's payload. The
epilogue is a header of size 0 and closes the region.

The model has five modules:

- `Tags` (`tags.dfy`) holds the constants and the word codec: `PACK`, `GET_SIZE`, `GET_ALLOC`. The bit
  operations are written exactly, as arithmetic on the word's value.
- `Heap` (`heap.dfy`) holds the region as a map from word addresses to words, and the address macros
  `HDRP`, `FTRP`, `NEXT_BLKP` and `PREV_BLKP`. It also defines the block layout as a list of
  `Block(size, isAlloc)`, and `WellFormed`, which ties the list to the words.
- `BlockList` (`blocklist.dfy`) holds the allocator's policies on the block list, independently of the
  words: the free run around a block, coalescing, first fit, splitting placement and freeing. `Live`
  is the set of allocated blocks as (payload, size) pairs.
- `Checker` (`checker.dfy`) holds `mm_checkheap` and `checkblock` as functions. Their diagnostics
  become a list of `Violation`s, in the order they would be printed.
- `Allocator` (`allocator.dfy`) holds the class `MemoryManager`. It keeps the words, the break
  (`mem_brk`), `heap_listp` and `root` as fields, plus a ghost list of blocks. Its methods write
  boundary tags in place, one `PUT` at a time, as the C code does.

The invariant `Ready()` says three things:

- the words lay out the ghost block list from the prologue to the epilogue;
- the region lies within its storage;
- no two neighbouring blocks are both free.

Every operation that changes the heap keeps `Ready()`. Each one also states its new block list as a
`BlockList` function of the old one. For `mm_malloc` that function is `MallocBlocks`: the first fit
placed, or, when nothing fits, the heap extended, coalesced and placed at its end. `MallocIndex` is
the block handed out, and a NULL result is tied to the exact condition under which nothing fits and
the heap cannot grow. `KeepsBlocks` states that every word of every allocated block it was not asked
to touch reads as before.

Several predicates and functions carry no contract of their own: they are the specification that the
contracts above are written in. `Heap.Layout` and `Heap.WellFormed` state the layout pictured at
mm.c:15-24: padding, the prologue, the blocks with equal header and footer, and the epilogue header,
laid out from `heap_listp`. `BlockList.MallocShift` is the index that an allocated block moves to
when malloc splits a block before it or appends an extension. `Allocator.Granted` says what
mm_malloc hands out: an 8-aligned payload whose header gives at least the adjusted size and less
than a minimum block more, which was not allocated before and is the one allocated block added.
`Allocator.Reallocated` says what mm_realloc promises: newp is such a block, it holds ptr's old
words up to the copied length, and it takes the place of ptr's block among the allocated ones.
`Allocator.RootSet` is extend_heap's rule for `root` (mm.c:198-201), seen across a call that may
extend the heap.

`mm_init`, `extend_heap`, `mm_realloc` and `mm_checkheap` follow their bodies statement by statement.
Where the first three call an unfinished function (`coalesce`, `mm_malloc`, `mm_free`), the model
calls the intended one instead; "## Left out" lists each such call. `find_fit`, `place`,
`coalesce`, `mm_malloc` and `mm_free` are unfinished in the source: their bodies return NULL, do
nothing, or compute nonsense. They are modelled after what their comments describe: first fit,
placement that splits off a remainder of at least the minimum block, boundary-tag coalescing of the
whole free run, allocation that extends the heap when nothing fits, and freeing. The methods doing so
say INTENT in their doc comments. `mm_free` as written is modelled too; see "## Findings".

`mm_realloc` keeps its own quirk. `copySize` is `GET_SIZE(HDRP(ptr))`, the whole block size, so its
`memcpy` reads the old block's footer and the next block's header as well. The model copies exactly
those bytes, rounded up to whole words.

## Model

| member | source | states |
|---|---|---|
| `Tags.Pack` | MallocLab/malloclab-handout-old/mm.c:72-75 | for an 8-aligned size, `GET_SIZE` and `GET_ALLOC` of `PACK(size, alloc)` give back the size and `alloc & 1` |
| `Tags.SizeOf` | MallocLab/malloclab-handout-old/mm.c:89-91 | `GET(p) & ~0x7` is 8-aligned and at most 7 below the word |
| `Tags.AllocOf` | MallocLab/malloclab-handout-old/mm.c:93-95 | `GET(p) & 0x1` is 0 or 1 and has the word's parity |
| `Tags.LowBit` | MallocLab/malloclab-handout-old/mm.c:74 | `alloc & 0x1` is 0 or 1 with the parity of `alloc`, negative values included |
| `Tags.Max` | MallocLab/malloclab-handout-old/mm.c:63-65 | `MAX(x, y)` is one of its arguments and at least both |
| `Tags.PackInjective` | MallocLab/malloclab-handout-old/mm.c:72-95 | two tags with 8-aligned sizes are equal if and only if their sizes and masked flags are |
| `Tags.UnpackPack` | MallocLab/malloclab-handout-old/mm.c:72-95 | a word with bits 1 and 2 clear is `PACK` of its own `GET_SIZE` and `GET_ALLOC` |
| `Heap.Image.Put` | MallocLab/malloclab-handout-old/mm.c:81-84 | PUT leaves the region's bounds alone and the word at p then reads v |
| `Heap.GetPut` | MallocLab/malloclab-handout-old/mm.c:80-84 | GET then PUT of the same word changes nothing, and a PUT changes the word it addresses and no other |
| `Heap.Hdrp` | MallocLab/malloclab-handout-old/mm.c:100-103 | the header word sits one word below the payload |
| `Heap.GetSize` | MallocLab/malloclab-handout-old/mm.c:89-91 | `GET_SIZE` is 8-aligned and at most 7 below the word it masks |
| `Heap.GetAlloc` | MallocLab/malloclab-handout-old/mm.c:93-95 | `GET_ALLOC` is 0 or 1 and has the parity of the word |
| `Heap.Ftrp` | MallocLab/malloclab-handout-old/mm.c:104-106 | the footer lies a multiple of 8 bytes from the payload |
| `Heap.NextBlkp` | MallocLab/malloclab-handout-old/mm.c:111-113 | the next payload lies a multiple of 8 bytes after bp, so it stays 8-aligned |
| `Heap.PrevBlkp` | MallocLab/malloclab-handout-old/mm.c:115-117 | the previous payload lies a multiple of 8 bytes before bp |
| `Heap.Navigation` | MallocLab/malloclab-handout-old/mm.c:100-113 | for a header `PACK(s, a)`, `FTRP` is `s - 8` past the payload, `NEXT_BLKP` is `s` past it, and the next header follows the footer |
| `Heap.PrevOfNext` | MallocLab/malloclab-handout-old/mm.c:111-117 | when a block's footer repeats its header, `PREV_BLKP(NEXT_BLKP(bp)) == bp` |
| `Heap.NextOfPrev` | MallocLab/malloclab-handout-old/mm.c:111-117 | when the previous block's footer and header agree, `NEXT_BLKP(PREV_BLKP(bp)) == bp` |
| `BlockList.RunStart` | MallocLab/malloclab-handout-old/mm.c:255-261 | the backward walk of coalesce stops at the first block of the free run: everything between it and block i is free, and the block before it is allocated |
| `BlockList.RunEnd` | MallocLab/malloclab-handout-old/mm.c:262-268 | the forward walk stops at the last block of the free run: everything after block i up to it is free, and the block after it is allocated |
| `BlockList.RunIsMaximal` | MallocLab/malloclab-handout-old/mm.c:253-268 | around a free block the two walks delimit a maximal free run containing it |
| `BlockList.CoalescedRun` | MallocLab/malloclab-handout-old/mm.c:253-281 | any run found by the walks is the one coalescing merges, and merging it leaves no two adjacent free blocks |
| `BlockList.Merge` | MallocLab/malloclab-handout-old/mm.c:274-278 | merging blocks k..j leaves j - k fewer blocks, with a free one at k |
| `BlockList.Coalesced` | MallocLab/malloclab-handout-old/mm.c:253-281 | coalescing leaves a free block at the start of the run, which starts at or before block i, and removes as many blocks as the run had beyond one |
| `BlockList.MergeShape` | MallocLab/malloclab-handout-old/mm.c:274-278 | merging a run leaves one free block spanning it in its place and every other block unchanged |
| `BlockList.MergeSize` | MallocLab/malloclab-handout-old/mm.c:274-278 | merging a run keeps the total size of the heap |
| `BlockList.MergeNoAdjacentFree` | MallocLab/malloclab-handout-old/mm.c:253-281 | merging a maximal run around the one block with free neighbours leaves no adjacent free pair |
| `BlockList.MergeLive` | MallocLab/malloclab-handout-old/mm.c:253-281 | merging a free run keeps every allocated block at its payload and size |
| `BlockList.LiveReplace` | MallocLab/malloclab-handout-old/mm.c:274-278 | rewriting blocks k..e-1 as blocks of the same total size changes the allocated set only by the old and new blocks of that range |
| `BlockList.FirstFit` | MallocLab/malloclab-handout-old/mm.c:210-239 | first fit: the result is free and large enough, and no earlier block is |
| `BlockList.Placed` | MallocLab/malloclab-handout-old/mm.c:298-303 | placement allocates block i with at least asize bytes and at most its old size, and adds a block exactly when the remainder is at least the minimum block |
| `BlockList.PlacedShape` | MallocLab/malloclab-handout-old/mm.c:298-303 | placement allocates a block of at least asize bytes at the same payload; it is smaller than the free block only when a free remainder of at least the minimum block follows it; it wastes less than a minimum block |
| `BlockList.PlacedWhole` | MallocLab/malloclab-handout-old/mm.c:298-303 | with no split, placement only marks the block allocated |
| `BlockList.PlacedSize` | MallocLab/malloclab-handout-old/mm.c:298-303 | placement keeps the total size of the heap |
| `BlockList.PlacedLive` | MallocLab/malloclab-handout-old/mm.c:298-303 | placement adds exactly the placed block to the allocated set |
| `BlockList.PlacedNoAdjacentFree` | MallocLab/malloclab-handout-old/mm.c:298-303 | placement never leaves two adjacent free blocks |
| `BlockList.Freed` | MallocLab/malloclab-handout-old/mm.c:244-248 | freeing marks block i free, keeps its size, and keeps every other block |
| `BlockList.FreedAdjacent` | MallocLab/malloclab-handout-old/mm.c:244-248 | after freeing, only block i may have a free neighbour |
| `BlockList.FreedLive` | MallocLab/malloclab-handout-old/mm.c:244-248 | freeing takes exactly block i out of the allocated set, and it is no longer in it |
| `BlockList.FreeLive` | MallocLab/malloclab-handout-old/mm.c:244-281 | freeing and then coalescing takes exactly block i out of the allocated set |
| `BlockList.FreeNotLive` | MallocLab/malloclab-handout-old/mm.c:244-248 | no allocated block starts where a free block starts |
| `BlockList.AppendLive` | MallocLab/malloclab-handout-old/mm.c:196-198 | appending a free block keeps the allocated set |
| `BlockList.CoalescedAppend` | MallocLab/malloclab-handout-old/mm.c:196-203 | coalescing a block appended at the end leaves a free last block at least as large as the appended one |
| `BlockList.ExtendLive` | MallocLab/malloclab-handout-old/mm.c:196-203 | extending the heap and coalescing keeps the allocated set |
| `BlockList.MallocIndex` | MallocLab/malloclab-handout-old/mm.c:285-292 | the block mm_malloc hands out: the first fit when there is one |
| `BlockList.MallocBlocks` | MallocLab/malloclab-handout-old/mm.c:285-292 | the block list after mm_malloc: the handed-out block is allocated, holds at least asize bytes, and is not the prologue |
| `BlockList.MallocKeeps` | MallocLab/malloclab-handout-old/mm.c:285-292 | every allocated block but the prologue survives mm_malloc at the same payload and size, at a known new index other than the handed-out block's; mm_realloc's call to mm_malloc at mm.c:314 relies on it |
| `BlockList.FoundKeeps` | MallocLab/malloclab-handout-old/mm.c:288-290 | placing in the first fit keeps every allocated block, shifted past a split |
| `BlockList.ExtendedKeeps` | MallocLab/malloclab-handout-old/mm.c:285-292 | extending, coalescing and placing at the end keeps every allocated block at its index |
| `Checker.CheckBlock` | MallocLab/malloclab-handout-old/mm.c:385-393 | checkblock reports misalignment exactly when the payload is not 8-aligned, and a mismatch exactly when header and footer differ |
| `Checker.Walk` | MallocLab/malloclab-handout-old/mm.c:349-354 | the loop visits blocks of positive size from bp on, each the `NEXT_BLKP` of the one before |
| `Checker.WalkEnd` | MallocLab/malloclab-handout-old/mm.c:349 | the loop stops at a header of size 0 at or after bp |
| `Checker.WalkStops` | MallocLab/malloclab-handout-old/mm.c:349 | that header is the first one of size 0: bp itself when the walk visits nothing, otherwise the `NEXT_BLKP` of the last visited block, above every visited block |
| `Checker.WalkChecks` | MallocLab/malloclab-handout-old/mm.c:349-354 | the loop reports only misalignments and tag mismatches, each about a block it visits |
| `Checker.PrologueCheck` | MallocLab/malloclab-handout-old/mm.c:344-346 | "Bad prologue header" exactly when the prologue's size is not 8 or it is free |
| `Checker.EpilogueCheck` | MallocLab/malloclab-handout-old/mm.c:360-362 | "Bad epilogue header" exactly when the stop header's size is not 0 or it is free |
| `Checker.CheckReport` | MallocLab/malloclab-handout-old/mm.c:331-362 | every diagnostic is a prologue or epilogue error, or a checkblock error about the prologue or a visited block |
| `Checker.RunCheck` | MallocLab/malloclab-handout-old/mm.c:331-362 | the prologue test, checkblock of the prologue, the loop and the epilogue test produce exactly the report |
| `Checker.WalkChecksAligned` | MallocLab/malloclab-handout-old/mm.c:349-389 | the loop reports a misaligned payload if and only if it visits a misaligned block |
| `Checker.WalkChecksTags` | MallocLab/malloclab-handout-old/mm.c:349-393 | the loop reports a tag mismatch if and only if it visits a block whose footer differs from its header |
| `Checker.ReportPrologue` | MallocLab/malloclab-handout-old/mm.c:344-346 | "Bad prologue header" is reported if and only if the prologue is not an allocated block of size 8 |
| `Checker.ReportEpilogue` | MallocLab/malloclab-handout-old/mm.c:349-362 | "Bad epilogue header" is reported if and only if the header the loop stopped at is free; its size test can never fire |
| `Checker.LayoutWalkVisits` | MallocLab/malloclab-handout-old/mm.c:349-354 | on a laid-out heap the loop visits exactly the remaining blocks, in address order |
| `Checker.WellFormedPasses` | MallocLab/malloclab-handout-old/mm.c:331-393 | on a well-formed heap the checker stays in the region, stops at the epilogue and reports nothing |
| `Checker.WellFormedWalk` | MallocLab/malloclab-handout-old/mm.c:349-354 | on a well-formed heap the loop visits every block, prologue first, in address order |
| `Allocator.ExtendSize` | MallocLab/malloclab-handout-old/mm.c:189-190 | extend_heap's byte count is 8-aligned, and when no 32-bit wrap occurs it is `words` rounded up to an even number of words |
| `Allocator.ChunkWords` | MallocLab/malloclab-handout-old/mm.c:185-190 | an 8-aligned extension of `MAX(asize, CHUNKSIZE)` bytes, passed in words, comes back from the rounding unchanged |
| `Allocator.AdjustedSize` | MallocLab/malloclab-handout-old/mm.c:285-288 | the adjusted block size is 8-aligned, at least the minimum block, holds the payload plus header and footer, and is less than 8 bytes more than needed |
| `Allocator.InitWritten` | MallocLab/malloclab-handout-old/mm.c:159-172 | mm_init's four writes make a well-formed heap holding only the prologue, with heap_listp 8 past the region's start |
| `Allocator.Sentinels` | MallocLab/malloclab-handout-old/mm.c:159-172 | a well-formed heap has the pad word 0 and the prologue tags `PACK(8, 1)` at and below heap_listp |
| `Allocator.FirstExtension` | MallocLab/malloclab-handout-old/mm.c:175-177 | the first extension after the prologue has nothing to merge with |
| `Allocator.ExtendWritten` | MallocLab/malloclab-handout-old/mm.c:196-198 | extend_heap's three writes append one free block at the old end and keep every allocated block |
| `Allocator.HeaderWritten` | MallocLab/malloclab-handout-old/mm.c:274-278 | after the run's header is written, `FTRP` of the run's last block is still its footer |
| `Allocator.CoalesceEffect` | MallocLab/malloclab-handout-old/mm.c:274-278 | the two writes of coalesce lay out the block list with the run merged, and keep every allocated block |
| `Allocator.RetagWritten` | MallocLab/malloclab-handout-old/mm.c:244-248 | rewriting a block's two tags with a new flag gives the block list with that block's flag changed, and keeps every other allocated block |
| `Allocator.SplitWritten` | MallocLab/malloclab-handout-old/mm.c:298-303 | place's four writes on a split give the placed block list and keep every allocated block |
| `Allocator.WholeWritten` | MallocLab/malloclab-handout-old/mm.c:298-303 | place's two writes without a split give the placed block list and keep every allocated block |
| `Allocator.PlaceGrants` | MallocLab/malloclab-handout-old/mm.c:298-303 | placing in free block i hands out an 8-aligned payload whose block holds at least asize bytes and less than a minimum block more; the block is new and is the only one added to the allocated set |
| `Allocator.FreeFrame` | MallocLab/malloclab-handout-old/mm.c:244-281 | freeing then coalescing removes exactly the freed block from the allocated set, and every other allocated block is kept |
| `Allocator.OrZeroKeepsHeader` | MallocLab/malloclab-handout-old/mm.c:247 | ORing 0 into a word gives the word back, so the allocated bit is unchanged |
| `Allocator.FreeAsWrittenExample` | MallocLab/malloclab-handout-old/mm.c:244-248 | the header of an allocated 24-byte block still reads allocated after mm_free's store |
| `Allocator.CopyLength` | MallocLab/malloclab-handout-old/mm.c:319-322 | copySize is the block size or the requested size, whichever is smaller |
| `Allocator.CopiedBytes` | MallocLab/malloclab-handout-old/mm.c:319-323 | the copy in whole words covers copySize bytes and less than a word more |
| `Allocator.CopyCount` | MallocLab/malloclab-handout-old/mm.c:319-323 | the whole-word copy fits both the old block and the payload of a block holding the adjusted size |
| `Allocator.CopyPlan` | MallocLab/malloclab-handout-old/mm.c:319-323 | memcpy's destination lies inside newp's payload, clear of its footer; its source lies inside the region; the two do not overlap |
| `Allocator.CopyStep` | MallocLab/malloclab-handout-old/mm.c:323 | one more copied word extends the copied prefix by a word, and no word outside the written prefix changes |
| `Allocator.PayloadWritten` | MallocLab/malloclab-handout-old/mm.c:323 | writes confined to a block's payload, clear of its footer, keep the heap well formed with the same block list |
| `Allocator.CopyKeeps` | MallocLab/malloclab-handout-old/mm.c:323 | the copy into newp's payload keeps every other allocated block |
| `Allocator.CopyStays` | MallocLab/malloclab-handout-old/mm.c:314-324 | the words copied from ptr's block, up to its footer, survive the malloc before the copy and the free after it |
| `Allocator.GrantedIndices` | MallocLab/malloclab-handout-old/mm.c:314-318 | after malloc succeeds, ptr's block is still allocated and the new block is a different block, wholly before or after it |
| `Allocator.ReallocFrame` | MallocLab/malloclab-handout-old/mm.c:309-326 | after malloc, copy and free, the allocated set has ptr's block swapped for newp's; every other allocated block and newp's header are kept; newp's payload holds ptr's old words |
| `Allocator.PayloadUnique` | MallocLab/malloclab-handout-old/mm.c:314-324 | two blocks of a laid-out heap with the same payload are the same block |
| `Allocator.ReallocDone` | MallocLab/malloclab-handout-old/mm.c:309-326 | the same facts, stated as the outcome of a completed mm_realloc |
| `Allocator.MemoryManager.constructor` | MallocLab/malloclab-handout-old/mm.c:124-137 | an empty region of the given capacity, with heap_listp and root NULL and no blocks |
| `Allocator.MemoryManager.MemSbrk` | MallocLab/malloclab-handout-old/mm.c:191-193 | mem_sbrk returns the old break and grows the region, or returns -1 and leaves it alone when the storage would be outgrown |
| `Allocator.MemoryManager.Put` | MallocLab/malloclab-handout-old/mm.c:81-84 | PUT changes exactly the word at p |
| `Allocator.MemoryManager.Init` | MallocLab/malloclab-handout-old/mm.c:147-179 | mm_init's three outcomes: -1 with nothing written and `root` and the block list unchanged when the first mem_sbrk fails; -1 with only the prologue and `root == 1` when extend_heap fails; otherwise 0, with the prologue, one free block of CHUNKSIZE bytes and `root == 0` |
| `Allocator.MemoryManager.InitPrologue` | MallocLab/malloclab-handout-old/mm.c:153-172 | the first mem_sbrk succeeds if and only if four words fit; then the heap is well formed with only the prologue, and heap_listp is 8 past the old break |
| `Allocator.MemoryManager.PutPrologue` | MallocLab/malloclab-handout-old/mm.c:159-169 | the four stores of the pad, the prologue tags and the epilogue |
| `Allocator.MemoryManager.ExtendHeap` | MallocLab/malloclab-handout-old/mm.c:185-204 | when mem_sbrk fails: NULL and nothing changed. Otherwise the region grows by the rounded size, a free block is appended and coalesced, the coalesced block's payload is returned, root is set when it was NULL, and every allocated block is kept |
| `Allocator.MemoryManager.ExtendRegion` | MallocLab/malloclab-handout-old/mm.c:196-203 | the part of extend_heap after mem_sbrk succeeds: the free block of `size` bytes and the new epilogue are written, `root` becomes `heap_listp + DSIZE` exactly when it was NULL, the list becomes the old list plus the free block, coalesced, the payload of the coalesced run is returned, the heap stays well formed with no two adjacent free blocks, and every allocated block is kept |
| `Allocator.MemoryManager.WriteExtension` | MallocLab/malloclab-handout-old/mm.c:196-198 | the three stores append one free block at the old end, and only that block may have a free neighbour |
| `Allocator.MemoryManager.PutExtensionTags` | MallocLab/malloclab-handout-old/mm.c:196-198 | the header, footer and epilogue stores of extend_heap, `FTRP` and `NEXT_BLKP` being read after the header store |
| `Allocator.WalkBack` | MallocLab/malloclab-handout-old/mm.c:255-261 | INTENT of coalesce's backward loop: returns the first block of the free run. The source reads the allocated bit at the payload rather than the header, and stops at address 0 |
| `Allocator.WalkForward` | MallocLab/malloclab-handout-old/mm.c:262-268 | INTENT of coalesce's forward loop: returns the last block of the free run, stopped by the epilogue. The source steps with `PREV_BLKP` instead of `NEXT_BLKP` and reads the allocated bit at the payload |
| `Allocator.CoalesceWalks` | MallocLab/malloclab-handout-old/mm.c:253-270 | INTENT of coalesce's reading half: the two walks and the size of the run between them, the sum of its block sizes. The source computes the size as the distance between the addresses of the locals `backLimit` and `frontLimit` |
| `Allocator.MemoryManager.Coalesce` | MallocLab/malloclab-handout-old/mm.c:253-281 | INTENT: the block list becomes the coalesced list, the run's first payload is returned, and every allocated block is kept |
| `Allocator.MemoryManager.WriteRun` | MallocLab/malloclab-handout-old/mm.c:274-278 | the free run becomes one free block and no two neighbours are free afterwards |
| `Allocator.MemoryManager.PutRunTags` | MallocLab/malloclab-handout-old/mm.c:274-278 | the header and footer stores of coalesce lay out the merged list |
| `Allocator.MemoryManager.PutTwoTags` | MallocLab/malloclab-handout-old/mm.c:274-278 | `PUT(HDRP(backLimit), ...)` then `PUT(FTRP(frontLimit), ...)`, `FTRP` read after the first store |
| `Allocator.MemoryManager.FindFit` | MallocLab/malloclab-handout-old/mm.c:210-239 | INTENT: the loop over the heap returns the payload of the first fit, or NULL when no block fits |
| `Allocator.MemoryManager.Malloc` | MallocLab/malloclab-handout-old/mm.c:285-292 | INTENT: NULL exactly for 0 bytes, a size too large for a tag, or no fit with no room to extend by `MAX(asize, CHUNKSIZE)`; then nothing changes. Otherwise the block list becomes `MallocBlocks` (first fit placed, or the extension placed), the payload of block `MallocIndex` is returned, the break grows only when extending, the block is new, 8-aligned and holds the adjusted size, and every allocated block is kept. `root` becomes `heap_listp + DSIZE` when it was NULL and the heap grew, and is otherwise unchanged (`RootSet`, extend_heap's rule at mm.c:198-201) |
| `Allocator.MemoryManager.ExtendAndPlace` | MallocLab/malloclab-handout-old/mm.c:190-203 | INTENT of mm_malloc when nothing fits: NULL, with nothing changed, exactly when the break cannot grow by `MAX(asize, CHUNKSIZE)`; otherwise the break grows by that much, the list becomes `MallocBlocks`, the payload of block `MallocIndex` is returned, `root` is set when it was NULL, and every allocated block is kept |
| `Allocator.MemoryManager.PlaceFound` | MallocLab/malloclab-handout-old/mm.c:288-290 | a request placed in the first fit: the list becomes the placed list and the payload is the first fit's |
| `Allocator.MemoryManager.PlaceExtended` | MallocLab/malloclab-handout-old/mm.c:285-292 | a request placed in the block extend_heap returned: the list becomes `MallocBlocks` of the list before the extension, the payload is `MallocIndex`'s, and the blocks allocated before are kept |
| `Allocator.MemoryManager.Place` | MallocLab/malloclab-handout-old/mm.c:298-303 | INTENT: the block list becomes the placed list, and every allocated block is kept |
| `Allocator.MemoryManager.PlaceSplit` | MallocLab/malloclab-handout-old/mm.c:298-303 | the split case of place |
| `Allocator.MemoryManager.PlaceWhole` | MallocLab/malloclab-handout-old/mm.c:298-303 | the unsplit case of place |
| `Allocator.MemoryManager.PutBlockTags` | MallocLab/malloclab-handout-old/mm.c:196-197 | the header and footer stores `PUT(HDRP(bp), PACK(size, alloc))` and `PUT(FTRP(bp), ...)`, FTRP read after the header store |
| `Allocator.MemoryManager.PutSplitTags` | MallocLab/malloclab-handout-old/mm.c:298-303 | the four tag stores of a split |
| `Allocator.MemoryManager.Free` | MallocLab/malloclab-handout-old/mm.c:241-248 | INTENT: block i is freed and coalesced; it leaves the allocated set, and every other allocated block is kept |
| `Allocator.MemoryManager.MarkFree` | MallocLab/malloclab-handout-old/mm.c:241-248 | the free tags written in the block's header and footer; only block i may have a free neighbour |
| `Allocator.MemoryManager.FreeAsWritten` | MallocLab/malloclab-handout-old/mm.c:244-248 | mm_free as written leaves every word, and the allocated bit, as it was |
| `Allocator.MemoryManager.CopyWords` | MallocLab/malloclab-handout-old/mm.c:323 | the memcpy loop: each destination word holds the source word at the same offset as before the copy, no other word changes, and the heap stays laid out as before |
| `Allocator.MemoryManager.CopyWord` | MallocLab/malloclab-handout-old/mm.c:323 | one word of the memcpy |
| `Allocator.MemoryManager.CopyBlock` | MallocLab/malloclab-handout-old/mm.c:319-323 | copySize computed from ptr's header and the request; the copy lands inside newp's payload and holds ptr's words |
| `Allocator.MemoryManager.MoveBlock` | MallocLab/malloclab-handout-old/mm.c:319-325 | the copy then mm_free(ptr) complete the reallocation; the list becomes ptr's block freed and coalesced |
| `Allocator.MemoryManager.Realloc` | MallocLab/malloclab-handout-old/mm.c:309-326 | exit exactly when malloc returns NULL (size 0, a size too large for a tag, or no fit and no room to extend), with nothing changed; otherwise the list is `MallocBlocks` with ptr's block, at its shifted index, freed and coalesced, newp is malloc's block, it holds ptr's old words, and every other allocated block is kept. `root` follows extend_heap's rule through malloc (`RootSet`): set to `heap_listp + DSIZE` when it was NULL and the heap grew, otherwise unchanged, in particular on exit |
| `Allocator.MemoryManager.CheckHeap` | MallocLab/malloclab-handout-old/mm.c:331-363 | the loop's diagnostics are exactly the checker's report, and the report is empty on a heap as the allocator keeps it |

## Left out

- Printing: `printf`, the `verbose` output and `printblock` are not modelled. `mm_checkheap` returns
  its diagnostics as a list instead.
- `exit(1)` in `mm_realloc` is modelled as the result flag `exited`.
- memlib.c is not part of this model. `mem_sbrk` is modelled as a bump pointer over a fixed storage:
  it fails when the request is negative or would outgrow the storage. Callers pass multiples of 8
  only. The constructor stands for `mem_init`; the storage's initial contents are a parameter.
- The storage is a map from word addresses to 32-bit words, so aliasing through other pointer types
  is not modelled. Reads and writes are whole, aligned words.
- The `NODE_LEFT` and `NODE_RIGHT` links, the commented-out explicit-list code, `sizeArr`, and the
  two `PUT`s of 0 into a coalesced block's payload (its link fields) are not modelled. No modelled
  operation reads them.
- The team structure and the rest of the repository (`FilterMain.cpp` and others) are outside this
  model.
- `Allocator.MemoryManager.Coalesce` follows the comment's intent, not the body. As written, the body
  computes the size as the distance between the addresses of two locals (`&backLimit - &frontLimit`),
  tests the allocated bit at the payload rather than the header, walks "forward" with `PREV_BLKP`,
  and treats address 0 as the end of the walk. It also returns its argument `bp`, where the model
  returns the first payload of the merged run.
- `Allocator.MemoryManager.ExtendHeap` calls the intended `Coalesce`, not the `coalesce` body. Its
  returned pointer is the merged run's first payload, and its block list is the coalesced one; the
  source would return `bp` and write the tags computed from two locals' addresses.
- `Allocator.MemoryManager.Init` reaches `coalesce` through `extend_heap`, so it too relies on the
  intended `Coalesce`. Its block list of the prologue and one free block of CHUNKSIZE bytes holds
  only over that intended `Coalesce`. Even on the first extension the `coalesce` body stores
  `PACK(&backLimit - &frontLimit, 0)` in the header and footer it writes, and its forward loop reads
  the word at the new break, outside the region. Its `root` value does not depend on that choice.
- `Allocator.MemoryManager.FindFit` follows the comment's intent, first fit over the implicit list.
  As written it always returns NULL.
- `Allocator.MemoryManager.Place` follows the comment's intent. As written its body is empty.
- `Allocator.MemoryManager.Malloc` follows the textbook intent: adjusted size, first fit, extension
  by `MAX(asize, CHUNKSIZE)`. As written it asks `find_fit(size + 8)`, applies `&= 1` to the byte
  before the result (NULL, since find_fit returns NULL), and returns NULL. The model also returns
  NULL when the adjusted size does not fit a 32-bit tag.
- `Allocator.MemoryManager.Realloc` is modelled over the intended `Malloc` and, for its last step,
  the intended `Free`, which clears the allocated bit and coalesces. Over the as-written `mm_malloc`,
  which always returns NULL, every call would exit; over the as-written `mm_free`, ptr's block would
  stay allocated.
- `Allocator.MemoryManager.Realloc` rounds memcpy's byte count up to whole words. Its content
  guarantee covers the copied words only up to ptr's footer. The copy also reads the next block's
  header, whose value may change during malloc.
- `Allocator.MemoryManager.Realloc` requires ptr to be an allocated block of the heap.
  `mm_realloc(NULL, size)` and foreign pointers are undefined in the source.
- `Allocator.MemoryManager.Free` requires bp to be an allocated block of the heap. Freeing a free or
  foreign pointer is undefined in the source.
- `Allocator.MemoryManager.ExtendHeap` requires the rounded size to be non-zero. A size of 0 would
  overwrite the last footer, and every caller passes at least 1024 words.
- `Allocator.MemoryManager.CheckHeap` requires the checker's reads to stay inside the region. On a
  corrupt heap the C walk may read outside it, which is undefined.
- `Allocator.MemoryManager.Init` keeps the source's precedence: `root` receives the value of
  `extend_heap(...) == NULL`, so 0 on success and 1 on failure, not the returned pointer.

## Findings

| source | as written | input that shows it | evidently intended | confidence | as-written member | corrected member |
|---|---|---|---|---|---|---|
| MallocLab/malloclab-handout-old/mm.c:244-248 | the header is ORed with 0 in place, which changes no bit | any allocated block, e.g. header `PACK(24, 1)`: after `mm_free` the header still reads allocated | clear the allocated bit in the header and footer, then coalesce with free neighbours | not executed | `Allocator.MemoryManager.FreeAsWritten`, `Allocator.FreeAsWrittenExample` | `Allocator.MemoryManager.Free` |

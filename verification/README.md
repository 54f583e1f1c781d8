# Verified model of the storage allocators and small tools

This project models, in Dafny, the two dynamic storage allocators of the
repository (`malloc/mm_segregated.c`, `malloc/mm_implicit.c`), the simulated heap
they run on, the trace driver that checks them, and four small programs with
non-trivial loops (`sysio/mylined.c`, `cp/cp_holes.c`,
`malloc/malloc-package/fcyc.c`, `stdio/my_getline.c`), and proves what they keep
true. `dafny verify dfyconfig.toml` checks everything.

## How the heap is modelled

One array of 32-bit words is the heap (`MemLib.Memory`). Addresses and the brk
count words from `mem_start_brk`, so byte address `base + 4p` is `p`, a header is
word `p - 1`, and 0 stands for the null pointer (word 0 is padding and never a
payload). Tag words hold byte sizes as in `mm.h`; where bytes matter (memset,
memcpy, the driver's checks) a byte view of the words is used.

- `Tiling` sees a heap as a map from payload addresses to blocks. Block sizes are
  counted in units of 8 bytes, headers and footers included; the prologue is the
  block at 2 and the end of the map is the brk. `Tiled` says that the blocks fill
  the heap without gap or overlap, `Isolated` that no two neighbours are free.
- `BoundaryTags.Represents` says that a memory image encodes a tiling, and
  `FreeLists.Index` that sixteen linked lists in the same words are in order.
- `ImplicitSpec` and `SegregatedSpec` say what the allocators do to a tiling,
  without words, headers or loops; the classes `ImplicitHeap.Allocator` and
  `SegregatedHeap.Allocator` are the code, proved against them. Methods of the
  classes are split in a part that only talks about the words it reads and writes
  and a part that only talks about tilings.
- `TraceLedger` is what the driver should know: which blocks are handed out and not
  freed, how many bytes each was asked for, and which request each belongs to. A
  request that is allocated again while it is live leaves its old block behind, and
  the ledger keeps that block. `ImplicitTrace.Run` and `SegregatedTrace.IsTraceRun`
  are the runs of a trace over the two allocators' effects on tilings;
  `TraceRecords.Records` holds the driver's range list and arrays, and the classes
  `ImplicitDriver.TraceRun` and `SegregatedDriver.TraceRun` are the driver itself.

## What the proofs found

- `mm_realloc` of the segregated allocator loses a live block exactly when the block
  behind is free, too small even with its own space, followed by another block, and
  there is room to grow the heap. Then the heap grows at the brk, not behind the
  block, and the block claims the space of a live one
  (`malloc/mm_segregated.c:327-338`). In every other case, failed growth included, the
  heap is in order afterwards. Both directions are in the contract of `MmRealloc`
  (`Swallows`, a condition on the heap before the call); `HeapExamples.GrowOverThird`
  reaches the state with three mallocs, a free and a realloc.
- The same `mm_realloc` copies through the null pointer exactly when the block is too
  small, the block behind it is live and `mm_malloc` fails
  (`malloc/mm_segregated.c:340-343`): `Crashes`, again a condition on the heap before
  the call, and `HeapExamples.CopyToNull`. The model reports it as `crashed` and
  describes the heap as it is just before the copy.
- `find_fit` of the segregated allocator finds nothing for block sizes of 2^16
  bytes and more, whatever is free (`malloc/mm_segregated.c:173`):
  `HeapExamples.LargeTwice`.
- The driver compares a `char` with an `int` from 0 to 255
  (`malloc/malloc-package/mdriver.c:656`). Where `char` is signed, every realloc of
  an id whose low byte is 128 or more is reported as lost data although the bytes
  are right: `TraceExamples.HighIdRejected`. `EvalMmValid` takes the signedness as a
  parameter.
- The driver accepts a trace that allocates a live id again; the old block stays in
  the heap and in the range list for good.
- `add_range` would miss a new range that lies around a listed one
  (`TraceLedger.HitsMeaning`); that no ranges overlap comes from the allocators.
- The implicit allocator's `mm_realloc` moves every block, even one that is large
  enough already (`ImplicitSpec.ReallocOutcome`).
- `mylined` treats offset 0 as "not found yet". It never deletes line 1 exactly,
  nor a non-empty line 2 after an empty line 1 (`sysio/mylined.c:45`):
  `LineDelete.FirstCharacterStays`.
- `cp_holes` drops trailing zero bytes, since it never extends the file after its
  last `lseek` (`cp/cp_holes.c:48-51`): `SparseCopy.LastZeroLost`.
- A heap whose free neighbours are merged depends on its live blocks and its brk
  alone, not on how it came about (`Tiling.LiveDetermine`). That free undoes malloc is
  one consequence.
- The comments above `mm_free` and the segregated `mm_realloc` ("does nothing",
  "simply in terms of mm_malloc and mm_free") do not describe the code; the model
  follows the code.

## Model

| member | source | states |
|---|---|---|
| Words.Pack | malloc/mm.h:17-21 | the size and the allocation bit read back from a packed tag are the ones put in |
| Words.SetByte | malloc/malloc-package/mdriver.c:625 | storing a byte in a word sets that byte and no other |
| MemLib.Memory.Sbrk | malloc/malloc-package/memlib.c:58-69 | the brk moves up by exactly the increment and the old brk is returned, or nothing changes and -1 is returned when the increment is negative or passes the limit |
| MemLib.Memory.ResetBrk | malloc/malloc-package/memlib.c:48-51 | the heap is empty again |
| MemLib.Memory.FillBytes | malloc/malloc-package/mdriver.c:625 | memset sets exactly the n bytes, and words wholly outside keep their value |
| MemLib.Memory.CopyBytes | malloc/mm_segregated.c:342 | memcpy makes the n target bytes equal to the source bytes as they were and changes no other byte |
| BoundaryTags.Forward | malloc/mm.h:20-24 | NEXT_BLKP and FTRP, computed from the header word, find the end of the block, where the next block or the epilogue starts, and header and footer agree |
| BoundaryTags.PrevInvertsNext | malloc/mm.h:24-25 | PREV_BLKP leads back from where NEXT_BLKP leads, for every block and at the epilogue |
| BoundaryTags.WalkVisits | malloc/mm.h:24 | walking along NEXT_BLKP until a header of size zero visits exactly the blocks of the tiling from the start on |
| BoundaryTags.WalkAscends | malloc/mm.h:24 | that walk visits them in ascending order, so each once |
| BoundaryTags.TilingIsDetermined | malloc/mm.h:16-25 | one memory image cannot encode two different tilings |
| BoundaryTags.TagBlock | malloc/mm_implicit.c:212-213 | two PUTs, the second through the header just written, leave a block with equal header and footer and nothing else changed |
| BoundaryTags.TagFromPrev | malloc/mm_implicit.c:64-66 | header written at the previous block and footer found through the block's own, still old, header delimit the merged block |
| BoundaryTags.TagAcross | malloc/mm_implicit.c:69-71 | the same over three blocks, with the footer found through the next block's header |
| BoundaryTags.AppendFree | malloc/mm_implicit.c:80-91 | the heap grows by the request rounded up to an even number of words, with tags for the new block and a new epilogue, or not at all |
| BoundaryTags.AppendedSpan | malloc/mm_implicit.c:80-94 | space added to the heap joins the last block if that is free, and starts at the old brk if it is not |
| BoundaryTags.SpanTagged | malloc/mm_implicit.c:50-72 | one header and one footer, placed by the four-way case split on the neighbours' bits, turn the encoding of the old tiling into one of the coalesced tiling, without free neighbours and without touching a live payload |
| BoundaryTags.Moved | malloc/mm_segregated.c:340-343 | allocate, copy, free: the old payload is found in the new block and every other live payload is unchanged |
| Tiling.WalkReaches | malloc/mm.h:24-25 | every block but the prologue, and the epilogue, has a block ending where it starts |
| Tiling.MergeTiled | malloc/mm_implicit.c:58-72 | merging a block with the next keeps the heap exactly tiled |
| Tiling.SplitTiled | malloc/mm_implicit.c:148-151 | splitting a block keeps the heap exactly tiled |
| Tiling.CoalescedIsolated | malloc/mm_implicit.c:50-78 | coalescing the one block with doubtful neighbours leaves no two neighbouring free blocks anywhere |
| Tiling.CoalescedKeeps | malloc/mm_implicit.c:50-78 | coalescing changes, adds and removes no live block |
| Tiling.AllFree | malloc/mm_implicit.c:50-78 | a heap without live blocks and without free neighbours is one free block of the heap size less 16 bytes |
| Tiling.Conservation | malloc/malloc-package/memlib.c:58-69 | the block sizes add up to the heap size less the padding and the epilogue words |
| Tiling.LiveDetermine | malloc/mm_segregated.c:116-148 | two heaps without free neighbours that have the same live blocks and the same brk are the same heap |
| ImplicitSpec.NextFitMeaning | malloc/mm_implicit.c:96-132 | next fit fails exactly when nothing fits, that is when first fit fails, and otherwise returns the first fitting block in cyclic order from the rover |
| ImplicitSpec.FirstFitMeaning | malloc/mm_implicit.c:96-107 | first fit returns the lowest fitting block, and fails exactly when nothing fits |
| ImplicitSpec.MallocPlace | malloc/mm_implicit.c:139-204 | where a successful request gets its block, told without the search: the next fit from the rover, or the last free block joined with the new space; its front is handed out, the rest of at least 16 bytes stays free, and the rover moves to a block found and stays when the heap grows |
| ImplicitSpec.SecondFit | malloc/mm_implicit.c:109-132 | over two calls: the second request is served by the first fitting block in cyclic order from the one the first call handed out |
| ImplicitSpec.RoverStays | malloc/mm_implicit.c:74-75 | after coalescing the rover is where it was if that still starts a block, and otherwise at the start of the block it lies in |
| ImplicitSpec.MallocEffect | malloc/mm_implicit.c:180-204 | a successful request gets a block that was not live, large enough, and no other live block changes; a failed one changes nothing |
| ImplicitSpec.MallocOutcome | malloc/mm_implicit.c:180-204 | a positive request fails exactly when nothing fits and the heap cannot grow by max(block size, 4096) bytes; the heap grows by that amount or by nothing; the result is 8-aligned with room for the request |
| ImplicitSpec.FreeEffect | malloc/mm_implicit.c:209-216 | freeing removes exactly one live block |
| ImplicitSpec.FreeRover | malloc/mm_implicit.c:209-216 | freeing moves the rover only when its block is merged into another, and then to the start of that |
| ImplicitSpec.ReallocEffect | malloc/mm_implicit.c:221-244 | a successful realloc puts a large enough block in the place of the old one and changes no other live block; a failed one changes nothing |
| ImplicitSpec.ReallocOutcome | malloc/mm_implicit.c:221-244 | a realloc of a live block always moves it, even when it is large enough; it fails, and the heap grows, exactly as for a malloc of the new size |
| ImplicitSpec.FreeUndoesMalloc | malloc/mm_implicit.c:180-216 | freeing the result of a malloc that did not grow the heap restores the tiling exactly |
| ImplicitHeap.Allocator.Coalesce | malloc/mm_implicit.c:50-78 | the words encode the coalesced tiling, the result is where the merged block starts, the rover is repaired, and live payloads keep their words |
| ImplicitHeap.Allocator.MergeFree | malloc/mm_implicit.c:52-72 | in each of the four cases the tags written, found by re-reading headers, are those of the merged block and nothing else |
| ImplicitHeap.Allocator.ExtendHeap | malloc/mm_implicit.c:80-94 | the heap grows by the rounded request, the new space joined with a free last block, or null is returned and nothing changes exactly when the limit would be passed |
| ImplicitHeap.Allocator.FirstFit | malloc/mm_implicit.c:96-107 | returns the first fitting block of the tiling or null |
| ImplicitHeap.Allocator.NextFit | malloc/mm_implicit.c:109-132 | both loops end, return the next fit of the specification, and the rover moves to the result only |
| ImplicitHeap.Allocator.Place | malloc/mm_implicit.c:139-153 | the front of the block is live, a remainder of at least 16 bytes is a free block, and live payloads keep their words |
| ImplicitHeap.Allocator.MmInit | malloc/mm_implicit.c:158-174 | succeeds exactly when the first chunk fits, and then leaves the prologue, one free chunk, the rover at the prologue and a heap of 4112 bytes |
| ImplicitHeap.Allocator.MmMalloc | malloc/mm_implicit.c:180-204 | heap, rover and result are those of the specification, the invariant holds, and every live payload keeps its words |
| ImplicitHeap.Allocator.MmFree | malloc/mm_implicit.c:209-216 | the tiling is the coalesced one, the invariant holds, and every other live payload keeps its words |
| ImplicitHeap.Allocator.MmRealloc | malloc/mm_implicit.c:221-244 | a malloc for a null pointer, a free for size 0, and otherwise the specified move or failure; the first min(size, old payload) bytes are carried over, and every other live payload keeps its words |
| ImplicitExamples.RoverGoesOn | malloc/mm_implicit.c:109-132 | malloc 8, 8, free the first, malloc 8 returns 4, 8 and 12: the search does not come back to the first block |
| ImplicitExamples.MovesAnyway | malloc/mm_implicit.c:234-243 | malloc 8, realloc to 8 moves the block from 4 to 8 |
| SizeClasses.ClassIsFloorLog2 | malloc/mm_segregated.c:54-62 | the halving loop computes the floor of the binary logarithm, cut off at 15 |
| SizeClasses.LogBelowLast | malloc/mm_segregated.c:172-173 | the search size has dropped to 1 by class 15 exactly when the request is below 2^16 |
| SizeClasses.ClassesOrdered | malloc/mm_segregated.c:54-62 | every size of a lower class is smaller than every size of a higher one |
| FreeLists.IndexInserted | malloc/mm_segregated.c:64-92 | linking a block in at its sorted place, in any of the four cases, keeps all sixteen lists in order and changes link words of listed blocks only |
| FreeLists.IndexRemoved | malloc/mm_segregated.c:94-114 | unlinking a block, in any of the four cases, keeps all sixteen lists in order and changes link words of listed blocks only |
| FreeLists.ListedOnce | malloc/mm_segregated.c:52-114 | exactly the listed blocks occur on the lists, each in one place of one list |
| FreeLists.NodeMeaning | malloc/mm_segregated.c:52-114 | a listed block is in class min(15, floor(log2 size)); PRED and SUCC are mutually inverse and null at the ends; sizes ascend along the list |
| SegregatedSpec.LinksSpareTags | malloc/mm_segregated.c:52-114 | list work never disturbs a header, a footer, the epilogue or a live payload, though all live in one array |
| SegregatedSpec.TagsSpareLinks | malloc/mm_segregated.c:116-148 | tags of a block that overlaps no listed block leave all lists in order |
| SegregatedSpec.SpanIndexed | malloc/mm_segregated.c:116-148 | once the merged neighbours have left the lists and the tags are written, tiling and lists are in order and only the merged block is missing from the lists |
| SegregatedSpec.FoundBest | malloc/mm_segregated.c:166-186 | the first block of sufficient size in the first class from the request's class on is a smallest fitting block of the whole heap |
| SegregatedSpec.PlacedTidy | malloc/mm_segregated.c:188-214 | each of the three ways to place hands out one new live block of the wanted size, or 8 bytes more, and keeps the tiling free of free neighbours |
| SegregatedSpec.HandedEffect | malloc/mm_segregated.c:244-268 | a successful request gets a block that was not live, large enough, and no other live block changes; a failed one changes nothing |
| SegregatedSpec.HandedOutcome | malloc/mm_segregated.c:244-268 | a positive request fails exactly when the search found nothing, by lack of a fit or for a size of 2^16 and more, and the heap cannot grow by max(block size, 4096) bytes; growth is that amount or nothing; the result is 8-aligned with room for the request |
| SegregatedSpec.HandedPlace | malloc/mm_segregated.c:188-268 | where a successful request gets its block and how it is split, in plain numbers: from a smallest fitting block, or from the last free block joined with the new space; all of it when less than 16 bytes would be left, the back from 96 bytes on, the front below |
| SegregatedSpec.FreeUndoesMalloc | malloc/mm_segregated.c:188-280 | freeing the result of a malloc that did not grow the heap restores the tiling, and with it the set of listed blocks, after a front split, a back split or no split |
| SegregatedSpec.GrownBehind | malloc/mm_segregated.c:329-334 | when the block behind is last or is the epilogue, the space gained by extend_heap lies directly behind the block to be grown |
| SegregatedSpec.GrownBeyond | malloc/mm_segregated.c:329-334 | otherwise it lies beyond a live block, which the new size of the grown block covers |
| SegregatedSpec.NotIntact | malloc/mm_segregated.c:337-338 | once a block's tag claims the space of a live block, no tiling of the words contains both |
| SegregatedSpec.CopyFacts | malloc/mm_segregated.c:340-343 | all bytes of the old block, overhead included, fit in the new payload, and source and target do not overlap |
| SegregatedSpec.CrashCondition | malloc/mm_segregated.c:340-343 | mm_realloc writes through the null pointer if and only if the block has to move, find_fit finds nothing for it, and the heap cannot grow by max(block size, 4096) bytes |
| SegregatedSpec.ReallocCourses | malloc/mm_segregated.c:313-347 | the five courses of a realloc told by the blocks and the brk alone: nothing happens to a block that is large enough; one with a live block behind it moves, or crashes, under exact conditions; otherwise the free block behind is taken if that is enough, and if not the brk grows by exactly max(what is lacking, 4096) bytes or, when these do not fit, null is returned; with nothing behind the free block, the block then has all of it |
| SegregatedSpec.HarmMeaning | malloc/mm_segregated.c:327-343 | when a realloc swallows a block and when it crashes, told by the blocks, the brk and the limit alone |
| SegregatedSpec.ResizedEffect | malloc/mm_segregated.c:302-347 | a realloc that neither crashes nor swallows returns null exactly when the heap cannot grow as needed, and then changes nothing; otherwise a large enough block takes the place of the old one and no other live block changes |
| SegregatedSpec.ReallocIsCall | malloc/mm_segregated.c:302-347 | every realloc that neither swallows a block nor crashes, failed growth included, is one of the orderly calls of a run |
| SegregatedSpec.RunOrderly | malloc/mm_segregated.c:219-347 | after any sequence of mallocs, frees and reallocs that neither swallow nor crash the heap is exactly tiled without free neighbours |
| SegregatedSpec.RunAllFreed | malloc/mm_segregated.c:219-347 | any such run that frees everything ends with one free block of the heap size less 16 bytes |
| SegregatedSpec.RunForgets | malloc/mm_segregated.c:219-347 | two runs, however different, that end with the same brk and the same live blocks end with the same heap |
| SegregatedHeap.Allocator.SizeClass | malloc/mm_segregated.c:59-62 | the loop returns the class of the size |
| SegregatedHeap.Allocator.InsertNode | malloc/mm_segregated.c:52-92 | the lists are in order and hold one block more, behind all smaller blocks of its class and in front of the others, and only link words changed |
| SegregatedHeap.Allocator.DeleteNode | malloc/mm_segregated.c:94-114 | the lists are in order and hold one block less, found through the size in its header, and only link words changed |
| SegregatedHeap.Allocator.Coalesce | malloc/mm_segregated.c:116-148 | from one free unlisted block with any neighbours, the coalesced tiling with all free blocks listed, live payloads unchanged |
| SegregatedHeap.Allocator.ExtendHeap | malloc/mm_segregated.c:150-164 | the heap grows by the rounded request, the new space joined with a free last block and listed, or null is returned and nothing changes |
| SegregatedHeap.Allocator.FindFit | malloc/mm_segregated.c:166-186 | below 2^16 a best fit among all free blocks, the first sufficient one of its list, and null exactly when nothing fits; from 2^16 on always null |
| SegregatedHeap.Allocator.Place | malloc/mm_segregated.c:188-214 | the whole block, its back from 96 bytes on, or its front is handed out, with tiling and result in plain numbers; lists hold the free blocks; live payloads keep their words |
| SegregatedHeap.Allocator.MmInit | malloc/mm_segregated.c:219-238 | succeeds exactly when the first chunk fits, and then leaves the prologue, one free, listed chunk and a heap of 4112 bytes |
| SegregatedHeap.Allocator.MmMalloc | malloc/mm_segregated.c:244-268 | a best fit is placed, or else the heap grown and placed in, or else null; tiling and lists stay in order and every live payload keeps its words |
| SegregatedHeap.Allocator.MmFree | malloc/mm_segregated.c:273-280 | the tiling is the coalesced one, the lists hold its free blocks, and every other live payload keeps its words |
| SegregatedHeap.Allocator.GrowInPlace | malloc/mm_segregated.c:327-338 | the block takes in the block behind it, after growing the heap if needed; in the swallowing case no tiling with all live blocks is left, in all others the heap is in order and all payloads, its own included, are kept |
| SegregatedHeap.Allocator.MoveBlock | malloc/mm_segregated.c:340-344 | the payload moves to a new block and all other live payloads are kept, or the result of mm_malloc is null and the heap is as before |
| SegregatedHeap.Allocator.MmRealloc | malloc/mm_segregated.c:302-347 | which of the five courses is taken and its full effect on heap and payloads; it crashes if and only if `Crashes`, and the request and all other live blocks are still in place afterwards if and only if not `Swallows`, both conditions on the heap before the call; unless it swallows, the whole heap is in order |
| HeapExamples.GrowOverThird | malloc/mm_segregated.c:327-338 | malloc 8, 8, 8, free the second, realloc the first to 100: the third, live block is lost |
| HeapExamples.CopyToNull | malloc/mm_segregated.c:340-343 | in a heap of one chunk: malloc 8, 8, realloc the first to 5000 writes through the null pointer |
| HeapExamples.LargeTwice | malloc/mm_segregated.c:166-186 | malloc 70000, free it, malloc 70000: a block that fits is free and the heap still grows |
| HeapExamples.FirstRequest | malloc/mm_segregated.c:188-214 | the first request of a fresh heap gets the front of the chunk up to 80 bytes and its back above: 80 is served at 4, 81 at 1004, 100 at 1000 |
| HeapExamples.GrowsByChunk | malloc/mm_segregated.c:329-334 | malloc 4080, realloc to 6480 grows the heap by 4096 bytes and the block to 8192, or returns null |
| TraceRecords.Records.AddRange | malloc/malloc-package/mdriver.c:381-429 | accepts a range exactly when it is aligned, inside the heap, and neither of its ends lies in a listed range; then it is put in front |
| TraceRecords.Records.RemoveRange | malloc/malloc-package/mdriver.c:434-449 | drops the first range with the given start and keeps the order of the others |
| TraceRecords.Records.Readmit | malloc/malloc-package/mdriver.c:642-667 | for a payload that arrived intact, fails exactly when the check misreads it; otherwise list, arrays and bytes are those of the request at its new place |
| TraceLedger.RangePasses | malloc/malloc-package/mdriver.c:390-417 | a payload in a live block of its own passes all tests of add_range and overlaps no listed range |
| TraceLedger.RangesDisjoint | malloc/malloc-package/mdriver.c:407-417 | the listed ranges never overlap, although the driver only tests end points |
| TraceLedger.HitsMeaning | malloc/malloc-package/mdriver.c:407-417 | of all overlaps the test of add_range misses exactly those where the new range lies around a listed one |
| TraceLedger.WithoutFirst | malloc/malloc-package/mdriver.c:434-449 | removing a range takes out the first with that start and leaves the others in their order |
| TraceLedger.CharValueMeaning | malloc/malloc-package/mdriver.c:656 | a byte read through a char pointer is congruent to it modulo 256, in the range of the type |
| TraceLedger.MisreadMeaning | malloc/malloc-package/mdriver.c:655-661 | a realloc is misread exactly when the low byte of its id does not read back as itself |
| TraceLedger.LiveBytesFit | malloc/malloc-package/mdriver.c:727-769 | the blocks held, with 8 bytes of overhead each, fit in the heap less 16 bytes |
| ImplicitTrace.StepConsistent | malloc/malloc-package/mdriver.c:598-681 | after each operation the live blocks are exactly the blocks held, each with 8 bytes to spare, and every live id has one of its own |
| ImplicitTrace.EnoughRoom | malloc/malloc-package/mdriver.c:577-685 | a trace whose requests, each rounded up to at least a chunk, add up to the room left always fits |
| ImplicitTrace.AllFreed | malloc/malloc-package/mdriver.c:577-685 | a trace that frees all it allocates leaves one free block of the heap size less 16 bytes |
| ImplicitTrace.StepBytes | malloc/malloc-package/mdriver.c:721-769 | an allocation adds its size to the live bytes, a realloc the difference, a free takes its size off |
| ImplicitTrace.PeakBounds | malloc/malloc-package/mdriver.c:731-777 | after no prefix of a completed run are there more live bytes than the peak |
| ImplicitTrace.PeakReached | malloc/malloc-package/mdriver.c:731-777 | after some prefix there are as many |
| ImplicitTrace.PeakFits | malloc/malloc-package/mdriver.c:731-777 | the peak of the live bytes never exceeds the final heap size less 16 |
| ImplicitDriver.TraceRun.EvalMmValid | malloc/malloc-package/mdriver.c:577-685 | for every well-formed trace, live ids allocated again included, accepts if and only if the trace fits in the heap and no realloc check misreads a signed char; then the range list is exactly the payloads held and each holds its fill byte |
| ImplicitDriver.TraceRun.DoRealloc | malloc/malloc-package/mdriver.c:632-667 | fails exactly when memory runs out or the check of the copied bytes misreads them; otherwise the request has moved with its data |
| ImplicitDriver.TraceRun.EvalMmUtil | malloc/malloc-package/mdriver.c:698-778 | returns the largest number of live bytes after any prefix of the trace, an upper bound for all and reached by one, at most the final heap size less 16; fails exactly when the trace does not fit |
| SegregatedTrace.StepConsistent | malloc/malloc-package/mdriver.c:598-681 | the same as for the implicit allocator, and the heap grows by no more than the demand of the operation |
| SegregatedTrace.StepBytes | malloc/malloc-package/mdriver.c:598-681 | an allocation adds its size to the bytes held, a realloc the difference, a free takes its size off |
| SegregatedTrace.RoomServes | malloc/mm_segregated.c:244-347 | with room for its demand no operation returns null and none crashes; only a swallowed block is left to fear |
| SegregatedTrace.EnoughRoom | malloc/malloc-package/mdriver.c:577-685 | a trace whose total demand fits never gets stuck, in any of its runs |
| SegregatedTrace.ShrinkingHarmless | malloc/mm_segregated.c:325-326 | a trace whose reallocs never ask for more than the request has does no harm in any of its runs: every realloc keeps its block |
| SegregatedTrace.AllFreed | malloc/malloc-package/mdriver.c:577-685 | whenever nothing is held, the heap is one free block of the heap size less 16 bytes |
| SegregatedDriver.TraceRun.EvalMmValid | malloc/malloc-package/mdriver.c:577-685 | for every well-formed trace no run of which swallows a block or crashes, goes on until an operation is refused or misread and accepts if none is; with room for the total demand it accepts if and only if no realloc check misreads a signed char |
| SegregatedDriver.TraceRun.DoRealloc | malloc/malloc-package/mdriver.c:632-667 | succeeds exactly when mm_realloc is not starved and the check does not misread; then the request has been resized with its data, in place or moved |
| TraceExamples.HighIdRejected | malloc/malloc-package/mdriver.c:655-661 | allocating and reallocating request 128 fits, and is rejected where char is signed |
| TraceExamples.ReusedCounts | malloc/malloc-package/mdriver.c:598-778 | allocating request 0 with 8 and again with 100 bytes and freeing it is accepted, has a peak of 108 bytes and leaves 8 of them behind |
| LineDelete.Locate | sysio/mylined.c:30-59 | for any portions the reads return, the end of the line and the position the zero sentinel makes of its start, or that the line does not exist |
| LineDelete.ShiftDown | sysio/mylined.c:69-113 | for any portions the reads return, the part between writer and reader is cut out; unread data is never overwritten |
| LineDelete.DeleteLine | sysio/mylined.c:26-118 | the whole effect on the file, for every line number including 0 |
| LineDelete.DeletesExactly | sysio/mylined.c:45-51 | exactly the wanted line is removed if and only if it is not line 1 and its start is not mistaken for "not found" |
| LineDelete.LineIsUnique | sysio/mylined.c:38-56 | a file has at most one k-th line, so what is left depends on the file and the number alone |
| LineDelete.FirstCharacterStays | sysio/mylined.c:45-51 | line 1 of two, and line 2 behind an empty line, lose all but their first character |
| SparseCopy.CopyBuffer | cp/cp_holes.c:28-55 | one buffer extends what a reader would see by exactly its bytes, whatever its runs |
| SparseCopy.Copy | cp/cp_holes.c:27-56 | for any portions the reads return, the offset is the input length and the output is the input without its trailing zero bytes |
| SparseCopy.TrimmedIsWhole | cp/cp_holes.c:43-51 | the output is the whole input exactly when that does not end in a zero byte; the rest is zeros |
| SparseCopy.LastZeroLost | cp/cp_holes.c:43-51 | the copy of a one and a zero is a one |
| Sampler.Sampler.AddSample | malloc/malloc-package/fcyc.c:67-88 | the front of the array is the sorted list of the k smallest samples again |
| Sampler.Sampler.Sink | malloc/malloc-package/fcyc.c:82-87 | the insertion loop moves one value to its sorted place |
| Sampler.InsertTake | malloc/malloc-package/fcyc.c:70-76 | dropping a sample not below the k-th smallest, or replacing the k-th, loses nothing of the k smallest |
| Sampler.KBest | malloc/malloc-package/fcyc.c:67-88 | the array front is sorted, part of the samples, and not above any sample left out |
| Sampler.ConvergedMeaning | malloc/malloc-package/fcyc.c:93-98 | whatever ascending order the samples are put in, they have converged exactly when there are k and the k-th is at most 1 + epsilon times the first |
| Sampler.StopsAtThree | malloc/malloc-package/fcyc.c:129-168 | samples of 100, 100 and 101 end a measurement with k = 3 and epsilon = 0.01 |
| Sampler.StopsAtFour | malloc/malloc-package/fcyc.c:129-168 | samples of 102, 100, 100 and 101 end it at the fourth and not before |
| Sampler.Sampler.Fcyc | malloc/malloc-package/fcyc.c:129-168 | returns the smallest sample, stops at the first convergence or at maxsamples, and not before |
| GetLine.LineBuffer.ReadLine | stdio/my_getline.c:8-63 | the line with its break and a terminator is in the buffer, which has been doubled as often as needed and no more; -1 exactly when no line break is left |
| GetLine.DoubledTwice | stdio/my_getline.c:37-49 | growing the buffer for one line and then for another gives the size the longer of the two needs |
| GetLine.DoubledPower | stdio/my_getline.c:41-49 | the buffer is the first size times a power of two, the smallest that leaves room for the line and its terminator |
| GetLine.OneLine | stdio/my_getline.c:86-89 | a file of one short line prints 2 and 120 |
| GetLine.NoRoomForTheTerminator | stdio/my_getline.c:41 | 119 characters fit in the first buffer, 120 do not |
| GetLine.LineLengths | stdio/my_getline.c:86-89 | the lengths printed are those of the lines that end in a line break, a last line without one being dropped; the size printed with each is 120 doubled as often as the longest line so far needs |

## Left out

- SegregatedHeap.Allocator.MmRealloc: after a swallowed block only the loss of that block is stated, not the words left behind.
- SegregatedHeap.Allocator.MmMalloc: which of several equally small fitting blocks is taken is said in terms of the lists only (FindFit, InsertNode); how whole calls order the lists is not described.
- ImplicitHeap.Allocator.MmMalloc: sizes that wrap around 32 bits when rounded up are excluded; the same holds for the other entry points of both allocators.
- ImplicitHeap.Allocator.MmFree: null pointers, double frees and pointers that mm_malloc did not return are excluded, as for the segregated allocator.
- ImplicitHeap.Allocator.MmInit: only an empty heap is initialised, as after mem_init or mem_reset_brk.
- SegregatedDriver.TraceRun.EvalMmValid: what the driver does after a swallowed block or a crash is not described, so traces with such runs are excluded; which of several best fits is taken is left open, so a trace can have several runs.
- ImplicitDriver.TraceRun.EvalMmUtil: the ratio it returns as a double is left as its two parts; it is run over the implicit allocator only.
- TraceRecords.Records.AddRange: the list of range records is a sequence; the records' own memory and the error texts are not modelled.
- MemLib.Memory.Sbrk: the brk counts words, so increments that are no multiple of 4 are excluded; the allocators ask for none.
- LineDelete.DeleteLine: short writes, I/O errors, the parsing of the line number, and files of 2^31 bytes and more.
- SparseCopy.Copy: short writes and I/O errors, and opening the files.
- Sampler.Sampler.Fcyc: samples are real numbers instead of doubles; timers, tick compensation and cache clearing are outside.
- GetLine.LineBuffer.ReadLine: null arguments, failing allocations and a buffer of capacity 0.
- Real addresses, errno and memory from the C library are replaced by an array and offsets into it.
- malloc/malloc-package/mm.c, mm1.c and mm.h are copies of files modelled here.
- Trace parsing, timing, statistics and the comparison with the C library's malloc.
- The other programs under fs/, sysio/, cp/, stdio/ and the support library lib/ are thin wrappers around system calls.

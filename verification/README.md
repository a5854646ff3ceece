# Verified models of the boundary-tag allocator and of greptile

Two components are modelled in Dafny, each by the code's own operations, and proved
correct for every input, every run and every thread schedule. The one restriction on inputs
is in the allocator: requests whose C size arithmetic goes wrong are set apart by the predicate
`HeapSpec.Admissible`, and `HeapRuns.AdmissibleIff` proves that they are exactly the ones the
code does not serve.

**The 64-bit allocator** (`memory_allocator/32bit_to_64bit_practice/mm.c` over
`memory_allocator/libmem/mem.c`). The arena is an array of bytes; headers and footers are
eight of those bytes, read and overwritten in the order the code does it.

| file | content |
|---|---|
| `Words.dfy` | bytes, little-endian 64-bit words, tags as size and low bit |
| `Sizes.dfy` | `asize`, `extendsize` and the `int` argument of `mem_sbrk`, in their C widths |
| `Blocks.dfy` | the block sequence as a value, its live map, the layout changes, canonicity |
| `BoundaryTags.dfy` | how a block sequence is written into memory; what the tags around a block say |
| `Arena.dfy` | `mem_init`, `mem_sbrk`, `put_word`, `memcpy` |
| `HeapSpec.dfy` | one call as a step on the abstract heap (layout, and the bytes behind each live pointer) |
| `HeapRuns.dfy` | what every call and every run of calls keeps |
| `HeapLaws.dfy` | what each call does, stated without the layout functions, and that nothing else is left open |
| `Allocator.dfy` | the class with `mm_init`, `mm_malloc`, `mm_free`, `mm_realloc` and their helpers |
| `MmTest.dfy` | the repository's test client, proved against those contracts |

Addresses are offsets from `mem_heap`, which `mmap` aligns to a page; 0 stands for NULL, which
no payload has. The prologue is treated as one more tile, an allocated block of 16 bytes at
offset 16. `Valid()` of the class ties the bytes to the abstract heap: the tags in the arena tile
it exactly as the block sequence says, and every live pointer's bytes are the ones in the map.
A method's contract says that it keeps `Valid()` and that the call is one `HeapSpec.Step`; the
theorems about all runs are about sequences of such steps, and `Allocator.Allocator.Perform` proves
that the calls made on one allocator form such a sequence. `size | alloc`, `w & ~0xF` and `w & 0x1` are written
as arithmetic on words.

**greptile** (`thread_and_sychronization/multi_threaded_patternMatch/greptile.c`, `greptile.h`).

| file | content |
|---|---|
| `RingBuffer.dfy` | the ring's index arithmetic, the FIFO sequence it stands for, the mutable buffer |
| `PrintQueue.dfy` | the linked queue of matches |
| `Lines.dfy` | lines, substring search, the printed form of a match |
| `FileSearch.dfy` | `strtok_r` cutting a buffer in place, the loop over its lines, `pq_print` |
| `Traversal.dfy` | `traverse_directory` over an immutable tree |
| `Protocol.dfy` | producer, workers, mutex, condition variables and stdout lock as a transition system |
| `ProtocolSafety.dfy` | the invariant, and what it says of every reachable and every final state |
| `ProtocolProgress.dfy` | no deadlock, and no thread held up but by what it waits for; a bound on the length of every run |
| `Greptile.dfy` | the whole program: arguments and tree in, exit status and output out |

Locking, testing the waiting condition, falling asleep, waking, relocking, signalling, unlocking
and each printed line are separate steps of separate threads; a signal wakes any non-empty set
of the sleepers (POSIX.1-2008, `pthread_cond_signal`), and a sleeper may also wake spuriously.
Ring capacity and number of workers are parameters, both at least 1 (the program uses 1024 and 4).
What the code does between a test and the signal happens under the mutex and is one step.
The transition system works on the same `Put` and `Take` that the mutable ring is proved to follow,
and prints for each file the block that `Greptile.SearchJob` is proved to produce.

What the proofs show the code does differently from its own words:

- `mm_malloc` says a request above `CHUNKSIZE << 2` is not allowed (mm.c:155-157) but only sets
  `errno` and goes on; so does the model, and `HeapRuns.OversizeIsServed` shows one byte more
  than that being served.
- The size arithmetic is not sound for every `size_t`. `HeapRuns.AdmissibleIff` gives the exact
  condition, on the request and the heap, under which `mm_malloc` serves or refuses a request
  properly; `HeapRuns.UnservedRequests` shows two requests on a fresh heap that it does not.
- `mem_sbrk` takes an `int`, so a request of 2 GB is refused even where the arena has room
  (`HeapRuns.IntRefusesLargeRequest`).
- `line_num` is described as the line number (greptile.h:57), but `strtok_r` skips empty lines, so
  it is the rank among the non-empty ones. `Lines.RankIsPositionIff` says when the two agree,
  `Lines.NumberingSkipsEmptyLines` shows a file for which they do not.

## Model

| member | source | states |
|---|---|---|
| `Words.PackRoundTrip` | memory_allocator/32bit_to_64bit_practice/mm.c:40-59 | size and allocated bit come back out of a packed tag |
| `Words.ReadBack` | memory_allocator/32bit_to_64bit_practice/mm.c:45-51 | a word stored in eight bytes is read back, for every 64-bit value |
| `Words.ReadOther` | memory_allocator/32bit_to_64bit_practice/mm.c:45-51 | a store does not disturb any word it does not overlap |
| `Words.LittleEndian` | memory_allocator/32bit_to_64bit_practice/mm.c:45-51 | a word is the sum of its eight bytes, least significant first |
| `Sizes.NoSmallerMultiple` | memory_allocator/32bit_to_64bit_practice/mm.c:170-194 | rounding up gives the least multiple, for the 16 bytes of `asize` and the pages of `extendsize` alike |
| `Sizes.AdjustedSizeIsLeast` | memory_allocator/32bit_to_64bit_practice/mm.c:170-173 | both branches give the request and its two tags rounded up to 16 bytes |
| `Sizes.ExtendSizeIsLeast` | memory_allocator/32bit_to_64bit_practice/mm.c:194 | the extension is the block rounded up to whole pages |
| `Sizes.ToIntIsCongruent` | memory_allocator/libmem/mem.c:43 | the `int` argument is the number in its range congruent to the size |
| `Sizes.ExtensionMeetsRequestIff` | memory_allocator/32bit_to_64bit_practice/mm.c:170-195 | with wrap-around and the `int` conversion, the block covers the request and `mem_sbrk` moves the break by the size the header claims (or refuses), if and only if the rounded request is representable |
| `Sizes.ExtensionCanMissRequest` | memory_allocator/32bit_to_64bit_practice/mm.c:170-195 | 2^32 - 16 bytes asks `mem_sbrk` for 0 bytes; the largest request is rounded to a block of 16 |
| `Arena.Arena.Map` | memory_allocator/libmem/mem.c:26-36 | a fresh zeroed mapping with the break at its start |
| `Arena.Arena.Sbrk` | memory_allocator/libmem/mem.c:43-53 | moves the break and returns the old one, or -1 with nothing changed, exactly when it would pass the end or go back |
| `Arena.Arena.PutWord` | memory_allocator/32bit_to_64bit_practice/mm.c:49-51 | the new memory is the old one with this word stored |
| `BoundaryTags.Neighbours` | memory_allocator/32bit_to_64bit_practice/mm.c:62-74 | in a tiled heap the header of a block leads to its footer and to the next header, the epilogue at the end |
| `BoundaryTags.Predecessor` | memory_allocator/32bit_to_64bit_practice/mm.c:76-78 | the word behind a block is the footer of the block before it and leads to that block's header |
| `BoundaryTags.Splice` | memory_allocator/32bit_to_64bit_practice/mm.c:232-271 | tiles may be replaced by others of the same total length through stores inside their bytes only, and the rest of the tiling stands |
| `BoundaryTags.MergeTags` | memory_allocator/32bit_to_64bit_practice/mm.c:232-271 | one header and one footer around a run of blocks make it one free block, stale interior tags notwithstanding |
| `Blocks.FirstFit` | memory_allocator/32bit_to_64bit_practice/mm.c:384-394 | the lowest free block that is large enough, or none exists |
| `Blocks.PlaceAtFacts` | memory_allocator/32bit_to_64bit_practice/mm.c:356-374 | placing keeps the layout well formed and its length, and adds exactly one live block, at a new address, of exactly the size asked for, or of 16 bytes more where only those would be left |
| `Blocks.FreeAtFacts` | memory_allocator/32bit_to_64bit_practice/mm.c:207-271 | releasing keeps the layout well formed and its length, and removes exactly that block from the live map |
| `Blocks.FreeAtNormalizes` | memory_allocator/32bit_to_64bit_practice/mm.c:225-271 | the four cases of `coalesce` amount to: mark the block free, then join every run of adjacent free blocks |
| `Blocks.GrowNormalizes` | memory_allocator/32bit_to_64bit_practice/mm.c:323-343 | extending amounts to: append a free block, then join every run of adjacent free blocks |
| `Blocks.Canonical` | memory_allocator/32bit_to_64bit_practice/mm.c:207-271 | a well-formed layout is determined by the live blocks (address and size) and the total length |
| `HeapSpec.RoomFacts` | memory_allocator/32bit_to_64bit_practice/mm.c:182-198 | whether found or made by extension, the block handed to `place` is free and at least `asize` long, so its unsigned subtraction cannot wrap |
| `HeapRuns.MallocFacts` | memory_allocator/32bit_to_64bit_practice/mm.c:139-199 | NULL exactly for size 0 or an exhausted arena; otherwise one new live block, whose bytes overlap no old live block, with at most 47 bytes of overhead; the heap grows only when nothing fits |
| `HeapRuns.NullExactlyWhenFull` | memory_allocator/32bit_to_64bit_practice/mm.c:182-196 | in any arena: refused, with nothing changed, exactly when no free block fits and the pages needed pass the end of the arena or turn negative as an `int` |
| `HeapRuns.IntRefusesLargeRequest` | memory_allocator/libmem/mem.c:43-53 | the input for which the `int` matters: 2^31 bytes are refused in an arena with room for them |
| `HeapRuns.AdmissibleIff` | memory_allocator/32bit_to_64bit_practice/mm.c:170-198 | for every size, with wrap-around and the `int` conversion: the request gets a block that covers it, or is refused, or extends the heap by tiles that end at the new break, if and only if it is admissible |
| `HeapRuns.UnservedRequests` | memory_allocator/32bit_to_64bit_practice/mm.c:170-198 | on a fresh heap 2^32 - 16 bytes and the largest size are not served |
| `HeapRuns.OversizeIsServed` | memory_allocator/32bit_to_64bit_practice/mm.c:155-157 | the announced limit is none: one byte more than `CHUNKSIZE << 2` is admissible on a fresh heap, and with five pages left in the arena the call does not return NULL |
| `HeapRuns.ReallocKeeps` | memory_allocator/32bit_to_64bit_practice/mm.c:277-309 | the first min(size, old length) bytes are kept, every other live block keeps place and bytes, and a failed call changes nothing |
| `HeapRuns.StepKeepsInv` | memory_allocator/32bit_to_64bit_practice/mm.c:139-309 | every call keeps sizes, alignment, coalescing, the live map and the waste bound, and never shrinks the heap |
| `HeapRuns.RunKeepsInv` | memory_allocator/32bit_to_64bit_practice/mm.c:94-309 | the same in every state of every run from an unused allocator |
| `HeapRuns.RunPayloads` | memory_allocator/32bit_to_64bit_practice/mm.c:5-8 | in every run payloads are 16-aligned, inside the heap, and two tags apart from each other |
| `HeapRuns.RunPayloadsMeetNoTag` | memory_allocator/32bit_to_64bit_practice/mm.c:61-69 | in every run no live payload meets the header or footer of any block, allocated or free |
| `HeapRuns.RunKeepsData` | memory_allocator/32bit_to_64bit_practice/mm.c:139-223 | over any stretch of a run in which no call but a failing realloc is addressed to a live block, it keeps its address, its size and its bytes |
| `HeapRuns.RunConserves` | memory_allocator/32bit_to_64bit_practice/mm.c:194-195 | allocated plus free bytes are whole pages, never shrink and stay inside the arena |
| `HeapRuns.SameLayout` | memory_allocator/32bit_to_64bit_practice/mm.c:207-271 | two runs that end with the same live blocks and the same break end with the same layout |
| `HeapRuns.FreeOrderIrrelevant` | memory_allocator/32bit_to_64bit_practice/mm.c:201-223 | two runs of frees from one heap that release the same pointers, in whatever order, end in the same heap |
| `HeapRuns.FreeAllLeavesOne` | memory_allocator/32bit_to_64bit_practice/mm.c:216-222 | a run of frees that releases every live pointer ends in one free block |
| `HeapRuns.FreeUndoesMalloc` | memory_allocator/32bit_to_64bit_practice/mm.c:182-222 | free after malloc restores the layout, or the layout with its free end grown when malloc had to extend |
| `HeapLaws.MallocLaw` | memory_allocator/32bit_to_64bit_practice/mm.c:139-199 | address, size and growth of every malloc, without the layout functions: the first free block that holds the request and its tags, else the free end grown by whole pages, else NULL; in unwrapped arithmetic |
| `HeapLaws.StepLaw` | memory_allocator/32bit_to_64bit_practice/mm.c:139-309 | what each call does to live map, length and bytes: among others realloc to size 0 frees its block, realloc of NULL is malloc, and realloc keeps the common prefix |
| `HeapLaws.RunLaw` | memory_allocator/32bit_to_64bit_practice/mm.c:139-309 | every call of every run of an allocator does that |
| `HeapLaws.EffectIsOne` | memory_allocator/32bit_to_64bit_practice/mm.c:139-309 | that description leaves nothing open: two outcomes of a call agree in result and layout, and in all bytes but those of a new block |
| `Allocator.Allocator.Init` | memory_allocator/32bit_to_64bit_practice/mm.c:94-122 | one free page, or failure exactly when the arena is too small for it |
| `Allocator.Allocator.Coalesce` | memory_allocator/32bit_to_64bit_practice/mm.c:232-271 | in place, on the tags: the block and its free neighbours become one free block, its pointer is returned, and no byte outside it changes |
| `Allocator.Allocator.CoalesceNeither` | memory_allocator/32bit_to_64bit_practice/mm.c:241-245 | case 1 does that with both neighbours allocated |
| `Allocator.Allocator.CoalesceNext` | memory_allocator/32bit_to_64bit_practice/mm.c:248-253 | case 2, the footer address read off the header just overwritten |
| `Allocator.Allocator.CoalescePrev` | memory_allocator/32bit_to_64bit_practice/mm.c:256-261 | case 3, through the previous footer after it has become interior |
| `Allocator.Allocator.CoalesceBoth` | memory_allocator/32bit_to_64bit_practice/mm.c:262-268 | case 4, through the stale current header and previous footer |
| `Allocator.EvenBytesIsLeast` | memory_allocator/32bit_to_64bit_practice/mm.c:332 | `extend_heap` takes the least number of bytes that is a multiple of 16 and covers the words asked for |
| `Allocator.Allocator.ExtendHeap` | memory_allocator/32bit_to_64bit_practice/mm.c:326-343 | the heap grown by the requested bytes and coalesced, or NULL with nothing changed, exactly when `mem_sbrk` refuses |
| `Allocator.Allocator.FindFit` | memory_allocator/32bit_to_64bit_practice/mm.c:384-394 | the walk along the headers ends at the epilogue and finds the first fit, NULL exactly when there is none |
| `Allocator.Allocator.Place` | memory_allocator/32bit_to_64bit_practice/mm.c:356-374 | the split or whole allocation, through tags inside the block only |
| `Allocator.Allocator.Malloc` | memory_allocator/32bit_to_64bit_practice/mm.c:139-199 | the call is a malloc step on the abstract heap, first-use initialisation included; a NULL result leaves every byte as it was |
| `Allocator.Allocator.Free` | memory_allocator/32bit_to_64bit_practice/mm.c:207-223 | the call is a free step on the abstract heap |
| `Allocator.Allocator.Realloc` | memory_allocator/32bit_to_64bit_practice/mm.c:277-309 | the call is a realloc step on the abstract heap; a failed move leaves every byte as it was |
| `Allocator.Allocator.Perform` | memory_allocator/32bit_to_64bit_practice/mm.c:139-309 | a call on an allocator whose calls so far form a run extends that run by the new abstract heap and does what `HeapLaws.Effect` says, unless initialisation exits |
| `Allocator.MoveRanges` | memory_allocator/32bit_to_64bit_practice/mm.c:300-303 | although the copy length comes from the block size, its source ends below the break, its target inside the new payload, and they do not overlap |
| `Allocator.PayloadChanged` | memory_allocator/32bit_to_64bit_practice/mm.c:300-303 | stores between the tags of one live block keep the tiling and every other live block's bytes |
| `MmTest.RunTest` | memory_allocator/32bit_to_64bit_practice/mm-test.c:6-36 | the test client succeeds exactly on the arenas that can be initialised; its ten calls are a run in which the four allocations return offsets 32, 64, 1104 and 1152 of the first page, two of them get their letter, and the frees leave that page as one free block |
| `RingBuffer.PutAppends` | thread_and_sychronization/multi_threaded_patternMatch/greptile.c:63-68 | enqueueing appends to the sequence the ring stands for |
| `RingBuffer.TakeRemoves` | thread_and_sychronization/multi_threaded_patternMatch/greptile.c:79-84 | dequeueing removes its first element |
| `RingBuffer.DeadSlotsDoNotMatter` | thread_and_sychronization/multi_threaded_patternMatch/greptile.c:59-89 | rings that agree on indices and live window behave alike whatever their other slots hold |
| `RingBuffer.Buffer.constructor` | thread_and_sychronization/multi_threaded_patternMatch/greptile.c:34-42 | an empty ring |
| `RingBuffer.Buffer.Enqueue` | thread_and_sychronization/multi_threaded_patternMatch/greptile.c:66-68 | the mutable ring follows the append |
| `RingBuffer.Buffer.Dequeue` | thread_and_sychronization/multi_threaded_patternMatch/greptile.c:82-84 | the mutable ring follows the removal and returns the oldest job |
| `PrintQueue.Queue.AddTail` | thread_and_sychronization/multi_threaded_patternMatch/greptile.c:97-114 | the linked queue appends |
| `PrintQueue.Queue.PopFront` | thread_and_sychronization/multi_threaded_patternMatch/greptile.c:116-124 | the linked queue removes its front, NULL exactly when empty, although tail is left dangling |
| `Lines.LineSearchAgrees` | thread_and_sychronization/multi_threaded_patternMatch/greptile.c:199-241 | some line matches if and only if the whole text contains the pattern, which has no newline and, if empty, meets a line that is not |
| `Lines.SplitIsExact` | thread_and_sychronization/multi_threaded_patternMatch/greptile.c:227-239 | joining the lines with newlines gives the text back, and no line has a newline |
| `Lines.MatchesAreTheMatchingLines` | thread_and_sychronization/multi_threaded_patternMatch/greptile.c:230-241 | the matches are exactly the non-empty lines that contain the pattern, at its first occurrence, numbered by rank |
| `Lines.MatchesInOrder` | thread_and_sychronization/multi_threaded_patternMatch/greptile.c:230-241 | their numbers increase |
| `Lines.RankIsPositionIff` | thread_and_sychronization/multi_threaded_patternMatch/greptile.c:228-240 | the printed number is the line's number in the file if and only if no empty line precedes it |
| `Lines.PositionsIncrease` | thread_and_sychronization/multi_threaded_patternMatch/greptile.c:228-239 | the non-empty lines keep their order |
| `Lines.NumberingSkipsEmptyLines` | thread_and_sychronization/multi_threaded_patternMatch/greptile.c:228-240 | a match on the second line of a file printed with number 1 |
| `Lines.PiecesMakeTheLine` | thread_and_sychronization/multi_threaded_patternMatch/greptile.c:134-145 | prefix, pattern and suffix concatenate to the line; in colour the prefix ends at the match and the pattern is a piece of its own, otherwise there is one piece |
| `Lines.HitsSayTheMatches` | thread_and_sychronization/multi_threaded_patternMatch/greptile.c:134-145 | every printed line carries its match's number and spells out its line, in those pieces |
| `Lines.BlockIffContains` | thread_and_sychronization/multi_threaded_patternMatch/greptile.c:230-247 | a file prints something if and only if searching it as a whole finds the pattern |
| `Lines.BlockIsReport` | thread_and_sychronization/multi_threaded_patternMatch/greptile.c:126-149 | what is printed for a matching file: its name, then exactly the non-empty lines with the pattern in them, in order, each with its rank and, in colour, the first occurrence set apart |
| `FileSearch.StrTok` | thread_and_sychronization/multi_threaded_patternMatch/greptile.c:227-239 | yields the next non-empty line and leaves the others to come, overwriting only newlines at or after the resume point |
| `FileSearch.CutKeepsEntries` | thread_and_sychronization/multi_threaded_patternMatch/greptile.c:227-241 | later cuts of the buffer do not change what queued matches point at |
| `FileSearch.PrintAll` | thread_and_sychronization/multi_threaded_patternMatch/greptile.c:126-149 | drains the queue front to back into a header and one line per match |
| `FileSearch.SearchFile` | thread_and_sychronization/multi_threaded_patternMatch/greptile.c:222-247 | prints exactly the file's block of matches (see `Lines.BlockIsReport`) and reports whether it is non-empty |
| `Traversal.TraverseDirectory` | thread_and_sychronization/multi_threaded_patternMatch/greptile.c:258-299 | the recursive loop enqueues the files of the walk in order (see `Traversal.WalkInOrder`) |
| `Traversal.WalkFindsAllFiles` | thread_and_sychronization/multi_threaded_patternMatch/greptile.c:258-299 | a file is enqueued if and only if directories lead to it and it is regular and not empty, under the path and, for each name on the way, a slash and the name |
| `Traversal.WalkInOrder` | thread_and_sychronization/multi_threaded_patternMatch/greptile.c:271-295 | the walk is the depth-first listing of those files: each place in the tree once, front to back at every level |
| `Traversal.WalkDistinct` | thread_and_sychronization/multi_threaded_patternMatch/greptile.c:271-293 | no path is enqueued twice |
| `ProtocolSafety.InvKept` | thread_and_sychronization/multi_threaded_patternMatch/greptile.c:59-89 | every step of every thread keeps the invariant: mutual exclusion, FIFO ring, wakeups on their way, job tracking, NULLs, output, results |
| `ProtocolSafety.NoLostWakeup` | thread_and_sychronization/multi_threaded_patternMatch/greptile.c:59-89 | between critical sections a sleeping worker means no more waiting jobs than woken workers, and a sleeping producer a full ring |
| `ProtocolSafety.RingIsFifo` | thread_and_sychronization/multi_threaded_patternMatch/greptile.c:59-89 | the ring always holds the enqueued part of the plan less the dequeued part, with consistent indices |
| `ProtocolSafety.ExitAfterLastFile` | thread_and_sychronization/multi_threaded_patternMatch/greptile.c:208-214 | no worker exits before every file has been dequeued |
| `ProtocolSafety.ShutdownIsExact` | thread_and_sychronization/multi_threaded_patternMatch/greptile.c:328-340 | when main returns, every file is finished, every worker has exited on exactly one NULL and the ring is empty |
| `ProtocolSafety.OutputIsWholeBlocks` | thread_and_sychronization/multi_threaded_patternMatch/greptile.c:242-247 | at every moment the output is whole blocks of different files and the start of at most one more |
| `ProtocolSafety.ResultIsScheduleIndependent` | thread_and_sychronization/multi_threaded_patternMatch/greptile.c:203-252 | exit status and set of printed blocks are the same for every interleaving |
| `ProtocolSafety.WorkersPrintInOrder` | thread_and_sychronization/multi_threaded_patternMatch/greptile.c:208-252 | the files one worker prints come in the order they were enqueued |
| `ProtocolSafety.OneWorkerKeepsPlanOrder` | thread_and_sychronization/multi_threaded_patternMatch/greptile.c:208-252 | with one worker the output is every file's block in the order of the walk |
| `ProtocolProgress.NoDeadlock` | thread_and_sychronization/multi_threaded_patternMatch/greptile.c:59-89 | before all joins have returned, some thread has a step other than a spurious wakeup |
| `ProtocolProgress.WorkerNotHeldUp` | thread_and_sychronization/multi_threaded_patternMatch/greptile.c:75-89 | in every reachable state a worker that waits for neither mutex, stdout lock nor signal has a step of its own, so no interleaving is left out |
| `ProtocolProgress.MainNotHeldUp` | thread_and_sychronization/multi_threaded_patternMatch/greptile.c:59-73 | the same of main, which waits for the mutex, a signal or a worker it joins |
| `ProtocolProgress.SleepersMayWake` | thread_and_sychronization/multi_threaded_patternMatch/greptile.c:61-78 | a signal may wake any non-empty set of sleeping workers, and every sleeper may wake spuriously |
| `ProtocolProgress.RunsAreBounded` | thread_and_sychronization/multi_threaded_patternMatch/greptile.c:203-252 | every run has at most a fixed number of steps, plus three for each spurious wakeup in it |
| `ProtocolProgress.StuckRunsAreFinal` | thread_and_sychronization/multi_threaded_patternMatch/greptile.c:328-340 | a run that only spurious wakeups could continue has returned from main |
| `Greptile.SearchJob` | thread_and_sychronization/multi_threaded_patternMatch/greptile.c:211-247 | one turn of a worker's loop on a buffer holding the file prints that file's block, and finds a match if and only if the text contains the pattern |
| `Greptile.ProgramIsCorrect` | thread_and_sychronization/multi_threaded_patternMatch/greptile.c:302-344 | for every tree, pattern, capacity, number of workers and schedule: status 0 if some non-empty regular file matches and 1 if none does; the output is one report for each matching file, whole and once, under the printed name of its place in the tree, with every matching line numbered, and nothing else |
| `Greptile.OneWorkerReportsInOrder` | thread_and_sychronization/multi_threaded_patternMatch/greptile.c:302-344 | with one worker the reports come in the order of the walk |
| `Greptile.EveryRunEndsCorrectly` | thread_and_sychronization/multi_threaded_patternMatch/greptile.c:302-344 | every run of the program is bounded but for spurious wakeups, and one that only those could continue has returned with that status and output |

## Left out

- Allocator.Allocator.Malloc: requests outside `HeapSpec.Admissible`, for which the code carves a block too small or writes tags the break does not cover, some of them outside the arena; `HeapRuns.AdmissibleIff` shows that no other request is left out.
- Allocator.Allocator.Realloc: the same requests, and like `Allocator.Allocator.Free` it takes only NULL or a live pointer, as section 7.22.3 of ISO C11 has it.
- ProtocolSafety.ResultIsScheduleIndependent: the order between the blocks of different workers, which the schedule decides.
- Traversal.WalkDistinct: takes directories whose names are distinct and without slashes, as file systems guarantee.
- A second `mm_init` by the client, which abandons the first mapping, leads to the initial heap as the first one does; that old pointers die with it is not stated.
- `errno`, `exit`, `mm_deinit`, `munmap` and failing `mmap`; an arena too small to initialise is a failed result.
- `mm_checkheap`, `printblock` and all debug prints.
- The other allocators of the repository (bump, implicit and explicit free list).
- Argument counts other than one or two (a usage message and status 2).
- Reading files, `lstat` and `fstat`, permissions, links, and files that change while the program runs: the tree is a value, and a symbolic link is neither file nor directory.
- Colour codes and the terminal test; the pieces they wrap are modelled.
- Lifetime of paths and buffers, failing `malloc`, failing thread creation.
- Widths of greptile's counters: capacity and offsets are taken to fit an `int`.

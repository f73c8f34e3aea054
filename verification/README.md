# Verified cores of a small teaching kernel

This project models the algorithmic cores of an x86 teaching kernel and of its user library, and
proves what they promise. Memory is modelled as words or bytes at addresses, and objects that the C
code updates in place are classes whose methods make the same stores; each method is proved against a
specification, and the properties of that specification are proved for every input, every run or every
reachable state.

| file | what it models |
|---|---|
| `BinIndex.dfy`, `BoundaryTags.dfy`, `BinLists.dfy`, `AllocatorState.dfy`, `AllocatorSteps.dfy`, `FitSearch.dfy`, `Malloc.dfy` | the boundary-tag allocator of `shared/malloc.c`: sizes and bins, tagged chunks that tile the arena, bin rings and fastbins, the invariant and the steps that keep it, best fit, and `malloc`, `free` and `malloc_consolidate` over one word-addressed memory |
| `StateChecks.dfy`, `HeapAccounting.dfy`, `BlockRuns.dfy` | what follows for every state and every run of the allocator: its own debugging checks hold, bytes are conserved, blocks belong to their owners |
| `ProbeSequence.dfy`, `HashTable.dfy` | the open-addressing hash table of `kernel/hash.c` |
| `Philosophers.dfy` | the dining philosophers of `user/tests/test20` as an interleaved step system |
| `PhysicalMemory.dfy`, `PageTables.dfy`, `CodePages.dfy`, `HardwareWalk.dfy` | free frames, two-level page tables, the loading of a process image, and what the processor finds in these tables (section 3.6.2 of the Intel Architecture Software Developer's Manual, volume 3) |
| `GdbPacket.dfy`, `ClientMemory.dfy` | packets of the GDB Remote Serial Protocol and copies through the page tables of the debugged program |
| `Division.dfy`, `NumberText.dfy`, `StringSearch.dfy` | 64-bit division and multiplication, printing and reading numbers, substring search |
| `Arithmetic.dfy`, `Bytes.dfy`, `Wrappers.dfy` | facts about powers of two, logarithms, division and remainder; bytes and NUL-terminated strings; optional values |

`dafny verify dfyconfig.toml` checks the whole project.

## What the code does not do as documented

* `hash_set` and `hash_del` return -1 when a resize is due and fails, although the entry has been set or
  deleted by then (`kernel/hash.c:188-236`); `kernel/hash.h:89-96` says that 0 is returned if the
  assignment or the deletion succeeded. `HashTable.Table.Set` and `HashTable.Table.Del` say exactly when
  -1 is returned, and `HashTable.RefusedYetBound` reaches a table for which it is.
* `initPageList` never writes the first word of the last page, so the free list ends only if that word
  was 0 (`PageTables.Machine.InitPageList` gives the condition as an if-and-only-if,
  `PageTables.EndlessList` a memory for which the list does not end).
* `strtol` does not step over a leading `+`, so a positive number printed with `%+d` does not read back
  (`NumberText.SignedRoundTrip` gives the exact condition, `NumberText.PlusFails` an input).
* `do_div64` faults for exactly the divisors whose 32 leading bits are all ones
  (`Division.DoDiv64`, `Division.FaultingDivisors`, `Division.LargestDivisorFaults`).
* `putfrags` can put `#` into the body of a plain (not hexified) fragment as the count of a run of seven
  characters (`GdbPacket.PlainHash` gives the exact condition, `GdbPacket.SevenInARow` an input). It also
  uses `$` as the count of a run of eight characters, which the protocol advises against, in hexified
  fragments too (`GdbPacket.PlainDollar`, `GdbPacket.HexDollar`, `GdbPacket.EightInARow`).
* `strstr` returns NULL for an empty needle, against section 7.21.5.7 of ISO/IEC 9899:1999
  (`StringSearch.StrStrConforms`).

## Model

| member | source | states |
|---|---|---|
| BinIndex.Request2Size | shared/malloc.c:1990-2008 | padded sizes are multiples of 8, at least 16, leave room for a head, waste fewer than 8 bytes above that unless minimal, and never wrap for a request in range |
| BinIndex.RequestInFigures | shared/malloc.c:1984-2008 | the padded size is the least multiple of 8 from 16 on with four bytes more than asked for; requests from 0xffffffe0 on are refused |
| BinIndex.PaddedAgain | shared/malloc.c:2916-2920 | the request nb - 7 with which sYSMALLOc starts again is padded to nb again |
| BinIndex.BorrowTest | shared/malloc.c:2205-2216 | each masked, shifted difference is the mask exactly when x is below the bound, by the wrap of the unsigned subtraction |
| BinIndex.LargebinIndex | shared/malloc.c:2187-2221 | the branch-free search computes four bins per power of two from floor(log2(sz >> 8)) for every size from 256 on, and the last bin from 2^24 on |
| BinIndex.IndexInFigures | shared/malloc.c:2178-2224 | one bin for each multiple of 8 below 256, bin 95 from 2^24 on |
| BinIndex.LargeIndexInFigures | shared/malloc.c:2178-2224 | in between four bins for each power of two, in figures |
| BinIndex.IndexInRange | shared/malloc.c:2223-2224 | every chunk size has a bin from 2 to 95, below 32 exactly for small sizes |
| BinIndex.IndexMonotone | shared/malloc.c:2178-2224 | larger sizes never have lower bins |
| BinIndex.HigherBinFits | shared/malloc.c:3653-3655 | a chunk in a higher bin than the request's is larger than the request |
| BinIndex.SmallBinsAreExact | shared/malloc.c:3437-3458 | aligned sizes with the same small bin are equal |
| BinIndex.OrBitSets | shared/malloc.c:2302 | setting the bit of a bin changes that bit only |
| BinIndex.ClearBitClears | shared/malloc.c:2303 | clearing the bit of a bin changes that bit only |
| BinIndex.AndBits | shared/malloc.c:2301-2304 | the bits of a conjunction |
| BinIndex.MaskTests | shared/malloc.c:3635 | the mask with one bit tests exactly that bit |
| BinIndex.NoBitsFrom | shared/malloc.c:3624 | when bit > map, no bit from there on is set |
| BinIndex.BitAbove | shared/malloc.c:3635-3639 | while bit <= map and the bit is clear there is a set bit further up, so the search cannot shift it out |
| BoundaryTags.MergedTiling | shared/malloc.c:3787-3804 | absorbing the next chunk leaves aligned chunks that tile the arena |
| BoundaryTags.MergedTags | shared/malloc.c:3787-3804 | it spoils no tag outside the chunk being assembled |
| BoundaryTags.SplitTiling | shared/malloc.c:3592-3598 | so does splitting a chunk at the requested size |
| BoundaryTags.SplitTags | shared/malloc.c:3592-3598 | the heads and the foot written by a split are all that the tags of both parts and of the neighbours need |
| BoundaryTags.Settle | shared/malloc.c:3812-3820 | head, foot and the cleared bit after it restore exact tags for a chunk that was being assembled |
| BinLists.RemoveNode | shared/malloc.c:2148-2153 | unlink leaves a well-formed ring of the other nodes in the same order |
| BinLists.InsertNode | shared/malloc.c:3559-3563 | the four stores of an insertion give the ring with the chunk at that place |
| BinLists.UnlinkLists | shared/malloc.c:2148-2153 | unlinking one chunk keeps all 95 rings: their nodes never overlap |
| BinLists.InsertLists | shared/malloc.c:3559-3563 | inserting one chunk keeps all 95 rings, and every binned chunk is in the ring of its bin |
| BinLists.PopFast | shared/malloc.c:3428-3435 | taking the first chunk of a fastbin leaves the others, all of the same size |
| BinLists.PushFast | shared/malloc.c:3771-3774 | putting a chunk in use on its fastbin keeps all fastbins, although the link lies in the chunk |
| AllocatorState.UnlinkSound | shared/malloc.c:2148-2153 | unlinking keeps the whole invariant, every tag and every payload |
| AllocatorState.InsertSound | shared/malloc.c:3529-3563 | inserting at an ordered place of a marked bin keeps the whole invariant |
| AllocatorState.MergeSound | shared/malloc.c:3787-3804 | merging loose neighbours keeps the whole invariant |
| AllocatorState.MergeTopSound | shared/malloc.c:3825-3835 | merging into the top keeps the whole invariant and every block in use |
| AllocatorState.HandOutSound | shared/malloc.c:3586-3590 | setting the use bit after a free chunk hands it out and keeps the invariant |
| AllocatorState.SplitSound | shared/malloc.c:3591-3601 | handing out the first part of a chunk or of the top keeps the invariant |
| AllocatorState.PopFastSound | shared/malloc.c:3428-3435 | so does taking a chunk from a fastbin |
| AllocatorState.PushFastSound | shared/malloc.c:3760-3775 | so does putting one there |
| AllocatorState.GrowSound | shared/malloc.c:3097-3099 | so does extending the top by new memory |
| AllocatorState.FirstTopSound | shared/malloc.c:3220-3224 | so does making the first memory the top |
| AllocatorState.FreeChunk | shared/malloc.c:2636-2642 | every free chunk lies between chunks in use and has its size at both ends |
| AllocatorSteps.OverwrittenLinks | shared/malloc.c:3502-3511 | overwriting the unsorted list with the remainder has the effect of unlinking its only chunk first: nothing is lost |
| AllocatorSteps.OwnerWrites | shared/malloc.c:1935-1945 | writing any word from a block's first to the foot word after it keeps the allocator's invariant and all other blocks |
| StateChecks.FreeChunksCheck | shared/malloc.c:2619-2650 | do_check_free_chunk holds of every binned chunk in every state that satisfies the invariant |
| StateChecks.InUseChunksCheck | shared/malloc.c:2578-2594 | do_check_chunk and do_check_inuse_chunk hold of every chunk that claims to be in use |
| StateChecks.MallocedChunkCheck | shared/malloc.c:2696-2741 | do_check_remalloced_chunk holds of every block mALLOc returns, and do_check_malloced_chunk, with the use bit of the chunk before, of those that were not in a fastbin |
| StateChecks.BinsCheck | shared/malloc.c:2811-2840 | each bin is marked, holds sizes of its index only and is sorted |
| StateChecks.FastbinsCheck | shared/malloc.c:2789-2804 | each fastbin holds chunks of its size only, which claim to be in use |
| FitSearch.FitInBin | shared/malloc.c:3575-3604 | the first fit from the small end of the request's bin is a smallest chunk that fits anywhere |
| FitSearch.FitInHigher | shared/malloc.c:3642-3655 | so is the last chunk of the next non-empty bin, when the request's bin has none |
| FitSearch.NothingFits | shared/malloc.c:3690-3704 | when all these bins are found empty, no free chunk fits |
| FitSearch.MarkKeeps | shared/malloc.c:3559 | marking a bin keeps the map from hiding any chunk |
| FitSearch.FalseAlarm | shared/malloc.c:3644-3649 | clearing the bit of an empty bin does too, and moves on to the next bin |
| FitSearch.RestOfBlockEmpty | shared/malloc.c:3624-3632 | skipping the rest of a block skips empty bins only |
| FitSearch.BinSkipped | shared/malloc.c:3635-3639 | skipping an unmarked bin skips an empty one and leaves a set bit ahead |
| FitSearch.OrderedPlace | shared/malloc.c:3541-3556 | the place found by the walk keeps a large bin sorted |
| FitSearch.OnlyUnsorted | shared/malloc.c:3489-3500 | the last remainder is taken only when no free chunk fits exactly |
| FitSearch.SoundIsConsolidated | shared/malloc.c:3903-3994 | once no chunk is in a fastbin, every free chunk is binned between blocks in use or is the top after one |
| FitSearch.ConsolidatedIsUnique | shared/malloc.c:3903-3994 | the blocks in use determine the chunks of a consolidated heap: their places, sizes and which is the top |
| FitSearch.SoundIsLone | shared/malloc.c:2636-2642 | in every heap at rest free chunks lie between used ones, counting those in fastbins, and the top comes last, after one |
| FitSearch.LoneIsUnique | shared/malloc.c:2636-2642 | the used chunks determine all others: their places, sizes and which is the top |
| FitSearch.FreedIsUnique | shared/malloc.c:3782-3835 | so freeing leaves no choice what the chunk becomes part of |
| FitSearch.FastlessPoolIsUnique | shared/malloc.c:3471-3475 | so the chunks among which a large request is served are determined by the heap before it |
| FitSearch.LargeChoiceIsDetermined | shared/malloc.c:3471-3723 | any two ways to serve a large request in one heap take a best fit of the same size, or neither takes one |
| FitSearch.OutcomeBefore | shared/malloc.c:2916-2920 | consolidating and starting again serves the original request |
| FitSearch.SortedBefore | shared/malloc.c:3485-3564 | so does sorting unsorted chunks into their bins first: what is chosen afterwards is a best fit among the chunks before |
| FitSearch.RestIsAlone | shared/malloc.c:3591-3601 | the rest of a chunk that was split is the only unsorted chunk |
| FitSearch.OnlyIsFirst | shared/malloc.c:3497-3500 | when the last remainder is the only unsorted chunk it is at the front of the list |
| Malloc.Allocator.constructor | shared/malloc.c:2444-2453 | the zeroed state the loader leaves |
| Malloc.Allocator.InitState | shared/malloc.c:2491-2517 | initialisation establishes the invariant with empty bins and no memory |
| Malloc.Allocator.Unlink | shared/malloc.c:2148-2153 | the two stores of unlink, as a function of the old memory, keep the invariant |
| Malloc.Allocator.Insert | shared/malloc.c:3560-3563 | the four stores of an insertion keep the invariant |
| Malloc.Allocator.MergeBack | shared/malloc.c:3787-3793 | when the use bit before p is clear, the chunk found by prev_size is free, ends at p, and is merged |
| Malloc.Allocator.MergeForward | shared/malloc.c:3795-3804 | the next chunk loses its use bit for p and, if free, is unlinked and merged |
| Malloc.Allocator.PlaceUnsorted | shared/malloc.c:3806-3820 | the merged chunk enters the unsorted list with exact tags |
| Malloc.Allocator.MergeIntoTop | shared/malloc.c:3825-3835 | a chunk before the top becomes part of it |
| Malloc.Allocator.Coalesce | shared/malloc.c:3782-3835 | the bytes of a chunk taken back end up in one free chunk, at the front of the unsorted list or the top; other blocks in use and their contents do not change |
| Malloc.Allocator.Consolidate | shared/malloc.c:3903-3994 | afterwards no chunk is in a fastbin, what is not in use is merged, the invariant holds and no block in use has changed |
| Malloc.Allocator.Sbrk | kernel/mem.c:16-23 | the break never moves down, and moves up exactly when memory lasts |
| Malloc.Allocator.SysTrim | shared/malloc.c:3320-3370 | with this sbrk nothing is given back |
| Malloc.Allocator.Free | shared/malloc.c:3731-3882 | freeing a block keeps the invariant and every other block in use with its contents; a chunk of up to 72 bytes becomes the first of its fastbin, a larger one part of the one free chunk between its used neighbours, at the front of the unsorted list or the top; exactly from 128K on the fastbins are emptied; NULL has no effect |
| Malloc.Allocator.FindPlace | shared/malloc.c:3537-3557 | the neighbours between which a chunk keeps its large bin sorted |
| Malloc.Allocator.PlaceInBin | shared/malloc.c:3529-3563 | an unsorted chunk moves to the marked bin of its size: to the front of a small bin, to its exact place in a large one |
| Malloc.Allocator.TakeRemainder | shared/malloc.c:3497-3515 | the last remainder is split and its rest replaces it, in the list and as last remainder; no chunk is lost |
| Malloc.Allocator.TakeOrSort | shared/malloc.c:3486-3563 | the last unsorted chunk is handed out if it fits exactly or is the last remainder, else it moves to its bin |
| Malloc.Allocator.SortUnsorted | shared/malloc.c:3485-3564 | the unsorted list is emptied into the bins unless a chunk fits exactly, of which the oldest is taken, or the last remainder serves, if and only if it is at the front, large enough and nothing fits exactly |
| Malloc.Allocator.ScanBin | shared/malloc.c:3575-3604 | the first chunk from the back that fits, or none does |
| Malloc.Allocator.NextCandidate | shared/malloc.c:3622-3639 | the next marked bin above the request's, or all of them are empty |
| Malloc.Allocator.ScanHigher | shared/malloc.c:3615-3649 | the first non-empty bin above the request's and its last chunk, or all are empty |
| Malloc.Allocator.SplitOff | shared/malloc.c:3591-3601 | a remainder replaces the empty unsorted list |
| Malloc.Allocator.Carve | shared/malloc.c:3657-3686 | the chunk taken is handed out whole when fewer than 16 bytes would remain, else split |
| Malloc.Allocator.SearchBins | shared/malloc.c:3566-3688 | a best fit is handed out, the last of its bin that fits, or nothing fits; with 16 bytes or more to spare it is split, its rest becomes the only unsorted chunk and, for a request below 256 bytes, the last remainder, which otherwise does not change |
| Malloc.Allocator.SearchOwnBin | shared/malloc.c:3575-3604 | the part of a large request's own bin |
| Malloc.Allocator.SearchHigher | shared/malloc.c:3615-3688 | the part of the bins above, where the rest of a small request is recorded |
| Malloc.Allocator.TakeFast | shared/malloc.c:3424-3435 | a fastbin serves requests of exactly its size with its newest chunk |
| Malloc.Allocator.TakeSmall | shared/malloc.c:3445-3458 | a small bin serves requests of exactly its size with its oldest chunk, whenever it has one |
| Malloc.Allocator.UseTop | shared/malloc.c:3690-3723 | the top serves a request that no free chunk fits |
| Malloc.Allocator.SysMalloc | shared/malloc.c:2881-3301 | the fastbins are emptied and the search starts again before memory is asked for, which happens only when the fastbins are empty and the top is too small; NULL only when sbrk refuses or the size is not a positive long; the top grows by what is missing in whole pages, the first time up to the end of a page where memory lasts |
| Malloc.Allocator.Malloc | shared/malloc.c:3378-3724 | for every request: the newest chunk of the fastbin of its size if and only if there is one; then the oldest of its small bin; then the last remainder if and only if the request is small, nothing fits exactly and it is at the front of the unsorted list with more than 16 bytes to spare; otherwise a best fit among all free chunks; the top only when none fits; chosen in the heap as it was or, for large requests and when neither a chunk nor the top can serve a small one, in the heap consolidated; a chunk with 16 bytes or more to spare is split, its rest is the only unsorted chunk and, for a request below 256 bytes, the last remainder, which is unchanged in all other cases; alignment to 8, size in [nb, nb + 16), disjointness from every block in use, whose contents stay; the chunk before is in use unless a fastbin served; NULL only when out of range or refused by the system with empty fastbins |
| Malloc.ConsecutiveRequests | shared/malloc.c:3488-3515 | two small requests in a row: when the first had to split a free chunk and nothing fits the second exactly, the second block follows the first directly |
| Malloc.Allocator.Store | shared/malloc.c:1935-1945 | a client's write inside its block keeps the invariant |
| HeapAccounting.Conservation | shared/malloc.c:2758-2866 | bytes in use, in fastbins, in bins and in the top always add up to what sbrk gave |
| HeapAccounting.MallocConserves | shared/malloc.c:3378-3724 | malloc moves exactly the bytes of the new chunk from free to in use, plus what sbrk adds |
| HeapAccounting.FreeConserves | shared/malloc.c:3731-3882 | free moves exactly the bytes of the chunk back |
| BlockRuns.BlocksSeparate | shared/malloc.c:3378-3724 | two blocks held at once share no byte |
| BlockRuns.Run | shared/malloc.c:3378-3882 | in any run of requests, releases and writes to words that hold bytes of a block, every block held keeps what its owner last wrote |
| ProbeSequence.FullPeriod | kernel/hash.c:75-79 | 5x + 1 reaches every residue modulo a power of two within one period |
| ProbeSequence.PerturbVanishes | kernel/hash.c:77-79 | the perturbation is 0 after seven shifts |
| ProbeSequence.VisitsEverySlot | kernel/hash.c:54-81 | every slot is visited within 7 + size probes, for every hash code |
| HashTable.EmptySlotStops | kernel/hash.c:63-80 | an EMPTY slot anywhere ends every search |
| HashTable.LookupTerminatesIff | kernel/hash.c:63-80 | a search ends if and only if there is an EMPTY slot or the key is present |
| HashTable.SearchFails | kernel/hash.c:64-66 | stopping at an EMPTY slot proves the key absent and gives the first free slot passed |
| HashTable.Insert | kernel/hash.c:204-211 | filling a reachable free slot binds the key and keeps every other binding and the invariant |
| HashTable.Overwrite | kernel/hash.c:199-202 | overwriting a value binds the key and keeps every other binding |
| HashTable.Erase | kernel/hash.c:226-233 | a tombstone unbinds the key and hides no other one |
| HashTable.Table.Lookup | kernel/hash.c:54-81 | finds the active slot of the key, or a slot fit for inserting it |
| HashTable.Table.Initialize | kernel/hash.c:29-47 | an empty table of that size, or -1 and no change |
| HashTable.Table.Init | kernel/hash.c:138-147 | a fresh table binds nothing; -1 and no change when memory is refused |
| HashTable.Table.Copy | kernel/hash.c:88-105 | the active pairs are preserved, and only they |
| HashTable.Table.Update | kernel/hash.c:110-135 | resizing keeps all bindings and restores the load bound, to twice or half the size exactly as the counters demand; -1 if and only if a resize is due and memory is refused or the size is no long |
| HashTable.Table.Isset | kernel/hash.c:163-171 | whether the key is bound |
| HashTable.Table.Get | kernel/hash.c:174-185 | the value bound to the key, or the default |
| HashTable.Table.Set | kernel/hash.c:188-214 | binds the key, nothing else; -1 if and only if the key was new, a resize was due with it and failed |
| HashTable.RefusedYetBound | kernel/hash.c:188-214 | a table reached by six calls: -1 is returned and the sixth key is bound |
| HashTable.FirstVacantTells | kernel/hash.c:63-80 | the first slot without a pair on a key's path is unique, so it is known before the call whether a tombstone is reused |
| HashTable.Table.Del | kernel/hash.c:217-236 | unbinds the key, nothing else; -1 if and only if the key was bound and the resize then due failed |
| HashTable.LoadedHasEmpty | kernel/hash.c:116-118 | 3 * fill < 2 * size leaves an EMPTY slot |
| HashTable.Run | kernel/hash.c:54-236 | the answers of any run of operations agree with a finite map, whether memory is granted or refused; a run ends early only in a search that never returns, and only after memory was refused |
| Philosophers.SharedForks.TakeSection | user/tests/test20/philosophe.c:63-78 | the critical section of prendre_fourchettes, store by store, computes the specified state |
| Philosophers.SharedForks.PutSection | user/tests/test20/philosophe.c:80-100 | so does that of poser_fourchettes |
| Philosophers.TakeForksAccounted | user/tests/test20/philosophe.c:69-74 | taking keeps: a fork is up exactly when one of its two neighbours has been granted it |
| Philosophers.PutForksShape | user/tests/test20/philosophe.c:85-97 | what putting down does to each fork, flag and semaphore, fork by fork |
| Philosophers.ForkAccounted | user/tests/test20/philosophe.c:85-97 | handing forks over without clearing them still never gives one fork to two |
| Philosophers.StillBlockedBeside | user/tests/test20/philosophe.c:85-95 | whoever stays blocked still has a granted neighbour: no wake-up is lost |
| Philosophers.StepInv | user/tests/test20/philosophe.c:31-125 | every step of every interleaving keeps the invariant, for any number n >= 3 |
| Philosophers.NeighboursNeverEat | user/tests/test20/philosophe.c:44-55 | no two neighbours are shown eating at once, and who is shown eating has both forks |
| Philosophers.NoDeadlock | user/tests/lib/xlock.c:34-46 | while somebody is not finished, somebody can move |
| Philosophers.StepConsumes | user/tests/test20/philosophe.c:113-124 | every step uses up one of a fixed number of steps |
| Philosophers.EveryRunIsSafe | user/tests/test20/philosophe.c:103-125 | the invariant, and with it the assertion on token counts, holds after every run |
| Philosophers.EveryRunFinishes | user/tests/test20/philosophe.c:103-125 | every maximal run has 129 steps for each philosopher and ends with all finished |
| PageTables.Machine.InitPageList | kernel/freelist.c:11-20 | the free list holds the pool in order if and only if the last page started with 0 |
| PageTables.EndlessList | kernel/freelist.c:11-20 | a memory for which the list does not end |
| PageTables.Machine.PageAlloc | kernel/freelist.c:22-34 | the first free frame, cleared; no translation changes |
| PageTables.Machine.PageFree | kernel/freelist.c:36-43 | the frame heads the free list; only its first word changes |
| PageTables.Machine.GetPhysaddr | kernel/mapping.c:54-69 | the two-level walk |
| PageTables.Machine.MapPage | kernel/mapping.c:23-43 | exactly one page of one directory gets a translation, also when a table had to be allocated; every word of memory afterwards: the slot holds the frame with the flags given, a new table's entry its frame with the flags 7 |
| HardwareWalk.SameWalk | kernel/mapping.c:54-69 | where entries that are not 0 carry the present bit, get_physaddr and a walk by the present bits over the bytes of memory translate alike |
| HardwareWalk.FlagsOfSeven | kernel/mapping.h:9-11 | entries with the flags 7 are present, writable and accessible to user code at both levels |
| HardwareWalk.MapForUser | kernel/mapping.c:23-43 | map_page with these flags makes the frame reachable for the processor, at any byte image of memory |
| PageTables.Machine.UnmapPage | kernel/mapping.c:45-52 | exactly that page loses it; nothing changes if it had none |
| PageTables.Machine.MapThenUnmap | kernel/mapping.c:23-52 | mapping and unmapping a page changes no translation |
| PageTables.Machine.CreatePgdir | kernel/mapping.c:8-20 | kernel entries copied, no user page, other directories untouched |
| PageTables.Machine.LiberePages | kernel/mapping.c:81-102 | exactly the frames of the directory return to the pool, once, though freed frames are overwritten during the walk; other frames keep contents and roles |
| PhysicalMemory.AllocWf | kernel/freelist.c:22-34 | free and allocated frames keep partitioning the pool, the list stays acyclic |
| PhysicalMemory.FreeWf | kernel/freelist.c:36-43 | the same for freeing |
| PhysicalMemory.LinkTableWf | kernel/mapping.c:32-34 | entering a zeroed table changes no translation |
| PhysicalMemory.LinkPageWf | kernel/mapping.c:38-42 | entering a page changes one translation |
| PhysicalMemory.UnlinkPageWf | kernel/mapping.c:45-52 | removing a page changes one translation |
| PhysicalMemory.WalkFrees | kernel/mapping.c:84-101 | writing the link into a frame already passed does not disturb the rest of the walk |
| CodePages.PutByteGet | kernel/process.c:43-45 | a byte stored into a word is the only byte that changes |
| CodePages.FillPage | kernel/process.c:43-56 | a blank page holds the bytes of the image, zero beyond them |
| CodePages.CopierCode | kernel/process.c:30-58 | all pages of the image are loaded into frames of their own |
| CodePages.ImageReadable | kernel/process.c:30-58 | reading virtual byte 0x40000000 + k gives byte k of the image, zero in the rest of the last page, through entries with the flags 7 |
| CodePages.BytesOfWord | kernel/process.c:43-45 | bytes of a word are counted from its lowest |
| HardwareWalk.ImageSeen | kernel/process.c:30-58 | the processor and the debugger find byte k of the image at 0x40000000 + k |
| CodePages.ImageFramesDistinct | kernel/process.c:38-52 | the frames differ from each other and from all directories and tables |
| CodePages.LoadAndRelease | kernel/process.c:30-58 | creating, loading and releasing an address space returns the pool and every other directory to what they were |
| GdbPacket.HexChars | kernel/gdb_serial.c:45 | digit n is character n of 0123456789abcdef |
| GdbPacket.HexValues | kernel/gdb_serial.c:47-53 | exactly the 22 digits in either case have a value, and which |
| GdbPacket.PairDigits | kernel/gdb_serial.c:55-66 | a pair of digits is 16 times the first and the second, told by the characters |
| GdbPacket.DigitsInOrder | kernel/gdb_serial.c:45-66 | "12af" and "AF", in figures |
| GdbPacket.Hex2Bin | kernel/gdb_serial.c:55-66 | 0 exactly when all pairs are hexadecimal; the bytes before the first bad pair are stored, with the values of their digits |
| GdbPacket.HexRoundTrip | kernel/gdb_serial.c:55-66 | hexifying and reading back gives the same bytes |
| GdbPacket.PutFrag | kernel/gdb_serial.c:147-208 | the loop over a fragment emits its run-length encoding |
| GdbPacket.TestRun | kernel/gdb_serial.c:156-167 | the condition sees a run exactly where four equal characters follow within the fragment |
| GdbPacket.FindRunEnd | kernel/gdb_serial.c:172-181 | the run ends after at most 98 characters or at the fragment's end |
| GdbPacket.ExpandEncode | kernel/gdb_serial.c:147-208 | expanding the runs gives the text back |
| GdbPacket.EncodeIsNoLonger | kernel/gdb_serial.c:168-171 | the body is never longer than the text |
| GdbPacket.HexBody | kernel/gdb_serial.c:182-191 | in a hexified body every character is a digit, `*` or an even count from 32 to 126, never `#` or the escape character |
| GdbPacket.PlainHash | kernel/gdb_serial.c:186-205 | a plain body contains `#` if and only if the text does or has a run that is counted by it |
| GdbPacket.SevenInARow | kernel/gdb_serial.c:186-205 | such an input |
| GdbPacket.PlainDollar | kernel/gdb_serial.c:186-205 | a plain body contains `$` if and only if the text does or has a run that leaves eight characters |
| GdbPacket.HexDollar | kernel/gdb_serial.c:182-191 | a hexified body contains `$` if and only if some run of bytes of two equal digits leaves four |
| GdbPacket.EightInARow | kernel/gdb_serial.c:182-205 | inputs for both |
| GdbPacket.HexFragmentDecodes | kernel/gdb_serial.c:55-208 | expanding the body of a hexified fragment and reading the pairs of digits gives exactly its bytes |
| GdbPacket.SendAndDecode | kernel/gdb_serial.c:55-208 | the loop over a fragment, expansion and hex2bin composed give the bytes back, with result 0 |
| GdbPacket.PutFrags | kernel/gdb_serial.c:134-222 | the whole packet is sent again until the reply is `+`, and not once more |
| GdbPacket.Framing | kernel/gdb_serial.c:210-216 | a receiver that reads up to `#` gets the body if and only if no fragment is unsafe |
| GdbPacket.PacketRoundTrip | kernel/gdb_serial.c:134-222 | such a receiver recovers the message, and the two digits after `#` are those of 0123456789abcdef for the sum of the body modulo 256 |
| GdbPacket.OkPacket | kernel/gdb_serial.c:134-222 | "OK" is sent as "$OK#9a" |
| GdbPacket.FourZeroes | kernel/gdb_serial.c:168-191 | "0000" is sent as "0* " and expands to itself |
| ClientMemory.TranslateBits | kernel/gdb_serial_support.c:89-121 | the lookup in figures: bit 31 of cr0, bits 0 and 7 of the directory entry, bit 0 of the table entry, the addresses of both entries and of the byte; no other flag matters |
| ClientMemory.StoredWord | kernel/gdb_serial_support.c:89-106 | an entry is read from its four bytes, the lowest first |
| ClientMemory.AccessedTable | kernel/gdb_serial_support.c:104 | an entry marked as accessed still designates a table |
| ClientMemory.PhysAddrLookup | kernel/gdb_serial_support.c:89-121 | the length is 0 exactly when the byte is not mapped; otherwise the bytes to the end of the page translate to consecutive addresses, for 4K pages, 4M pages and without paging |
| ClientMemory.GdbCopyin | kernel/gdb_serial_support.c:142-162 | 0 exactly when every byte is mapped; the bytes before the first unmapped one are copied as byte-by-byte translation gives them, nothing else |
| ClientMemory.SameTranslation | kernel/gdb_serial_support.c:89-121 | translation depends on the client's paging structures only |
| ClientMemory.GdbCopyout | kernel/gdb_serial_support.c:164-184 | 0 exactly when every byte is mapped; memory is that of storing the bytes one by one, provided none falls on the paging structures |
| ClientMemory.WrittenElsewhere | kernel/gdb_serial_support.c:164-184 | bytes that the block does not translate to do not change |
| ClientMemory.WriteThenRead | kernel/gdb_serial_support.c:142-184 | what is copied out is copied back in |
| Division.DivlFaults | shared/div64.c:39-59 | the divide instruction faults exactly on zero and on quotients of more than 32 bits |
| Division.Estimate | shared/div64.c:34-40 | the quotient estimated from the leading 32 bits is never too large and less than three too small |
| Division.Correct | shared/div64.c:41-48 | the correction loop turns it into the exact quotient and remainder in at most two rounds |
| Division.DoDiv64 | shared/div64.c:28-64 | exact quotient and remainder for all operands, (0, x) for a zero divisor, a fault exactly for divisors whose leading bits are all ones |
| Division.FaultingDivisors | shared/div64.c:34-40 | these divisors, described without the shift count |
| Division.LargestDivisorFaults | shared/div64.c:39 | the largest one |
| Division.LongDivision | shared/div64.c:54-59 | the two-step division by a 32-bit divisor is exact |
| Division.Normalize | user/tests/lib/math.c:114-124 | doubling stops at the largest multiple not above x, within 64 bits |
| Division.Div64 | user/tests/lib/math.c:109-139 | shift and subtract gives the exact quotient and remainder, (0, x) for zero |
| Division.DivisionsAgree | shared/div64.c:28-64 | both divisions return the same pair for every divisor that does not fault |
| Division.Mul64 | user/tests/lib/math.c:145-177 | the sixteen-bit products add up to the product modulo 2^64 |
| NumberText.DigitsValue | shared/doprnt.c:550-554 | the digits written have the value of the number |
| NumberText.DigitsFit | shared/doprnt.c:140-143 | at most 32 digits: the buffer is never overrun |
| NumberText.PutDigits | shared/doprnt.c:550-554 | filling the buffer backwards leaves the digits in order at its end |
| NumberText.FieldLength | shared/doprnt.c:556-597 | the field is as long as the width or as sign, prefix and precision or digits, whichever is longer |
| NumberText.DigitsText | shared/doprnt.c:531-553 | the digits are characters of 0123456789abcdef below the base |
| NumberText.FirstDigit | shared/doprnt.c:550-554 | no leading zero but for the number 0 |
| NumberText.PrefixText | shared/doprnt.c:538-543 | the prefix is 0 in base 8, 0x in base 16, for numbers other than 0 |
| NumberText.FieldPlaced | shared/doprnt.c:564-597 | where everything stands: blanks before the sign unless left adjusted or zero padded, sign, prefix, zeroes, digits, blanks after them when left adjusted |
| NumberText.PrintNum | shared/doprnt.c:534-599 | the emitted characters are the specified field, for every width, precision, padding, adjustment and prefix, and stand in these places |
| NumberText.FiveInFour | shared/doprnt.c:564-597 | 5 in a field of four, left adjusted, right adjusted and zero padded |
| NumberText.PrefixAfterBlanks | shared/doprnt.c:564-577 | 31 as "  0x1f" |
| NumberText.PrefixBeforeZeroes | shared/doprnt.c:571-583 | 31 as "0x001f" |
| NumberText.SignAndPrecision | shared/doprnt.c:571-580 | 7 as "+007" |
| NumberText.DigitValues | shared/strtoul.c:43-49 | the values of digits and letters in either case |
| NumberText.DigitsOfBase | shared/strtoul.c:43-49 | the digits of a base are those with values below it |
| NumberText.OctalEnds | shared/strtoul.c:40-53 | an 8 ends an octal number |
| NumberText.SpaceCodes | shared/strtoul.c:25-26 | the white space that is stepped over |
| NumberText.BaseFromText | shared/strtoul.c:27-39 | with base 0 the text decides: 0x or 0X is base 16, another 0 base 8, anything else base 10 |
| NumberText.HexPrefixText | shared/strtoul.c:27-32 | only base 16 steps over the prefix |
| NumberText.StrToUl | shared/strtoul.c:21-56 | the value modulo 2^32 and the end of the longest numeral |
| NumberText.StrToL | shared/strtol.c:21-62 | the signed value and the end of the numeral |
| NumberText.SignText | shared/doprnt.c:518-526 | a '-' for negative numbers, the flag given for all others, 0 included |
| NumberText.UnsignedRoundTrip | shared/strtoul.c:21-56 | reading a printed unsigned number in its base gives it back, for bases 8, 10 and 16 and every field |
| NumberText.SignedRoundTrip | shared/strtol.c:21-62 | the same for signed numbers, if and only if no plus sign was printed before a positive one |
| NumberText.PlusFails | shared/strtol.c:28-31 | an input for which it fails |
| NumberText.PrintThenRead | shared/doprnt.c:534-599 | printing into a buffer and reading it |
| StringSearch.MemCmp | shared/string.c:83-95 | 0 exactly for equal blocks, else the first difference |
| StringSearch.SkipOnMismatch | shared/string.c:239-250 | skipping k positions on a mismatch skips no occurrence |
| StringSearch.SkipOnMatch | shared/string.c:239-255 | skipping l positions after a comparison skips no occurrence |
| StringSearch.MemMem | shared/string.c:228-266 | the first occurrence of a non-empty needle, or none exactly when there is none |
| StringSearch.StrStr | shared/string.c:559-563 | the same for strings |
| StringSearch.StrStrConforms | shared/string.c:559-563 | the standard's result if and only if the needle is not empty |

## Left out

- Allocator: realloc, memalign, the independent_ routines, statistics, mallopt, mmap and sbrk regions that are not contiguous (with their fenceposts); the start of the heap is taken to be 8-aligned, as `kernel/build/kernel.lds` makes it.
- Allocator: stores to different words that follow each other directly are made in a fixed order that is not always that of the source; unlink and the insertions into lists are one method each, where the source writes them out several times.
- Malloc.Allocator.Free: the precondition is that the block was handed out and not freed since; a second free is undefined and is not modelled.
- Malloc.Allocator.SysMalloc: statistics fields are not modelled, and top_pad is its default 0.
- BlockRuns.Run: memory is modelled by words, so a client writes a byte by writing the aligned word that holds it.
- HashTable.Table.Update: mem_alloc is a parameter that grants or refuses; the wrap of its byte count for tables of 2^28 slots and more and of 3 * fill are not modelled.
- HashTable.Run: at most 0x5555555 operations, which keeps tables below 2^28 slots.
- hash_destroy, the NULL map arguments and the predefined string and direct hash functions of `kernel/hash.c`.
- Philosophers: queues are token counters; process creation, the shared segment and the printing are left out. The work between taking and giving back the mutex is one step, which mutual exclusion, proved as part of the invariant, justifies.
- PageTables.Machine.MapPage: the caller has a free frame when a table is missing; an empty pool makes page_alloc return NULL, which the source enters as a table. A frame has one owner, and mapping an address twice stops the source by an assertion.
- PageTables.Machine.UnmapPage: the directory has a table for the address; without one the source clears a word of frame 0.
- PageTables.Machine.LiberePages: frames shared through shm_ calls are excluded, every frame has one owner; directories are designated by frame numbers.
- allouer_pile of `kernel/process.c`, which is a second client of map_page of the same kind.
- ClientMemory.GdbCopyin: the debugger's buffer is not part of the memory that the client's tables map; the same holds for GdbCopyout.
- ClientMemory.GdbCopyout: a copy over the client's own paging structures, which would change later translations, is excluded by the precondition; switching paging off and on is not modelled.
- GdbPacket: getpacket, the command loop and the X packet. The receiver in `PacketRoundTrip` is that of the protocol description, because getpacket does not expand runs.
- NumberText.StrToL: signed overflow is undefined in C and is not modelled; the most negative long is excluded from the round trip; the `truncate` flag is always off and `%b` is left out.
- Division: the inline assembly is modelled as arithmetic on its operands.
- The random number generator around `Mul64`, memmove, memswap and strtok, which would only add easy members.
- The scheduler, message queues, signals, devices, boot code and the shell.

# OS simulator: verified model

A Dafny model of the operating-system simulator's memory management and scheduling, with proofs of what holds over every
run. `dafny verify dfyconfig.toml` checks all of it.

The configuration modelled is the one in `include/os-cfg.h`: paging, heap growing down, LRU replacement, multilevel
queue scheduling, synchronisation on.

## How it is organised

| files | what they hold |
|---|---|
| `PageTableEntry`, `PageTable` | page-table words as 32 bits, the bit macros and the two setters; words as entries |
| `PhysicalMemory` | a memory device: byte array and free-frame list, and the page copy |
| `Lru`, `LruList` | the replacement list as a sequence, and the doubly linked list that implements it |
| `Paging` | demand paging as a machine; its steps are the iterations and calls that touch shared memory state |
| `PagingInvariant`, `PagingRuns`, `PagingOrder`, `PagingLimits` | what every step keeps, and what follows over whole runs |
| `CompiledPaging` | what the fault handler does with the field it actually reads |
| `UnmappedPages`, `Races` | fetches of pages that were never mapped, and what can come between a fetch and its access |
| `MemoryUnit` | the same operations in place, on words, arrays, lists and nodes, each proved to be a step of `Paging` |
| `RegionScan`, `Regions`, `RegionSafety`, `RegionService`, `AddressSpace` | the region allocator of one process: search, growth, safety, what requests get, and the object that implements it |
| `Instructions` | the memory instructions of a process: the bytes they name, the operations they consist of, the address space they leave |
| `System`, `SystemLimits` | any number of processes with their address spaces over one paged memory, one instruction after the other |
| `Interleaving` | the same with the operations of different processes interleaved |
| `Syscalls` | the memory instructions in place, on the objects of `AddressSpace` and `MemoryUnit`; each is the instruction of `System` |
| `MultilevelQueue`, `Scheduler` | the 140 priority queues as values, and the arrays and loops that implement them |
| `Barrier`, `Os`, `OsProcesses`, `OsExecution` | timer, CPUs and loader as interleaved steps, and what holds in every interleaving |
| `OsLoading`, `OsPriorities`, `OsCompletion`, `OsTermination` | when processes arrive, how long they wait, and that every interleaving comes to an end |
| `Programs` | programs run by the threads of `Os` on the memory of `Interleaving` |
| `Options`, `Counting` | optional values, distinct sequences and the pigeonhole principle |

Sequential code is modelled twice: as functions on values, about which the properties are proved, and as classes and
methods with loops, each of which states in its contract which of those functions it computes. The threads of
`src/os.c` and `src/timer.c` are one step machine: a lock-protected block, a counter update or a flag access is one step,
and a condition wait is a step that is not enabled yet. An interleaving is any sequence of threads.

## Where the code departs from its evident intent

The model keeps the code as it is. For each departure there is a lemma with the exact condition under which the
code is right, and the guarantees over runs hold under those conditions.

- A swapped entry is written with swap type and offset but read back through the frame-number field
  (`src/mm-vm.c:284`, `src/mm-vm.c:289`). `Paging.Decoder` has both readings. They agree exactly on offset 0
  (`MisreadUnlessZero`); a fault on any other offset loses a swap frame (`CompiledReplaceLosesFrame`); a run
  behaves as intended exactly if every fault finds its page in swap frame 0 (`CompiledRunIff`), and then its reads
  return what was written (`CompiledReadReturnsLastStore`); and with one RAM frame and three pages a read returns a
  byte nobody wrote (`CompiledReadForgets`). The other guarantees are for the reading of the offset field, which is
  what the FIFO branch does (`src/mm-vm.c:342`).
- The free-region search does not stop at a fit, so all chunks but the last get lost: nothing is lost exactly if the
  list holds at most one chunk of the requested size (`SearchLoses`, `NothingLostIff`; an instance is
  `FirstChunkLost`). A request for one byte never returns (`SearchStopsIff`).
- The heap's unsigned comparisons accept requests and offsets that are too large (`HeapFitIff`, `NextWrappingIff`,
  `HeapRangeTestIff`).
- The overlap test multiplies in 32 bits. It is right about a request exactly if the sign of the product survives that
  (`OverlapTestIff`), and about all requests exactly in address spaces of up to 46340 bytes (`OverlapTestRightIff`;
  instances are `OverlapTestOverflows` and `OverlapTestOverflowsAt182Pages`).
- It also lets heap growths through that end exactly at the stack's limit, in small address spaces as the only ones
  (`SmallSpacesCollideIff`). A growth keeps the areas apart exactly if it does not collide (`GrowthKeepsLimitsIff`); a
  heap request after such a growth takes bytes of the stack exactly if it is larger than what the stack has left of its
  last page (`AfterMeeting`; a run is `AreasCollide`).
- A heap growth that ends on a page boundary, or a first heap block of whole pages, claims a page it does not map
  (`HeapGrowthExactIff`), so that a region can lie on an unmapped page (`RegionOnUnmappedPage`). Fetching such a page
  takes swap frame 0 for it; ownership of frames survives that exactly if a RAM frame was free or nobody owned swap
  frame 0 (`UnmappedFetchIff`), and otherwise the process may read another one's page (`UnmappedPageShowsAnother`).
- A byte access follows its fetch after the lock has been released. It hits its page exactly if the page is still in
  the frame (`LateStoreIff`); a run in which it hits another process's page is `StoreGoesToAnother`.
- A growth that cannot be mapped does not restore the old limit (`FailedGrowthRestoresIff` for the stack,
  `FailedHeapGrowthRestoresIff` for the heap).
- A region reused while swapped out touches the list through its old entry, so a different page may become the most
  recent one (`ReusedPageMostRecentIff`).
- Asking for more frames than RAM has may take the frame of a victim that does not exist (`RequestSucceedsIff`).
- A read or write whose page cannot be fetched still reports success (`ReadByte`, `WriteByte`); `AccessSucceedsIff`
  says when that happens.

## Model

| member | source | states |
|---|---|---|
| PageTableEntry.GenMaskBits | include/bitops.h:27-28 | a mask has exactly the bits from the low to the high position, for all positions |
| PageTableEntry.TestBit | include/mm.h:38 | masking with one bit tests that bit |
| PageTableEntry.SetValBits | include/mm.h:85 | a field write replaces exactly the bits of the field by the low bits of the value |
| PageTableEntry.FieldValue | include/mm.h:86 | a field read yields the number in the field's bits |
| PageTableEntry.FpnMacro | include/mm.h:62 | the frame-number macro yields the number in bits 0 to 12 |
| PageTableEntry.SwpTypMacro | include/mm.h:104 | the swap-type macro yields the number in bits 0 to 4 |
| PageTableEntry.SwpOffMacro | include/mm.h:105 | the swap-offset macro yields the number in bits 5 to 25 |
| PageTableEntry.FieldRoundTrip | include/mm.h:85-86 | every field reads back what was written modulo its width, whatever the word held before |
| PageTableEntry.FpnRoundTrip | src/mm.c:70-78 | a present entry gives back its frame number modulo 8192 and has the flags of a present entry, whatever it held before |
| PageTableEntry.SwapRoundTrip | src/mm.c:53-63 | a swapped entry gives back type modulo 32 and offset modulo 2^21 and has the flags of a swapped entry, whatever it held before |
| PageTableEntry.OtherBitsKept | src/mm.c:53-78 | both setters leave all bits outside their fields and flags alone |
| PageTableEntry.FpnOfSwapEntry | src/mm-vm.c:284-289 | the frame field of a swapped entry reads (type + 32 * offset) mod 8192 |
| PageTableEntry.AddressSplit | include/mm.h:96-98 | page number and offset of an address are its quotient (cut to 14 bits) and remainder by the page size |
| PageTable.EntryOfFpn | src/mm.c:70-78 | a frame number below 8192 written to any word makes it a present entry with that frame |
| PageTable.EntryOfSwap | src/mm.c:53-63 | a type below 32 and an offset below 2^21 written to any word make it a swapped entry with that offset, and its frame field is the misreading of `Paging` exactly for type 0 |
| PhysicalMemory.Device.constructor | src/mm-memphy.c:128-157 | a formatted device has every whole frame free, in ascending order |
| PhysicalMemory.Device.GetFreeFrame | src/mm-memphy.c:159-176 | the head of the free list is handed out and removed; an empty list hands out nothing |
| PhysicalMemory.Device.PutFreeFrame | src/mm-memphy.c:219-231 | the frame becomes the head of the free list |
| PhysicalMemory.Device.Read | src/mm-memphy.c:69-80 | the byte at the address, which is byte address mod 256 of frame address / 256 |
| PhysicalMemory.Device.Write | src/mm-memphy.c:111-122 | one byte of one frame changes and no other frame does |
| PhysicalMemory.CopyPage | src/mm.c:315-331 | the destination frame becomes a copy of the source frame and no other frame changes |
| LruSpec.TouchKeeps | src/mm-vm.c:18-59 | a touch permutes the list and keeps frames distinct |
| LruSpec.InsertKeeps | src/mm-vm.c:65-140 | inserting a page that owns its frame lists it exactly once, last, and removes nobody; re-adding keeps its old node |
| LruList.List.Update | src/mm-vm.c:18-59 | the pointer code moves a listed frame to the back and otherwise changes nothing; links stay mirror images |
| LruList.List.Add | src/mm-vm.c:65-140 | the pointer code appends a new frame or moves a listed one to the back with its old node |
| LruList.List.Victim | src/mm-vm.c:148-178 | the pointer code pops the front, or reports an empty list |
| PagingInvariant.TakeKeeps | src/mm.c:165-239 | taking a frame keeps ownership, list agreement and all bytes; it is undefined exactly with no free frame, an empty list and a free swap frame, and with no swap frame it fails cleanly |
| PagingInvariant.InstallKeeps | src/mm.c:105-141 | mapping a fresh page keeps ownership, list agreement and all bytes of other pages |
| PagingInvariant.GetPageKeeps | src/mm-vm.c:274-326 | a page fetch keeps all bytes of all pages, brings the page in, and is undefined exactly for a swapped page with an empty list and a free swap frame |
| PagingInvariant.AccessKeeps | src/mm-vm.c:818-961 | a byte access changes exactly the written byte of the written page, through any fault, and only if the page arrived |
| PagingInvariant.PokeStepKeeps | src/mm-vm.c:413-429 | a store without the touch changes exactly its byte, through any fault, and only if the page arrived |
| PagingInvariant.ReuseKeeps | src/mm-vm.c:464-531 | reusing a page keeps ownership, list agreement and all bytes; it is undefined exactly with an empty list, unless the page is swapped and there is no swap frame |
| PagingInvariant.StepKeeps | src/mm-vm.c:274-531 | every legal step keeps the invariant and writes nothing but its byte; unless it runs out of swap it loses no frame and no list node |
| PagingRuns.RamOwnershipOverRuns | src/mm-memphy.c:159-231 | over every run no RAM frame has two owners among free list, pending list and present entries, and without an out-of-swap failure each has exactly one |
| PagingRuns.SwapOwnershipOverRuns | src/mm-vm.c:293-321 | the same for swap frames with free list and swapped entries |
| PagingRuns.EveryRamFrameOwned | src/mm.c:165-239 | frame counts that add up leave no frame without an owner |
| PagingRuns.ListAgreesOverRuns | src/mm-vm.c:65-178 | over every run listed frames are distinct, each node's entry is present in its frame, and without a failure every present entry of every process is listed |
| PagingRuns.RamStaysFull | src/mm-vm.c:281-287 | once a page is swapped out the RAM free list is empty for the rest of the run, so a swapped page never comes back into a free frame |
| PagingRuns.Transparent | src/mm-vm.c:407-429 | over every run of any number of processes every cell of every page holds what was last stored in it, wherever paging keeps the page |
| PagingRuns.WrittenIsStored | src/mm-vm.c:421-426 | in a page written as one area only the cell of an offset holds what was written to that offset, or seen from the other area to the mirrored one |
| PagingRuns.ReadReturnsLastStore | src/mm-vm.c:818-833 | a completed read returns the byte last stored in the cell it names |
| PagingRuns.ReadReturnsLastWrite | src/mm-vm.c:818-833 | a completed read of a page written as one area returns the byte last written to that offset, or to the mirrored offset if read as the other area |
| PagingOrder.ListSorted | src/mm-vm.c:148-172 | without stale touches the list is always sorted by the position of each page's last mapping, read, write or reuse in the history |
| PagingOrder.VictimIsLeastRecent | src/mm-vm.c:158-172 | the victim's last reference is not later than that of any present page of any process |
| PagingOrder.ReusedPageMostRecentIff | src/mm-vm.c:468-495 | a page reused from swap becomes the most recent one exactly if the frame misread from its old entry is no other listed frame |
| PagingLimits.RequestSucceedsIff | src/mm.c:254-307 | a request for n frames succeeds exactly if RAM has n frames and swap can hold what they displace, and is undefined exactly if it asks for more than RAM has and swap has room left |
| PagingLimits.RequestOverRuns | src/mm.c:159-242 | the same from every state reached without a failure |
| PagingLimits.AccessSucceedsIff | src/mm-vm.c:281-322 | an access completes exactly if its page is present or there is a victim and a free swap frame |
| PagingLimits.ReplaceFrames | src/mm-vm.c:293-321 | a fault with full RAM puts the victim into the first free swap frame and the page into the victim's RAM frame, and the swap frame it leaves is the next to be used |
| CompiledPaging.MisreadUnlessZero | src/mm-vm.c:289 | the compiled reading of a swap location is right exactly for offset 0 |
| CompiledPaging.CompiledReplaceIff | src/mm-vm.c:289-321 | the compiled replacement equals the intended one exactly for offset 0 |
| CompiledPaging.CompiledReplaceLosesFrame | src/mm-vm.c:321 | after a compiled replacement every frame still has an owner exactly for offset 0 |
| CompiledPaging.CompiledStepIff | src/mm-vm.c:274-531 | a step as compiled leads to the intended state exactly if it does not fault or faults on swap frame 0 |
| CompiledPaging.CompiledRunIff | src/mm-vm.c:274-329 | the code as compiled goes through the intended states exactly if every fault of the run is on swap frame 0 |
| CompiledPaging.CompiledReadIff | src/mm-vm.c:289-312 | a compiled read that faults returns the page's byte exactly if the frame it misreads has the same byte there |
| CompiledPaging.CompiledReadReturnsLastStore | src/mm-vm.c:818-833 | as long as all faults are on swap frame 0 a compiled read returns the byte last stored |
| CompiledPaging.CompiledReadForgets | src/mm-vm.c:284-289 | with one RAM frame and 33 swap frames, after mapping three pages a compiled read of the second returns a byte of swap frame 32, whatever was written |
| UnmappedPages.UnmappedFetchIff | src/mm-vm.c:280-322 | a fetch of a page that was never mapped is undefined exactly for lack of a swap device or of a victim, changes no byte of a mapped page, and keeps ownership exactly if a RAM frame was free or swap frame 0 had no owner |
| UnmappedPages.UnmappedPageShowsAnother | src/mm-vm.c:289-321 | if another page is in swap frame 0, the fetched page shows that page's bytes and the frame then has two owners |
| Races.LateStoreIff | src/mm-vm.c:419-427 | a store into the frame its fetch returned changes its byte and nothing else exactly if the page is still in that frame |
| Races.StoreGoesToAnother | src/mm-vm.c:419-427 | with one RAM frame, a page mapped by another process between fetch and store receives the store |
| MemoryUnit.Mmu.SetPresent | src/mm.c:70-78 | rewriting an entry's word makes the page present in that frame and changes no other page |
| MemoryUnit.Mmu.SetSwapped | src/mm.c:53-63 | rewriting an entry's word makes the page swapped at that offset of device 0 and changes no other page |
| MemoryUnit.Mmu.Evict | src/mm.c:174-230 | the victim's frame is saved and its entry rewritten, or without a swap frame only the victim leaves the list |
| MemoryUnit.Mmu.GetPage | src/mm-vm.c:274-326 | fetching a page in place is the page-fetch step, with the frame number and the -3000 of the code, for either reading of the entry |
| MemoryUnit.Mmu.SetValue | src/mm-vm.c:413-429 | storing a byte in place fetches the page and changes that byte of its frame, or returns -1 with the fetch's effect |
| MemoryUnit.Mmu.GetValue | src/mm-vm.c:818-833 | reading a byte in place fetches the page and returns that byte of its frame, or returns -1 |
| MemoryUnit.Mmu.WriteByte | src/mm-vm.c:947-960 | a write in place is the write step of the machine and returns 0 even if the page could not be fetched |
| MemoryUnit.Mmu.ReadByte | src/mm-vm.c:868-881 | a read in place is the read step of the machine with its value and returns 0 even if the page could not be fetched |
| MemoryUnit.Mmu.ReuseOne | src/mm-vm.c:466-496 | one page of a reused region in place is the reuse step of the machine |
| MemoryUnit.Mmu.TakeFrames | src/mm.c:159-242 | the loop collects the frames the machine's request collects, or fails with it and drops them |
| MemoryUnit.Mmu.MapPages | src/mm.c:84-150 | the pages from the first on get the collected frames, the farthest page first |
| MemoryUnit.Mmu.MapRam | src/mm.c:254-307 | all pages of a growth are mapped, or none is |
| RegionScan.HeapFitIff | src/mm-vm.c:1220 | the unsigned fit test is right exactly if the request is at most start + 1, and accepts anything larger |
| RegionScan.NextWrappingIff | src/mm-vm.c:1219-1256 | the code's heap iteration is the intended one exactly under that condition |
| RegionScan.SmallRequestsNeverWrap | src/mm-vm.c:1219-1256 | requests no larger than the lowest free address plus one never wrap during a search |
| RegionScan.SearchStopsIff | src/mm-vm.c:1179-1257 | the search of a non-empty list stops exactly for requests of two bytes or more |
| RegionScan.SearchCarves | src/mm-vm.c:1166-1263 | a reported region has exactly the requested size, lies in one free region and shares no byte with what stays free; otherwise the list is unchanged |
| RegionScan.ChunksAndRemainder | src/mm-vm.c:1182-1213 | cutting chunks off a region until none fits gives quotient and remainder |
| RegionScan.SearchLoses | src/mm-vm.c:1179-1257 | the search carves every chunk the list holds, finds something exactly if there is one, and leaves exactly the other bytes, plus one for a last node used up |
| RegionScan.NothingLostIff | src/mm-vm.c:1179-1257 | no free byte is lost exactly if the list holds at most one chunk of the requested size |
| RegionScan.SearchIs | src/mm-vm.c:1166-1263 | the whole search at once: every region of the list is cut down to its remainder, and the last chunk of the last region that has one is reported |
| RegionScan.FirstChunkLost | src/mm-vm.c:1182-1213 | an instance: of ten free bytes a request for five takes the second half and loses the first |
| RegionSafety.OverlapMeaning | src/mm-vm.c:1048-1072 | what the sign-product test decides, in terms of the two limits, for address spaces up to 46340 bytes |
| RegionSafety.OverlapTestIff | src/mm-vm.c:1058-1065 | in address spaces of any size the test is right about a request exactly if the sign of the product survives being cut to 32 bits |
| RegionSafety.OverlapTestRightIff | src/mm-vm.c:1062 | among address spaces of whole pages up to 2^31 bytes the test is right in all states and about all requests exactly in those of up to 46340 bytes |
| RegionSafety.OverlapTestOverflows | src/mm-vm.c:1062 | in every larger one, after a stack request for all of it, some heap request into the stack passes the test |
| RegionSafety.OverlapTestOverflowsAt182Pages | src/mm-vm.c:1062 | an instance: 182 pages, all the stack's, and a heap request for 46591 bytes is not refused |
| RegionSafety.SmallSpacesCollideIff | src/mm-vm.c:1048-1072 | in address spaces of up to 46340 bytes an accepted growth collides exactly if it is one of the heap that ends at the stack's limit |
| RegionSafety.GrowthKeepsLimitsIff | src/mm-vm.c:585-644 | a request keeps the areas' limits apart and page-aligned exactly if it neither reaches into the other area nor ends, growing the heap, at the stack's limit |
| RegionSafety.AfterMeeting | src/mm-vm.c:605-644 | after a heap growth that ended at the stack's limit the next small heap request is not tested, and takes bytes of the stack exactly if it is larger than the gap |
| RegionSafety.AreasCollide | src/mm-vm.c:589-644 | a run: after 200 bytes on the stack and 255 on the heap of 512, 100 more on the heap share bytes 157 to 199 with the stack variable |
| RegionSafety.AreasApart | src/mm-vm.c:1048-1110 | no byte and no page in use belongs to both areas |
| RegionSafety.StackGrowthExact | src/mm-vm.c:1087-1113 | a stack growth maps exactly the pages between old and new limit |
| RegionSafety.HeapGrowthExactIff | src/mm-vm.c:1091-1113 | a heap growth maps pages of the claimed range only, and all of them exactly if the target is not page-aligned and a first block is not whole pages |
| RegionSafety.RegionOnUnmappedPage | src/mm-vm.c:605-644 | a run in every address space of three pages or more: 512 bytes on the heap, then 256, and the second region is on an unmapped page |
| RegionSafety.GrowthKeepsPages | src/mm.c:292-302 | a growth maps only pages that were not mapped, and every page below the stack's limit stays mapped |
| RegionSafety.FailedGrowthRestoresIff | src/mm-vm.c:1113-1118 | after a failed growth the stack's limit is the old one exactly if the request was all the pages to be mapped |
| RegionSafety.FailedHeapGrowthRestoresIff | src/mm-vm.c:1109-1116 | after a failed growth the heap's limit is the old one exactly if it was not the first growth, the request was whole pages, and break and limit were one page or less apart but not equal |
| RegionSafety.AllocKeepsInv | src/mm-vm.c:439-689 | a covered allocation keeps limits, disjointness of live and free regions, and page bookkeeping |
| RegionSafety.AllocKeepsHeapMapped | src/mm-vm.c:605-644 | it keeps all claimed heap pages mapped if its growth is clean |
| RegionSafety.FreeKeepsInv | src/mm-vm.c:698-732 | freeing any symbol keeps all of that |
| RegionSafety.RegionsDisjointOverRuns | src/mm-vm.c:439-732 | over every run of covered requests live regions of one area share no byte with each other or with free ones, live regions of the two areas share no page, and all lie in the used part of their area |
| RegionService.ServedLength | src/mm-vm.c:439-689 | a request that is served gives its symbol a region of exactly the requested size |
| RegionService.NoGap | src/mm-vm.c:627-646 | a request served at the break leaves no gap: the used part of its area grows by exactly the bytes of its region |
| RegionService.NothingTwice | src/mm-vm.c:627-646 | beyond the first block of the heap, it gets only addresses that were never used |
| RegionService.ReuseMovesNothing | src/mm-vm.c:454-531 | a request served from the free list moves no break and no limit and leaves the remainders in the list |
| RegionService.LimitsAreTight | src/mm-vm.c:605-646 | over every run of covered requests no limit is more than a page beyond its break, or in the heap a page and a byte |
| RegionService.RefusedIff | src/mm-vm.c:439-689 | where the overlap test is right, a request is refused exactly if no free region holds it and the break cannot move that far |
| RegionService.SmallSpacesTestRight | src/mm-vm.c:1048-1072 | in address spaces of up to 46340 bytes the test is right about every request |
| RegionService.RefusedChangesNothing | src/mm-vm.c:439-689 | and a refused request changes nothing |
| RegionService.FreedIsServed | src/mm-vm.c:698-732 | after a live symbol is freed, every request its region can hold is served from the free list |
| RegionService.FreedFound | src/mm-vm.c:211-226 | a request gets what it would have got before the free, and only if there was nothing the last chunk of the freed region |
| RegionService.FreeMovesNothing | src/mm-vm.c:698-732 | freeing moves no break and no limit, and clears its symbol and no other |
| AddressSpace.Mm.constructor | src/mm.c:338-376 | the initial address space |
| AddressSpace.Mm.GetFreeRegion | src/mm-vm.c:1166-1263 | the loop, with its unsigned heap test, computes the search |
| AddressSpace.Mm.Validate | src/mm-vm.c:1048-1072 | the overlap test |
| AddressSpace.Mm.IncLimit | src/mm-vm.c:1081-1123 | the limit moves and the pages are mapped in place, or nothing happens, or the limit is left behind by a failed mapping, each exactly when the model says |
| AddressSpace.Mm.TakeAtBreak | src/mm-vm.c:627-646 | symbol and break after a request at the break are those of the model, of which `NoGap` says where they are |
| AddressSpace.Mm.Release | src/mm-vm.c:726-732 | the symbol is cleared and its region heads the free list, unless it runs the wrong way; `FreedFound` says what that is good for |
| Instructions.HeapRangeTestIff | src/mm-vm.c:864 | the unsigned range test of heap accesses is right exactly for offsets up to the region's start |
| Instructions.AllocatedVar | src/mm-vm.c:843-961 | a symbol that was given n bytes can be accessed at exactly the offsets below n, and these are its region's bytes from the start on |
| Instructions.FreedVar | src/mm-vm.c:698-732 | a freed symbol can be accessed at no offset, and all others at the same as before |
| Instructions.OpsAdd | src/mm-vm.c:439-732 | the operations of an instruction install exactly the pages its address space adds |
| Instructions.OpsOnOwnPages | src/mm-vm.c:439-961 | the operations of a covered instruction access mapped pages of its own process and install others, each once |
| Instructions.DistinctVars | src/mm-vm.c:421-426 | different bytes of the live regions of a process are stored in different places |
| Instructions.OpsSpare | src/mm-vm.c:698-961 | the operations of an instruction store to no variable that it does not write or release |
| Instructions.MappedCovers | src/mm-vm.c:843-961 | as long as all heap pages are mapped every access that does not wrap is covered |
| System.VarMapped | src/mm-vm.c:843-880 | then every byte of every live region is on a mapped page |
| System.VarUndisturbed | src/cpu.c:65-131 | no instruction of any process changes a variable that it does not write, free or reallocate |
| System.WriteStores | src/mm-vm.c:923-961 | a write inside its region that completes stores its byte in its variable |
| System.ReleaseZeroes | src/mm-vm.c:723-724 | FREE sets every byte of a stack variable but the last to zero and keeps all bytes of a heap variable |
| System.AllocateKeepsBytes | src/mm-vm.c:439-689 | an allocation changes no byte of any mapped page |
| System.ReadFetches | src/mm-vm.c:843-882 | a read inside its region that completes returns the current byte of its variable |
| System.RefusedChangesNothing | src/mm-vm.c:854-867 | an access outside its region is refused and changes nothing |
| System.AccessExecutesIff | src/mm-vm.c:843-961 | a covered access inside its region completes exactly if its page is present or can be swapped in |
| System.VariablesHold | src/cpu.c:53-137 | over every history of covered instructions of any number of processes, refused and failed accesses included, a variable holds the byte last written to it since it was allocated |
| System.CleanHistoriesStayMapped | src/mm-vm.c:605-644 | in histories of clean heap growths all pages of all heaps are mapped |
| SystemLimits.GrowthIsMapping | src/mm.c:254-307 | the operations of a growth are the frame loop and the mapping loop of the in-place code, with its failure |
| SystemLimits.MappedFrames | src/mm.c:254-307 | while RAM has enough free frames a growth maps its pages, from the first one on, to the first frames of the free list in order |
| SystemLimits.ReuseRangeIff | src/mm-vm.c:466-531 | the pages of a region can be reused exactly if there is a victim, and a swap frame for it unless all are present |
| SystemLimits.AllocExecutesIff | src/mm-vm.c:439-689 | a covered allocation executes without running out of swap exactly if its region can be reused, or its growth finds frames and swap frames for what it evicts |
| SystemLimits.CarryKeepsPending | src/mm.c:254-307 | every frame an instruction takes it gives to a page |
| Interleaving.TurnIsLegal | src/mm-vm.c:439-961 | whatever other processes do in between, the next operation of a process accesses a mapped page or installs an unmapped one for which there is a frame |
| Interleaving.OperationsLegal | src/mm-vm.c:439-961 | so in every reachable state of every interleaving |
| Interleaving.VariablesHoldInterleaved | src/cpu.c:53-137 | in every interleaving of the operations of any number of processes, a process between two instructions finds in its variables what it wrote to them last |
| Interleaving.ReadsHoldInterleaved | src/mm-vm.c:843-882 | and its reads that complete return it |
| Syscalls.ZeroRangeIsOps | src/mm-vm.c:723-724 | the zeroing loop on mapped pages performs the stores the model gives it, going on after failures |
| Syscalls.Pcb.AllocVariable | src/mm-vm.c:439-689 | allocation in place, with its search, growth, mapping and reuse loops, is the allocation of the model on address space and memory, for every way it can end |
| Syscalls.Pcb.FreeVariable | src/mm-vm.c:698-764 | freeing in place zeroes its bytes, failed writes included, and is the freeing of the model; -1 for a symbol that names nothing |
| Syscalls.Pcb.ReadVariable | src/mm-vm.c:843-882 | -1 outside the region and nothing changes, otherwise 0 and the read step with its byte |
| Syscalls.Pcb.WriteVariable | src/mm-vm.c:923-961 | -1 outside the region and nothing changes, otherwise 0 and the write step |
| Syscalls.Pcb.Execute | src/cpu.c:53-137 | a covered memory instruction does in place what it does in `System`, also if it is refused or runs out of swap, and a read that completes returns its variable's byte |
| MultilevelQueue.PickExistsIff | src/sched.c:60-75 | a process is handed out exactly if some queue is not empty |
| MultilevelQueue.HigherPrioritiesSpent | src/sched.c:61-67 | a dispatch at a priority means every non-empty higher one has spent its quota |
| MultilevelQueue.GetConserves | src/sched.c:54-78 | a dispatch removes exactly the process it returns |
| MultilevelQueue.PutConserves | src/sched.c:80-90 | queueing adds exactly the process queued |
| MultilevelQueue.EpochLength | src/sched.c:17-21 | an epoch has at most 140 + 139 + ... + 1 = 9870 dispatches |
| MultilevelQueue.BoundedWaiting | src/sched.c:54-90 | whatever is queued meanwhile, the process at position k of queue i is dispatched within the remaining slots plus one epoch per further quota needed |
| MultilevelQueue.BoundedWaitingOverall | src/sched.c:54-90 | that is within (ceil((k+1)/(140-i)) + 1) * 9870 dispatches |
| MultilevelQueue.QuotaPerEpoch | src/sched.c:17-70 | in an epoch no priority gets more than its quota, and one with a process waiting at the end gets exactly that |
| Scheduler.ReadyQueue.Enqueue | src/queue.c:10-24 | a process goes to the back if there is room, otherwise nothing changes and the failure is reported |
| Scheduler.ReadyQueue.Dequeue | src/queue.c:26-40 | the shifting loop removes the front and keeps the order of the others |
| Scheduler.ReadyQueue.IsEmpty | src/queue.c:5-8 | whether the queue has no process |
| Scheduler.Mlqs.constructor | src/sched.c:34-45 | all queues empty, all quotas full |
| Scheduler.Mlqs.InitSlots | src/sched.c:17-21 | all quotas renewed, queues untouched |
| Scheduler.Mlqs.SomeReady | src/sched.c:23-32 | whether some queue is not empty |
| Scheduler.Mlqs.GetProc | src/sched.c:54-78 | within two passes the loops compute the dispatch of the model |
| Scheduler.Mlqs.PutProc | src/sched.c:80-90 | the process is queued at its priority, or the full queue is reported |
| Barrier.BarrierSafety | src/timer.c:21-77 | in every interleaving no device starts a slot before every attached device has signalled the previous one, slots of attached devices differ by at most one, and each is released once per tick |
| Barrier.BarrierProgress | src/timer.c:21-59 | when no device can move the timer can, and it stops only when all devices have detached |
| OsProcesses.LockStep | src/os.c:59-113 | CPUs and loader are in step in every interleaving |
| OsProcesses.OnePlace | src/os.c:77-91 | every loaded process is in exactly one place: a ready queue, one CPU, or finished |
| OsProcesses.NoProcessLeftBehind | src/os.c:51-159 | in every interleaving, if all CPUs have stopped then every configured process was loaded and has finished |
| OsExecution.ScheduleIndependent | src/os.c:59-113 | for any number of CPUs and any interleaving each process executes its instructions once each in order, and is dispatched max(1, ceil(n / time slot)) times |
| OsLoading.LoadedOnTime | src/os.c:129-153 | in every interleaving process 0 arrives in its start slot and every other one in its own or one slot after the process before it, whichever is later |
| OsLoading.NothingOverdue | src/os.c:134-136 | while the loader runs, the next process is not overdue |
| OsPriorities.QueuesChangeByCalls | src/sched.c:80-90 | every thread changes the queues by scheduler calls only, and queues a process at its configured priority |
| OsPriorities.QueuedAtOwnPriority | src/sched.c:80-90 | in every interleaving a queued process is in the queue of its configured priority and in no other, however often it was put back |
| OsPriorities.ProcessWaitsBounded | src/sched.c:54-90 | in every interleaving a queued process of priority i is put on a CPU within (ceil(10/(140-i)) + 1) * 9870 scheduler requests, whatever the others do |
| OsCompletion.WorkMeaning | src/os.c:71-111 | the measure of the work left is zero exactly if all processes have finished |
| OsCompletion.CpuAdvances | src/os.c:59-113 | every step of a CPU reduces the work left, or keeps it and leaves some CPU that will reduce it in this slot |
| OsCompletion.TickBegins | src/timer.c:21-59 | in every slot that begins after the last arrival some CPU will work, or all processes are finished and counted and everybody stops in it |
| OsCompletion.DoneByDeadline | src/os.c:51-159 | in every interleaving, once all have arrived, two slots after the last arrival plus the work of all processes everything has finished and stopped |
| OsTermination.TimeIsBounded | src/os.c:51-159 | in every interleaving on any number of CPUs the time stays within latest start, number of processes, their instructions and dispatches of empty ones, and two slots |
| OsTermination.SomebodyMoves | src/timer.c:21-77 | until CPUs, loader and timer have stopped one of them can move, unless a process goes into a full queue |
| OsTermination.EndedIsComplete | src/os.c:51-159 | when they have stopped all processes were loaded and have finished |
| OsTermination.NeverIdleAgain | src/os.c:77-102 | after the loader has left, a CPU that has a process holds one at every barrier until it leaves |
| OsTermination.StepsAreBounded | src/os.c:51-159 | no interleaving goes on for ever: no thread takes more steps than a number that depends on the configuration alone |
| Programs.VariablesFollowProgram | src/cpu.c:53-137 | on any number of CPUs, in every interleaving of their operations and beside any other processes, a variable holds the byte that the executed part of its own program stored there last |
| Programs.ReadsFollowProgram | src/cpu.c:107-131 | every read of every process that completes returns the byte its own program stored there last |
| Programs.ReadsAgree | src/os.c:51-159 | two runs that differ in CPUs, time slice, interleaving, memory and other processes agree on every byte a process reads back |

## Left out

- Printing and dumping, configuration and program files: configurations and instruction lists are parameters.
- The obsolete segment memory manager in `src/mem.c` and `src/paging.c`, the FIFO replacement branch, sequential devices,
  `free_pcb_memph`, `init_pte` and the dirty bit: not part of the running configuration.
- Swap devices beyond the first: the pointer cast in `src/os.c:273` makes them unusable, so the swap type is 0.
- Memory read before it is written: page directories, symbol tables and list heads count as zeroed.
- Data races inside one operation: a fetch with its byte access, the reuse of one page, one iteration of the frame loop or
  of the mapping loop, a queue operation, a counter update and a flag access are one step each, although the locks of
  different source files do not exclude each other (`include/mm.h:177`), the byte access follows its fetch after the lock
  has been released (`src/mm-vm.c:427`), reuse holds no lock and the counter in `src/os.c:84` is not locked.
  Races.LateStoreIff says what the second of these does.
- Symbol number 30, which the range tests accept although the table has 30 entries (`src/mm-vm.c:261`).
- PagingRuns.Transparent: for the offset reading of swapped entries; what the compiled reading does instead is stated exactly by CompiledPaging.CompiledRunIff.
- PagingRuns.ListAgreesOverRuns: completeness of the list needs a run without an out-of-swap failure, which drops its victim from the list.
- PagingOrder.VictimIsLeastRecent: for runs without stale touches and without an out-of-swap failure; PagingOrder.ReusedPageMostRecentIff says when a stale touch matters.
- RegionSafety.AllocKeepsInv: for requests of two bytes or more that do not wrap and if let through do not collide, in address spaces of whole pages that fit the 22-bit bus, and growths that could be mapped.
- Instructions.OpsOnOwnPages: for accesses and reuses on mapped pages; UnmappedPages.UnmappedFetchIff says what happens otherwise, and Instructions.MappedCovers that clean growths lead to no others.
- System.VariablesHold: for instructions covered in that sense; a growth that runs out of swap space leaves its limit behind (RegionSafety.FailedGrowthRestoresIff) and is not followed further.
- PagingInvariant.GetPageKeeps: for mapped pages; UnmappedPages.UnmappedFetchIff is about the others.
- PagingInvariant.AccessKeeps: for mapped pages.
- PagingInvariant.ReuseKeeps: for mapped pages.
- AddressSpace.Mm.GetFreeRegion: for requests whose unsigned comparisons do not wrap; RegionScan.NextWrappingIff says what happens otherwise.
- Syscalls.Pcb.AllocVariable: for the same requests.
- Syscalls.Pcb.ReadVariable: for heap offsets up to the region's start; Instructions.HeapRangeTestIff says what happens otherwise.
- Syscalls.Pcb.WriteVariable: for the same offsets.
- Syscalls.Pcb.Execute: for the offset reading of swapped entries.
- Programs.ReadsFollowProgram: for bytes the program has written since it allocated them, with writes that got through; a region is not cleared when it is handed out, so other bytes are what the frame held before.
- MemoryUnit.Mmu.SetSwapped: the index of the swap device is always 0.
- MemoryUnit.Mmu.GetPage: the entry pointers in list nodes are process and page numbers, so a pointer into a freed page directory is not expressible.
- OsExecution.ScheduleIndependent: for time slots of at least 1.
- OsPriorities.ProcessWaitsBounded: counted in requests to the scheduler; OsTermination.TimeIsBounded bounds the slots.
- OsTermination.StepsAreBounded: the calls of `stop_timer` by the main thread are not counted.
- RegionService.RefusedIff: where the overlap test is right; RegionSafety.OverlapTestIff says when that is.
- OsProcesses.NoProcessLeftBehind: for at least one CPU; a run that puts a process into a full queue ends there, as the program does.

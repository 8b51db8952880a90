# Verification of the memory core of BloreOS

A Dafny 4.11 model of the stateful core of the BloreOS kernel, with proofs. `dafny verify dfyconfig.toml`
checks all of it.

| file | what it models |
|---|---|
| `Machine.dfy` | 64-bit words, `DIV_ROUNDUP`, `ALIGN_UP`, disjoint byte ranges |
| `Bitmap.dfy` | the packed bitmap |
| `NextFit.dfy` | the scan loop of `kalloc`, and the next-fit search it must be |
| `Pages.dfy`, `PageRuns.dfy`, `PageCounts.dfy` | the page allocator as a state: `kalloc`, `kfree`, single calls, whole runs, and the counter |
| `MemoryMap.dfy`, `Boot.dfy` | the bootloader's memory map, and what `kmem_init` makes of it |
| `PhysicalMemory.dfy` | the code of `mem.c`: class `Pmm`, from `_init_stats` to `kfree` |
| `Smp.dfy` | several CPUs in `kalloc` and `kfree`, one loop iteration or one write at a time |
| `AfterBoot.dfy` | boot joined to what follows: pages out of reach, later carve-outs, the CPUs; machines that show the departures |
| `ByteStore.dfy`, `SlobHeap.dfy`, `SlobMemory.dfy`, `Slob.dfy` | the SLOB heap: byte memory, layout, separation, code |
| `Queue.dfy`, `Keyboard.dfy` | the circular queue, and the keyboard interrupt protocol around it |
| `Numerals.dfy`, `Format.dfy` | the number printers and `vsnprintf` |
| `Memmove.dfy`, `Bump.dfy` | overlapping copy, and the bump allocator over `kpalloc` |

Classes and methods follow the code; each is proved against a function of the state before the call, and
the properties are lemmas about those functions, for single calls and for all runs.

## What is proved

* **Pages.** The scan is exactly next fit and complete across the wrap, within 2 * max bit tests. Bitmap and
  entry map agree after every run of safe requests and arbitrary frees; an unsafe request always breaks them,
  and after any run at all they agree but for pages below max that such requests have lost. `kfree(kalloc(n))` restores both tables exactly for the safe requests. Whatever the memory map, after
  any run and on any number of CPUs, `kalloc` returns only pages of usable entries that miss the bitmap and
  the entry map; over all runs it can return exactly the unreserved pages below max.
* **CPUs.** For every number of CPUs and every interleaving, the finished calls form a sequential run with the
  results that run gives, and each CPU's calls are all there as it made them; the lock admits one CPU; live
  blocks are disjoint; the holder always makes progress towards its release, unless it has halted, and a call
  made with the lock free gets in and gets done.
* **SLOB.** Free regions, callers' blocks and the blocks that hold list nodes partition the memory
  `slob_init` took over, byte by byte, over every run; no header, node or caller's write touches another's
  bytes, so what callers store stays and a free gives back exactly what was allocated; each free costs exactly
  32 bytes.
* **Keyboard.** For every interleaving of the kernel loop with interrupts, no read of an empty queue, no wait
  on a held lock, a key refused exactly when the buffer is full, and the values the loop reads are all the
  other keys, as pressed and in order, within bounded time.
* **Text.** Printing then reading a number is the identity in bases 2 to 36. `vsnprintf` prints, part by part,
  the characters of its format and for the k-th conversion the k-th argument, in the digits and the case the
  conversion calls for; whole exactly when every literal character lies before the last place of the buffer,
  and inside the buffer exactly when it fits or that last place holds a literal character.

## Where the code departs from its intent

Each is stated as it is, with an input that shows it or the exact condition, or both.

* `kalloc(0)`, and requests within a page of 2^64, wipe entry 0 when the page under the cursor is in use
  (`Pages.KallocKeepsInv`); the block at page 0 is then lost for good (`PageCounts.ZeroRequestLeaks`,
  `AfterBoot.LeakyMachineLeaks`).
* The entry of a block holds its length in 32 bits, so of a block of 2^32 pages or more what is behind the
  length modulo 2^32 is never freed (`PageCounts.LongBlockLeaks`, `AfterBoot.HugeMachineLeaks`).
* `kfree` never adds to `num_pages_available`, so the counter can run out while pages are free, and then
  wraps: on every machine with a free page below max (`AfterBoot.CounterWrapsAfterBoot`,
  `PageCounts.AvailableIsLowerBound`).
* The scan ends at `max_pages_available`, the number of usable pages, but holes and tables have bits too: as
  many free pages lie out of reach past it as taken ones lie below (`AfterBoot.FreePagesOutOfReach`).
* The bitmap has no bit for the last pages when the page count is 1 to 7 modulo 32768, and `_get_free_pages`
  clears one all the same exactly if an entry outlasts the tables and ends past the bitmap
  (`MemoryMap.BitmapCovers`, `Boot.BitmapFallsShortIff`, `MemoryMap.SmallestShortMap`).
* `memmap_alloc` after `kmem_init`, as `slob_init` calls it, takes pages the bitmap goes on calling free, so
  `kalloc` gives them away exactly if they lie below max (`AfterBoot.CarvedPageIsGrantedIff`); all other pages
  the bitmap calls free are SLOB's as well (`Slob.BothOwnTheSamePages`). It also lowers `max_pages_available`,
  which a cursor at or past the new value never meets, and past which `kfree` halts
  (`AfterBoot.LaterCarveShrinksScan`, `AfterBoot.ShrunkFreeHaltsIff`).
* `slob_init` does not set `_init`, so after the kernel's own call the first `slob_malloc` lays the heap out
  again and the first table is lost (`Slob.SlobAllocator.StartKernelHeap`).
* `slob_malloc` of a size within 8 of 2^64 cuts a block shorter than its header (`SlobHeap.WrappedRequestIsServed`,
  `SlobHeap.MallocKeepsInv`); `slob_free` needs 32 free bytes in one piece and does not check
  (`SlobHeap.FreeKeepsInv`, `SlobHeap.FreeCanFail`). Neighbouring free regions are not merged, whatever
  src/alloc/slob.c:20 says (`SlobHeap.NeighboursAreNotMerged`, `SlobHeap.PiecesNeverGrow`).
* `_handle_keyboard` ignores a refusal of `cqueue_write` (src/idt.c:124), so a key that finds the buffer full
  is lost (`Keyboard.RefusedIff`, `Keyboard.RefusedKeyIsDropped`).
* `cqueue_create` leaves the lock byte as it finds it (`Keyboard.GarbageLockStarves`, `Keyboard.KeysCanGetIn`).
* `vsnprintf` holds only literal characters to its bound: an argument that crosses the last place is written
  past the buffer (`Format.KeepsToSizeIff`, `Format.StringsIgnoreSize`).
* `bump_malloc` stores the spare bytes of a multi-page request as the offset, which is safe exactly from half
  a page on (`Bump.HalfPageIsExact`, `Bump.WholePagesOverrun`), ignores a failing `kpalloc`
  (`Bump.FailurePoisonsCursor`), and serves a size within a page of 2^64 with one page
  (`Bump.WrappedRequestIsServed`).

## Assumptions

Usable entries of the memory map are page aligned in base and length and pairwise disjoint, as the Memory Map
Feature of the Limine Boot Protocol promises; none starts at address 0, which src/mem.c:332 takes for "unset".
The higher-half direct map does not wrap around the address space.
Negating the least signed number is undefined in C, so the signed printers exclude it.

## Model

| member | source | states |
|---|---|---|
| Machine.DivRoundUpIsCeiling | src/include/math.h:23 | the result is the least number of pages that holds the bytes if and only if the addition does not wrap; otherwise it is 0 |
| Bitmap.TestAfterUpdate | src/include/bitmap.h:40-60 | setting or clearing a bit changes the test of that bit and of no other, in or out of its byte |
| Bitmap.BitsAfterUpdate | src/include/bitmap.h:50-60 | on the booleans the bytes stand for, on and off are single-element updates |
| Bitmap.BitmapTest | src/include/bitmap.h:40-47 | reads the element of the boolean sequence |
| Bitmap.BitmapOn | src/include/bitmap.h:50-53 | updates exactly one element of the boolean sequence to true |
| Bitmap.BitmapOff | src/include/bitmap.h:56-60 | updates exactly one element of the boolean sequence to false |
| NextFit.NextFitUnique | src/mem.c:361-369 | next fit determines its answer: least start at or after the cursor, else least start of all, else none |
| NextFit.IterateKeepsInv | src/mem.c:382-438 | one iteration keeps: no run starts in the part already passed over, and the current free stretch is what start and count say |
| NextFit.RunScanIsNextFit | src/mem.c:381-446 | the loop from any reachable scan state answers next fit for the cursor the search began at |
| NextFit.SearchResult | src/mem.c:374-446 | the whole search is next fit and complete below max, with the cursor just past the run or at 0, and tests exactly the bits from the cursor to the end of the run, through the wrap if it must, or two passes less the start; for 0 pages it finds page 0 exactly when the page under the cursor is taken |
| NextFit.RunScanTests | src/mem.c:381-438 | from any scan state the bits still tested and those tested so far add up to that number |
| NextFit.ScanPastIsLeastRun | src/mem.c:381-432 | begun at or past max, the same loop ends at the least run from the cursor on, outside the scan region, and reads past the bitmap if and only if there is none |
| Pages.PageAddressRoundTrip | src/mem.c:344-352 | page to address and back is the identity if and only if the byte offset is below 2^64 |
| Pages.PageOfAddress | src/mem.c:349-352 | an address at an offset from a page's start gives that page if and only if the offset is inside it |
| Pages.ReserveKeepsInv | src/mem.c:411-416 | reserving a free run below max keeps bitmap and entry map in agreement |
| Pages.KfreeKeepsInv | src/mem.c:482-502 | kfree at any in-range page keeps them in agreement, whether or not a block starts there |
| Pages.KallocKeepsInv | src/mem.c:370-446 | kalloc keeps them in agreement if and only if the request is safe: not 0 pages over a used entry 0 with the cursor on a taken page, and not 2^32 pages or more when such a run is free |
| PageRuns.KallocIsNextFit | src/mem.c:370-446 | for every request: kalloc returns the next-fit block of pages that were free, unreserved and in no block, and changes exactly its bits and its entry; or returns 0, changes no table, and no run exists below max; for 0 pages it returns page 0 or 0 by the bit under the cursor |
| PageRuns.FreeUndoesAlloc | src/mem.c:482-502 | kfree of what kalloc returned does not halt, and restores bitmap and entry map exactly if and only if the request was safe |
| PageRuns.KfreeExactly | src/mem.c:482-502 | at every pointer kfree halts exactly past max; otherwise it clears the bits of the block the entry names and the entry, and nothing else |
| PageRuns.StrayFreeDoesNothing | src/mem.c:493-499 | kfree at an in-range page changes nothing if and only if no block starts there |
| PageRuns.InteriorPageStartsNoBlock | src/mem.c:494-499 | no inner page of a block is the start of one |
| PageRuns.OrdinaryRequestIsSafe | src/mem.c:374 | requests of at least a byte that do not wrap are safe when the scan region is below 2^32 pages |
| PageRuns.RunKeepsInv | src/mem.c:370-502 | after every run of safe kallocs and arbitrary kfrees, bitmap and entry map agree, blocks are disjoint and below max, the cursor is in range |
| PageRuns.UnsafeRequestBreaksInv | src/mem.c:402-418 | after such a run one more kalloc keeps the agreement if and only if it is safe |
| PageRuns.ZeroRequestReserves | src/mem.c:402-418 | after an unsafe kalloc(0) the block at page 0 has become reserved pages and all else agrees |
| PageRuns.LongRequestReserves | src/mem.c:411-414 | after a kalloc of 2^32 pages or more the pages behind the recorded 32 bits of its length have become reserved and all else agrees |
| PageRuns.AnyRunKeepsInv | src/mem.c:370-502 | after any run, whatever is asked for and freed, bitmap and entry map agree but for pages below max that have become reserved |
| PageRuns.RunThenKalloc | src/mem.c:370-446 | after any run kalloc of any size gives out only pages below max that were not reserved when the run began |
| PageRuns.BitsPastMaxStay | src/mem.c:424-426 | no run changes a bit at or past max |
| PageRuns.EveryFreePageIsGranted | src/mem.c:381-446 | from every reachable state some number of one-page requests leads to one that returns any given page free below max |
| PageRuns.GivenPages | src/mem.c:370-502 | over all runs and requests kalloc can return a page if and only if it lies below max and is not reserved |
| PageCounts.RunConservesPages | src/mem.c:411-499 | over any run, clear bits equal num_pages_available plus pages released minus 2^64 for each time the counter wrapped |
| PageCounts.AvailableIsLowerBound | src/mem.c:416 | num_pages_available is a lower bound on free pages in every state of any run if and only if no granted request exceeds it; at its end if and only if its wraps are covered by the pages released |
| PageCounts.GrantKeepsLowerBound | src/mem.c:416 | one granted request keeps the bound if and only if it does not exceed the counter |
| PageCounts.AvailableCanWrap | src/mem.c:482-502 | wherever a page below max is free, taking and freeing a page once more often than the counter says leaves the tables as they were and the counter at 2^64 - 1 |
| PageCounts.ZeroRequestLeaks | src/mem.c:402-418 | after an unsafe kalloc(0) the pages of the block at page 0 stay marked over every run |
| PageCounts.LongBlockLeaks | src/mem.c:414 | the pages of a block behind the recorded 32 bits of its length stay marked over every run |
| MemoryMap.TakenIsApart | src/mem.c:226-237 | what is carved off lies apart from all usable entries left, and so does whatever did before |
| MemoryMap.TakenFrom | src/mem.c:218-237 | what is carved off is the front of the first usable entry with room, and no other entry changes |
| MemoryMap.PagesAfterTake | src/mem.c:233-235 | carving lowers the usable page total by exactly the pages carved |
| MemoryMap.TakeSplitsPages | src/mem.c:226-237 | every usable page is either carved off or still usable, and no other page is either |
| MemoryMap.FreeUpClears | src/mem.c:199-207 | the bits cleared are exactly those of pages wholly inside usable entries |
| MemoryMap.FreeUpCounts | src/mem.c:204-207 | they number exactly the pages of the usable entries |
| MemoryMap.TotalPagesBound | src/mem.c:327-341 | disjoint entries hold no more pages than their span, so max_pages_available never exceeds num_pages_in_map |
| MemoryMap.ExtentIsTight | src/mem.c:321-338 | lowest and highest address are the least base and greatest end of the usable entries, both reached |
| MemoryMap.BitmapCovers | src/mem.c:280 | the bitmap has a bit for every page if and only if the page count is not 1 to 7 modulo 32768 |
| MemoryMap.TablesAreTight | src/mem.c:280 | bitmap and entry map take the fewest pages that hold a byte for every eight pages and four for every page |
| MemoryMap.BitmapFallsShort | src/mem.c:190-207 | otherwise, when the highest entry is larger than both tables, the last page is usable in the map that _get_free_pages walks and has no bit |
| MemoryMap.SmallestShortMap | src/mem.c:280 | a map of 32769 pages whose bitmap has 32768 bits while page 32768 is usable |
| MemoryMap.NoBitmapNoEntryMap | src/mem.c:472 | without room for the bitmap there is none for the entry map, so memmap_alloc halts before the missing bitmap is used |
| Boot.TrimmedPages | src/mem.c:226-307 | the usable page total after boot is the original one less the pages of both metadata blocks |
| Boot.BootedBitmap | src/mem.c:458-477 | after kmem_init a bit is clear if and only if its page lies in a usable entry as trimmed; clear bits, num_pages_available and max_pages_available are equal |
| Boot.BootEstablishesInv | src/mem.c:458-477 | the allocator's invariant holds after kmem_init if and only if a page is left over |
| Boot.BitmapFallsShortIff | src/mem.c:199-207 | _get_free_pages needs a bit outside the bitmap if and only if a usable entry of the original map outlasts both tables and ends past it; only for page counts of 1 to 7 modulo 32768 |
| Boot.MetadataApart | src/mem.c:286-310 | bitmap and entry map lie in no usable entry of the trimmed map and miss each other |
| Boot.TablesAtFirstFit | src/mem.c:286-310 | the bitmap is at the front of the first entry with room for it, the entry map at the front of what is left of the first entry that then has room |
| Boot.AllocationsAreUsableMemory | src/mem.c:175-477 | after boot and any run, every page kalloc returns, for a request of any size, lies in a usable entry of the original map and misses bitmap and entry map |
| AfterBoot.FreePagesOutOfReach | src/mem.c:424-426 | after boot as many free pages lie at or past max as taken pages lie below it; there are some if and only if there are any |
| AfterBoot.OutOfReachForEver | src/mem.c:424-426 | over every run their bits stay as boot left them |
| AfterBoot.LaterCarveStaysFree | src/mem.c:215-244 | the pages still marked free after a later memmap_alloc are exactly those it took and those of the map it left |
| AfterBoot.LaterCarveShrinksScan | src/mem.c:235 | it lowers max, and the scan stays in bounds if and only if the cursor is below the new max; if not, kalloc finds the least run at or past the cursor or reads past the bitmap |
| AfterBoot.ShrunkKeepsInvIff | src/mem.c:235 | bitmap and entry map agree after it if and only if the cursor and every block lie below the new max |
| AfterBoot.ShrunkFreeHaltsIff | src/mem.c:488-491 | kfree of a block then halts if and only if the block starts at or past the new max |
| AfterBoot.CarvedPageIsGranted | src/mem.c:233-235 | after boot and that memmap_alloc, some number of one-page requests leads kalloc to return any carved page below the new max |
| AfterBoot.CarvedPageIsGrantedIff | src/mem.c:233-235 | some run leads kalloc to return a carved page if and only if it lies below the new max; of all pages, exactly those below it that boot left free |
| AfterBoot.CounterWrapsAfterBoot | src/mem.c:416 | on every machine with a page free below max after boot, as many cycles of kalloc(1) and kfree as there are pages and one more leave the counter at 2^64 - 1, above the free pages |
| AfterBoot.ZeroRequestLeaksAfterBoot | src/mem.c:402-418 | on every machine with page 0 free and page 1 taken after boot, kalloc(1), kalloc(0) leave page 0 marked over every run, with no entry for it |
| AfterBoot.SmallMachineCounterWraps | src/mem.c:482-502 | on a machine of eight pages fourteen calls wrap the counter with six pages free |
| AfterBoot.SmallMachineGivesTableAway | src/alloc/slob.c:56 | on the same machine kalloc returns the page slob_init took for its table |
| AfterBoot.LeakyMachineLeaks | src/mem.c:402-418 | a machine of 65536 pages on which kalloc(1), kalloc(0) lose page 0 |
| AfterBoot.HugeMachineLeaks | src/mem.c:414 | a machine of 2^33 pages on which kalloc of 2^32 pages is granted, recorded as none, and never freed |
| AfterBoot.EveryPointerIsGood | src/mem.c:370-446 | after boot, in every interleaving of any number of CPUs, what kalloc returned addresses only pages of usable entries that miss both tables |
| PhysicalMemory.Pmm.InitStats | src/mem.c:313-342 | the loop computes the extent, the page count and the usable page total, without wrapping |
| PhysicalMemory.Pmm.TakeFirstFit | src/mem.c:288-309 | carves from the first usable entry with room and keeps max_pages_available equal to the usable page total; or changes nothing |
| PhysicalMemory.Pmm.CreatePageBitmap | src/mem.c:276-311 | places a bitmap of ones in the first fit; without one the pointer stays as it was |
| PhysicalMemory.Pmm.MemmapAlloc | src/mem.c:215-244 | the same for a length rounded up to pages; None is the halt |
| PhysicalMemory.Pmm.GetFreePages | src/mem.c:175-209 | clears the bits of all usable entries and counts them |
| PhysicalMemory.Pmm.KmemInit | src/mem.c:458-477 | leaves the trimmed map and the booted state, and halts exactly when one of the tables has no room; for every map whose bitmap suffices |
| PhysicalMemory.Pmm.ReservePages | src/mem.c:354-359 | marks exactly the named pages |
| PhysicalMemory.Pmm.FindPages | src/mem.c:381-438 | the scan loop in place changes only the cursor and gives the answer of the search |
| PhysicalMemory.Pmm.KAlloc | src/mem.c:370-446 | bitmap bytes, entry map, cursor, counter and pointer are those of the specified kalloc, for every request |
| PhysicalMemory.Pmm.KPAlloc | src/mem.c:451-453 | kalloc of the page count times the page size, wrapping |
| PhysicalMemory.Pmm.KFree | src/mem.c:482-502 | bitmap bytes and entry map are those of the specified kfree; out of range it halts with the lock held |
| Smp.StepInsideKeepsInv | src/mem.c:381-502 | each statement inside the lock carries on the call that was begun when the lock was taken |
| Smp.RunIsSequential | src/include/atomic.h:27-37 | in every reachable state of every interleaving, whatever is called, at most one CPU is inside the lock, and the finished calls are a sequential run with its memory and its results |
| Smp.InvWhenUnlocked | src/mem.c:370-502 | whenever the lock is free and the finished requests were safe, as ordinary ones are, bitmap and entry map agree |
| Smp.LiveBlockIsRecorded | src/mem.c:413-494 | in a log of ordinary requests a block no later call freed is still in the entry map with the length asked for |
| Smp.LiveBlockIsOwned | src/mem.c:370-502 | over any log the pages of a block no later call freed are marked and covered by no entry but their own |
| Smp.LiveBlocksAreDisjoint | src/mem.c:370-502 | in every reachable state, whatever the CPUs ask for and free, live blocks lie below max and those with a page are pairwise disjoint |
| Smp.HolderAdvances | src/include/atomic.h:27-37 | other CPUs do not touch the holder's memory or lock, and each step of the holder brings its release closer unless it halts |
| Smp.CallCompletes | src/include/atomic.h:27-37 | from any state with the lock free, an idle CPU's call, left alone, ends with exactly the memory and the result of the sequential call, logged as it was made, and nothing else changed; or halted with the lock held exactly when kfree halts |
| Smp.EveryCallIsLogged | src/mem.c:370-502 | in every interleaving the calls a CPU has begun are, in order, those the log has of it and the one it is in |
| ByteStore.LoadAfterStore | src/alloc/slob.c:98 | a stored 64-bit word reads back, at any alignment |
| ByteStore.Write64 | src/alloc/slob.c:97-105 | writes the eight bytes of the word and no others |
| SlobHeap.MallocKeepsInv | src/alloc/slob.c:82-115 | slob_malloc keeps the partition if and only if the size does not wrap with its header, or every region is shorter than what it wraps to |
| SlobHeap.WrappedRequestIsServed | src/alloc/slob.c:92-98 | a request of 2^64 - 1 bytes is served with a block of 7 |
| SlobHeap.MallocIsFirstFit | src/alloc/slob.c:89-115 | it splits the first node with room for the sum of size and header as it wraps, from the front; it fails only if no single node has room |
| SlobHeap.FreeKeepsInv | src/alloc/slob.c:124-139 | slob_free keeps the partition, and has room for its node if and only if some free region has 32 bytes |
| SlobHeap.FreeGivesBack | src/alloc/slob.c:124-139 | the freed block, header included, is the first region of the list, the rest is what slob_malloc of a node left, and no other block changes |
| SlobHeap.FreeCanFail | src/alloc/slob.c:132-138 | from every reachable heap some number of mallocs leads to one in which a block that was live all along cannot be freed |
| SlobHeap.PiecesNeverGrow | src/alloc/slob.c:116-123 | over any run no free region becomes longer than the longest piece at its start, so a larger request fails whatever was freed |
| SlobHeap.NeighboursAreNotMerged | src/alloc/slob.c:18-21 | two adjacent blocks, both freed, stay two regions, and a request that only both together could serve fails |
| SlobHeap.RunKeepsInv | src/alloc/slob.c:82-139 | the partition holds after every run of mallocs of safe sizes and frees of live blocks |
| SlobHeap.LiveBlockKeepsItsLength | src/alloc/slob.c:129-134 | a block a run does not free keeps its recorded length, so its free gives back what was allocated |
| SlobHeap.EachByteHasOneOwner | src/alloc/slob.c:42-139 | after every such run a byte slob_init took over lies in exactly one free region or exactly one block; no other byte lies in any |
| SlobHeap.RunAccounts | src/alloc/slob.c:82-139 | over a run free bytes, callers' bytes and 32 per free add up to a constant, and the list grows by one node per free |
| SlobMemory.PrivateWrite | src/alloc/slob.c:97-105 | a write that meets no node and no header leaves list and headers as they are |
| SlobMemory.FreeRegionIsPrivate | src/alloc/slob.c:92-105 | a free region meets no node and no header, though nodes live in blocks cut from such regions |
| SlobMemory.PayloadIsPrivate | src/alloc/slob.c:100-107 | neither does what a caller may use of its block |
| SlobMemory.SplitIsSound | src/alloc/slob.c:92-107 | after the header write and the node update memory stores the split heap |
| SlobMemory.RelistIsSound | src/alloc/slob.c:129-138 | after the node of a freed block is written into its cell memory stores the relisted heap |
| SlobMemory.SplitKeepsBlocks | src/alloc/slob.c:97-105 | the writes of slob_malloc change no byte of a block a caller holds |
| SlobMemory.RelistKeepsBlocks | src/alloc/slob.c:132-138 | nor does the node slob_free writes, but in its own cell |
| SlobMemory.ListIsAcyclic | src/alloc/slob.c:89-111 | following the stored next pointers visits each node once and ends at 0 |
| Slob.SlobAllocator.SlobInit | src/alloc/slob.c:42-76 | lays out one node per usable entry in a table carved from the map; the heap is sound, its free regions are the trimmed map, and the map is again one that can be laid out |
| Slob.NodesFollowMap | src/alloc/slob.c:61-75 | there is one node for each usable entry, with its base and length, in the order of the map |
| Slob.TableIsTight | src/alloc/slob.c:56 | the table takes the fewest pages that hold 24 bytes for each usable entry |
| Slob.SlobAllocator.BootMemory | src/kernel.c:79-80 | kmem_init then slob_init: a heap with no blocks over the map left, its table carved from the trimmed map, and the page allocator as booted with the table's pages off max but still free in its bitmap |
| Slob.SlobAllocator.StartKernelHeap | src/alloc/slob.c:84-87 | slob_init then the first slob_malloc: the map is cut twice, the heap is laid out by the second and serves the request, and the first table meets neither the second nor any region |
| Slob.BothOwnTheSamePages | src/kernel.c:79-80 | after both the bitmap calls a page free if and only if it belongs to the heap's table or to one of its regions |
| Slob.SlobAllocator.Allocate | src/alloc/slob.c:89-115 | the search through memory leaves the specified heap and returns 0 or the address behind the header of a live block of the size asked for, which can be written and freed; no caller's block changes |
| Slob.SlobAllocator.SlobMalloc | src/alloc/slob.c:82-115 | the first call lays out the heap, later ones do not; then as Allocate |
| Slob.SlobAllocator.SlobFree | src/alloc/slob.c:124-139 | reads the size back from the header and leaves the specified heap and every caller's block; fails, with the heap as it was, exactly when the node has no room |
| Slob.SlobAllocator.ClientWrite | src/alloc/slob.c:100-107 | whatever a caller stores in its block changes that byte and leaves the heap sound |
| Slob.SlobAllocator.UseBlock | src/alloc/slob.c:82-139 | what slob_malloc returned is written into and freed: the heap is sound throughout, the block is the first free region again, and no other caller's block has changed |
| Queue.WriteIndexIsMod | src/lib/queue.c:64-70 | between operations the write index is (read index + items) mod length |
| Queue.RingIsFifo | src/lib/queue.c:53-107 | for every length and every sequence of writes and reads, contents and values read are those of a bounded first-in-first-out sequence |
| Queue.CQueue.constructor | src/lib/queue.c:32-46 | the new queue is empty and its lock is whatever the memory held |
| Queue.CQueue.Write | src/lib/queue.c:53-77 | appends to the contents, or refuses and changes nothing exactly when full |
| Queue.CQueue.Read | src/lib/queue.c:83-107 | removes and returns the oldest; halts with the lock held exactly when empty |
| Keyboard.ExecKeepsInv | src/kernel.c:113-127 | every statement of loop and handler keeps the invariant of the interrupted or running queue operation |
| Keyboard.ProtocolIsSafe | src/idt.c:120-127 | in every interleaving the read never meets an empty queue, nobody meets a held lock, and the values read are a prefix of those accepted |
| Keyboard.NothingIsLost | src/lib/queue.c:53-107 | with interrupts on, accepted keys are the values read followed by the queue |
| Keyboard.KeyIsTaken | src/idt.c:120-127 | from every reachable state with interrupts on, a key that finds a place is the last accepted and the last of the queue 8 statements later, and one that finds none has changed nothing 4 statements later |
| Keyboard.AcceptedAreAdmitted | src/idt.c:120-127 | over every interleaving, between handlers, the accepted keys are in order those raised with interrupts on less those that met a full buffer |
| Keyboard.EveryAdmittedKeyIsRead | src/kernel.c:113-127 | when the keyboard has been quiet for long enough the loop has read exactly those keys |
| Keyboard.RefusedIff | src/lib/queue.c:53-62 | in every interleaving a key is refused if and only if the accepted keys not yet read fill the buffer |
| Keyboard.RefusedKeyIsDropped | src/idt.c:120-127 | a refused key leaves no trace but the lock released |
| Keyboard.QuietKeyboardDrains | src/kernel.c:113-127 | from any reachable state, without further keys, everything accepted is read within 16 statements per item and 37 more |
| Keyboard.GarbageLockStarves | src/lib/queue.c:38-44 | with a nonzero lock byte nothing is ever accepted |
| Keyboard.KeysCanGetIn | src/lib/queue.c:38-70 | some schedule accepts a key if and only if the lock byte starts clear and the buffer has a place |
| Numerals.Reverse | src/lib/str.c:25-40 | reverses the given stretch in place and nothing else |
| Numerals.SignedRoundTrip | src/lib/str.c:43-82 | reading back what itoa or ltoa prints gives the number |
| Numerals.UnsignedRoundTrip | src/lib/str.c:85-143 | reading back what __ultoa or __ultoua prints gives the number |
| Numerals.HexIsSixteenDigits | src/lib/str.c:97-102 | base 16 prints exactly 16 digits |
| Numerals.NoLeadingZero | src/lib/str.c:62-73 | otherwise no nonzero number starts with a zero, after the sign if there is one |
| Numerals.UnsignedCharacters | src/lib/str.c:85-143 | __ultoa prints digits of the base with lower-case letters only, __ultoua with upper-case letters only |
| Numerals.SignedCharacters | src/lib/str.c:43-82 | a sign exactly for the negative numbers, then digits of the base with lower-case letters only |
| Numerals.TextOfZero | src/lib/str.c:52-56 | 0 is one zero, or sixteen of them in base 16 without a sign |
| Numerals.Itoa | src/lib/str.c:43-82 | writes the signed text and a NUL at the offset, nothing else, and returns its length |
| Numerals.Ltoa | src/lib/str.c:146-185 | the same for 64 bits |
| Numerals.Ultoa | src/lib/str.c:85-143 | the same for the unsigned text in either case |
| Format.ExpansionMeans | src/lib/str.c:203-244 | for every format and arguments accepted, the expansion is part by part the format's characters and, for the k-th conversion, the k-th argument: decimal or sixteen hexadecimal digits that read back as it, in the case asked for, the string or the character |
| Format.WellTypedIff | src/lib/str.c:203-233 | the arguments accepted are exactly those with one of the right type for each conversion, in order |
| Format.OneConversion | src/lib/str.c:208-233 | each conversion alone prints its argument so |
| Format.CompleteIff | src/lib/str.c:235-244 | the output is the whole expansion if and only if every literal character lies before the last place of the buffer |
| Format.RenderIsPrefix | src/lib/str.c:203-245 | the output is always a prefix of the expansion |
| Format.ShortExpansionIsComplete | src/lib/str.c:198-257 | an expansion shorter than the buffer comes out whole |
| Format.LiteralFormat | src/lib/str.c:235-244 | a format without directives is cut to size - 1 characters |
| Format.EndsBeforeIff | src/lib/str.c:203-244 | the output ends before a place at or behind size if and only if the expansion does or a literal character lies from place size - 1 on before it |
| Format.KeepsToSizeIff | src/lib/str.c:235-244 | the output stays inside size if and only if the expansion does or its place size - 1 holds a literal character |
| Format.StringsIgnoreSize | src/lib/str.c:217-221 | a string argument is printed whole whatever the size, so it stays inside if and only if it is shorter |
| Format.Vsnprintf | src/lib/str.c:198-257 | for all calls that keep to the memory at the buffer, those of Format.EndsBeforeIff, the buffer holds the output and its NUL, the result is its length, and what lies behind is untouched |
| Format.PrintLine | src/lib/str.c:299-306 | with a buffer of exactly 256 the line is the output, shorter than 256, and the whole expansion if shorter than 255 |
| Memmove.MoveBytes | src/mem.c:121-142 | the destination gets the old source bytes for every overlap, and every other byte stays |
| Memmove.MoveBack | src/mem.c:121-142 | moving there and back restores the source |
| Memmove.ForwardMoves | src/mem.c:126-132 | the forward loop alone moves towards lower addresses and without overlap |
| Memmove.ForwardSmears | src/mem.c:133-139 | towards higher addresses it would repeat the bytes before the destination |
| Bump.ServeKeepsSound | src/alloc/bump.c:38-76 | a sensible request leaves blocks disjoint and inside granted pages, and no belief in space that is not there |
| Bump.HalfPageIsExact | src/alloc/bump.c:50-53 | after a multi-page request every next small one is served from granted memory if and only if half a page was spare |
| Bump.WholePagesOverrun | src/alloc/bump.c:50-53 | after a request of exactly two pages the next 16 bytes lie behind the grant |
| Bump.SmallRequestsFillPage | src/alloc/bump.c:58-75 | for requests of at most a page what bump_malloc believes is left of its page is what is left, and it asks for another if and only if the request does not fit |
| Bump.SmallRunFillsPages | src/alloc/bump.c:58-75 | so over every run of such requests |
| Bump.RunIsSound | src/alloc/bump.c:38-76 | over every run of sensible requests all blocks are disjoint and inside granted pages |
| Bump.FailurePoisonsCursor | src/alloc/bump.c:45-75 | after a failed kpalloc in any arena the next request gets the failed size for its address if and only if it fits behind it in a page, or for several pages in all but the spare bytes of one, or after a wrapped size in a page |
| Bump.WrappedRequestIsServed | src/alloc/bump.c:41-75 | a block fits the pages asked for if and only if its size is not within a page of 2^64; such a size is served with one page |
| Bump.KpallocIsFresh | src/mem.c:451-453 | what a successful kpalloc returns meets no run of pages granted before |
| Bump.BumpAllocator.BumpMalloc | src/alloc/bump.c:38-76 | over the page allocator, for every size, whenever kpalloc did not fail: the block is new and the arena as specified, and after a sensible request sound; a size that wraps gets one page |

## Left out

- Several CPUs in the queue: `num_items` is changed outside the lock (src/lib/queue.c:74), so the queue is modelled under the single-CPU interrupt discipline the kernel uses.
- Smp.LiveBlockIsRecorded: the CPUs make ordinary requests (at least a byte, no wrap in the rounding, fewer than 2^32 pages); after others an entry can be wiped or short, and what then still holds of every block is `Smp.LiveBlockIsOwned`.
- PhysicalMemory.Pmm.KmemInit: maps whose bitmap does not suffice are excluded, because `_get_free_pages` then writes outside it; which they are is `Boot.BitmapFallsShortIff`.
- PhysicalMemory.Pmm.KFree: the block it clears must lie inside the bitmap, which the invariant gives for every block.
- SLOB and the page allocator at work together: after boot both own the same pages (`Slob.BothOwnTheSamePages`), so from there on each is proved on its own.
- PhysicalMemory.Pmm.CreatePageBitmap: the bytes of the bitmap and of the entry map are arrays of their own with a base address, not bytes of a common physical memory.
- Slob.SlobAllocator.SlobMalloc: a size within 8 of 2^64 that some region has room for is excluded, because the header then overwrites memory outside its block, and so is every such size on the first call; the layout after such a call is `SlobHeap.Malloc`.
- Slob.SlobAllocator.Allocate: the same sizes; those that no region has room for are served by returning 0.
- SlobHeap.RunKeepsInv: sizes that are not safe, because the partition is then broken for certain (`SlobHeap.MallocKeepsInv`).
- Slob.SlobAllocator.SlobInit: the count of entries is a 32-bit int, so maps of 2^31 entries or more are excluded.
- Format.Vsnprintf: a format that ends in a bare '%' and arguments of the wrong type are excluded, because their behaviour is undefined in C; a size of 0, because `size - 1` wraps (src/lib/str.c:237) and the NUL goes in front of the buffer; and calls whose output leaves the memory at the buffer, whose exact condition is `Format.EndsBeforeIff`.
- Numerals.Reverse: a length of 0 is excluded, because the end index then wraps to 2^64 - 1.
- Bump.BumpAllocator.BumpMalloc: after multi-page requests with less than half a page spare the arena is as specified but no more is promised, and what they lead to is `Bump.HalfPageIsExact`; after a size that wraps, `Bump.WrappedRequestIsServed`.
- `total_memory_bytes`, `_create_entry_map`, `memcpy`, `memset` of metadata, `memcmp` and the dump functions: printing only, unused, or plain loops.
- `strlen`, `strcmp` and the binary printers: no property beyond their loops.
- Serial, timers, APICs, descriptor tables, ACPI, PCI, NVMe, paging and the terminal: register access, firmware tables and user interface.

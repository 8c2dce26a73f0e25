# AIMv6 memory, lock and library core, modelled in Dafny

This project models the parts of the AIMv6 kernel whose correctness spans several
functions or many steps, and proves what they promise for all inputs, all runs and all
interleavings.

- **Memory.** The first-fit page allocator (`PageAllocator`, over `Extents` and `FreeList`)
  refines a set of free pages and its list is a canonical form of that set. The MIPS32 page
  table (`MipsPageTable`) refines a flat map and conserves pages. User address spaces
  (`UserMemory`) sit on both, and any number of them share one allocator (`Coexistence`). `Kmalloc`
  tiles what it draws from the page allocator. `Slab` keeps objects apart, over the bit scans
  of `Bitmap`. The ARM page table (`ArmPageTable`) mixes sections and pages.
- **Concurrency.** `MipsLock`, `ArmLock` and `X86Lock` (file `Spinlocks.dfy`) and `Semaphore`
  execute one machine instruction per step, for any number of CPUs and any schedule.
- **Rings and fast forms.** `ListRing` works on heap nodes; `Snprintf`, `Memcpy` and
  `DeviceIndex` are tied to simple reference forms.

Code that changes state is modelled by classes and methods with loops. Each method is proved
equal to a specification function or relation on values; the lemmas are about those.

Where the code does not do what its names or comments suggest, the model follows the code and
the exact condition is proved:

- `__alloc` of the page allocator returns 0 both for success and for a request larger than
  the free memory (lines 50 and 52 of kern/mm/pmm/ff.c; `ReturnCodeHonest`). Its callers
  test the return code, so out of memory they go on:
  - `pgalloc` returns whatever its uninitialised descriptor held. `map_pages` then clears a
    page there and uses it as a leaf table. The stale address is a parameter, and the call
    keeps its specification exactly when the tables it needs before the first conflict are
    affordable, or the stale address happens to be -1, the error value (`MapPages`,
    `StaleBreaks`). `init_pgindex` likewise returns a directory it does not own.
  - `create_uvm` maps page 0, which it never got, and returns success; destroying the range
    puts page 0 on the free list (`TwoPagesOfThree`, `BrokeCycle`). It creates the range on
    pages of its own exactly when the range is unmapped, `PAGE_SIZE` times its pages and
    missing leaf tables fit in the free memory, and there are descriptors. `CreateEnd` gives
    the result in every case (`CreateUvm`), and so says which calls of a run over many
    address spaces end well (`Lifetimes`).
  - The slab cache makes a slab at address 0 (`AllocStepIff`), and kmalloc a block there
    (`KmallocIff`).
- `unmap_pages` on MIPS clears one page per call, because line 361 of
  kern/arch/mips/pgtable.c compares an entry with its flag bits to a bare address
  (`UnmapUndoesMapIff`, `RunUnmapsOnePage`).
- The rollback at line 207 of kern/mm/uvm.c starts at the area before the new ones. A failed
  `create_uvm` leaves the state unchanged exactly when it failed at its first page
  (`Misrolled`, `AddressSpace.CreateUvm`).
- Lines 116-117 and 234 of kern/mm/uvm.c read the list head as if it were an area. Those reads
  are an arbitrary parameter (`Sentry`); success never overlaps an area whatever they yield,
  and `OverlapTestIff` and `DestroyUvm` say exactly when they mislead.
- kmalloc asks for pages without counting the header, and its arithmetic wraps for sizes close
  to 2^32 (`KmallocIff`, `OversizeIff`).
- The comment at lines 147-152 of kern/mm/vmm/flff.c is false: a release can leave a free block
  whose header, and with it a list link, reaches into a page that was returned
  (`SliceWithoutHeader`). Whoever gets that page then overwrites the link. So an untidy
  release ends all that is promised. `SlicesCapableIff` and `KfreeIff` give the exact
  condition, `UntidySpills` says where the header goes, and the results on runs are for runs
  whose releases are all tidy (`RunTiles`, `RunKeepsSize`, `KsizeCovers`).
- `ffz` applied to a byte sees the bits above it (`IntWideScanIff`). The slab results are for
  the byte-wide scan.
- Slab objects are placed at multiples of the object size, not of the aligned size
  (`ObjectsAlignedIff`). The slab size wraps for objects from 2^27 bytes on
  (`CreateSizedIff`).
- A semaphore whose limit is `INT_MAX` can wrap around (`InRangeIff`).
- A width in `vsnprintf` cuts numbers off instead of being a minimum, and the test at line 113
  is always true, so numbers are never padded with blanks (`WidthKeepsLowDigits`).

The ARM walk is that of section B3.5.1 and the exclusive monitors are those of section A3.4 of
the ARMv7-A Architecture Reference Manual (DDI 0406C). Copying of disjoint objects is that of
section 7.24.2.1 of C11.

`dafny verify dfyconfig.toml` checks the whole project.

## Model

| member | source | states |
|---|---|---|
| `Extents.RunInsideOne` | kern/mm/pmm/ff.c:54-78 | a contiguous run of free bytes lies inside a single block when neighbouring blocks never touch |
| `Extents.Canonical` | kern/mm/pmm/ff.c:98-125 | two lists of nonempty blocks with strict gaps that cover the same bytes are equal |
| `Extents.TotalCountsBytes` | kern/mm/pmm/ff.c:44-131 | the sizes of an ordered list add up to the number of bytes covered |
| `FreeList.SearchFit` | kern/mm/pmm/ff.c:54-60 | the search loop stops at the first block that is large enough, or at the end |
| `FreeList.SearchPlace` | kern/mm/pmm/ff.c:98-102 | the insertion loop stops at the first block not below the range |
| `FreeList.InsertMerged` | kern/mm/pmm/ff.c:98-125 | inserting and merging both ways computes `Release` |
| `FreeList.ReleaseSeparates` | kern/mm/pmm/ff.c:98-125 | releasing a disjoint range into a list with strict gaps leaves strict gaps |
| `FreeList.ReleaseBytes` | kern/mm/pmm/ff.c:98-125 | a release adds exactly its own bytes |
| `FreeList.ReleaseForm` | kern/mm/pmm/ff.c:98-125 | a release replaces the neighbours it touches by one block that covers them and the range, and leaves every other block |
| `FreeList.CutBytes` | kern/mm/pmm/ff.c:64-73 | cutting a block from its low end removes exactly those bytes |
| `PageAllocator.FirstFitAllocator.constructor` | kern/mm/pmm/ff.c:133-145 | the list starts empty and the counter at zero |
| `PageAllocator.FirstFitAllocator.AllocPages` | kern/mm/pmm/ff.c:44-79 | pages taken, request refused or memory exhausted, with the whole new list and counter |
| `PageAllocator.FirstFitAllocator.FreePages` | kern/mm/pmm/ff.c:81-126 | the whole new list and counter; an unaligned range changes nothing |
| `PageAllocator.FirstFitAllocator.GetFree` | kern/mm/pmm/ff.c:128-131 | the counter is the number of free bytes |
| `PageAllocator.FirstFitIsLowest` | kern/mm/pmm/ff.c:54-60 | no run of the size asked for lies below the block first fit picks |
| `PageAllocator.AllocTakesLowestRun` | kern/mm/pmm/ff.c:44-79 | pages are taken exactly when some contiguous free run of the size exists; the lowest such run is taken; otherwise nothing changes |
| `PageAllocator.AllocNothing` | kern/mm/pmm/ff.c:44-79 | a request for no bytes changes nothing |
| `PageAllocator.ReturnCodeHonest` | kern/mm/pmm/ff.c:49-52 | return code 0 means that pages were taken exactly when the request is aligned and not larger than the free space |
| `PageAllocator.OnePageNeverExhausted` | kern/mm/pmm/ff.c:44-79 | a one-page request never reports EOF; it takes a page exactly when any is free |
| `PageAllocator.FreeAddsBytes` | kern/mm/pmm/ff.c:81-126 | freeing a range that is not free adds exactly its bytes and keeps the list well formed |
| `PageAllocator.SamePoolFromBytes` | kern/mm/pmm/ff.c:98-125 | the state is determined by the set of free bytes |
| `PageAllocator.FreeUndoesAlloc` | kern/mm/pmm/ff.c:44-126 | freeing what a request took restores list and counter exactly |
| `PageAllocator.FreeAllBytes` | kern/mm/pmm/ff.c:81-126 | freeing a family of disjoint ranges adds exactly their bytes |
| `PageAllocator.FreeOrderIrrelevant` | kern/mm/pmm/ff.c:98-125 | freeing a family of disjoint ranges in any order gives the same list |
| `PageAllocator.StepRefinesSet` | kern/mm/pmm/ff.c:44-126 | each operation is a step of a machine whose only state is the set of free bytes |
| `PageAllocator.RunRefinesSet` | kern/mm/pmm/ff.c:44-126 | every legal run keeps the list sorted, aligned, nonempty and separated, its sizes summing to the counter, and refines the set machine |
| `PageAllocator.GaveWhatWasTaken` | kern/mm/pmm/ff.c:44-126 | giving back exactly the pages taken, in any order, restores the allocator |
| `MipsPageTable.PageIndex.constructor` | kern/arch/mips/pgtable.c:241-251 | a directory page starts all zero |
| `MipsPageTable.PageIndex.InitPgindex` | kern/arch/mips/pgtable.c:241-251 | a zeroed directory, on a page taken from the pool exactly when there was one; else at the stale address, and null only if that is -1 |
| `MipsPageTable.PageIndex.Destroy` | kern/arch/mips/pgtable.c:253-258 | the directory page goes back to the pool |
| `MipsPageTable.PageIndex.GetPageDesc` | kern/arch/mips/pgtable.c:77-104 | finds or creates a leaf table, on a page of the pool while there is one and then at a stale address, with all its effects |
| `MipsPageTable.PageIndex.Reserve` | kern/arch/mips/pgtable.c:299-317 | the first pass adds zeroed leaf tables only, stops at the first conflict or shortage, and is short exactly when the tables before the first conflict are unaffordable |
| `MipsPageTable.PageIndex.FreeIntermediate` | kern/arch/mips/pgtable.c:106-122 | exactly the all-zero leaf tables of the slots scanned go back to the pool |
| `MipsPageTable.PageIndex.Fill` | kern/arch/mips/pgtable.c:319-326 | the second pass writes exactly the entries of the range |
| `MipsPageTable.PageIndex.MapPages` | kern/arch/mips/pgtable.c:280-333 | which code is returned, exactly; success changes the translation exactly on the range; every error leaves tables and pool as they were; a table at a stale address breaks the page count exactly when the tables are unaffordable and the stale address is not -1 |
| `MipsPageTable.PageIndex.MapRange` | kern/arch/mips/pgtable.c:299-333 | the same for a page range, through both passes and the rollback |
| `MipsPageTable.PageIndex.UnmapPages` | kern/arch/mips/pgtable.c:335-370 | how many pages are cleared, where the first one pointed, which tables are freed, and when the machine stops |
| `MipsPageTable.PageIndex.ClearRun` | kern/arch/mips/pgtable.c:347-365 | the loop clears exactly the pages `UnmapCount` says |
| `MipsPageTable.PermBits` | kern/arch/mips/pgtable.c:262-278 | every bit below the frame number: global and valid set, the cache field 3, writable exactly when asked, the rest zero |
| `MipsPageTable.RefillIsAt` | kern/arch/mips/pgtable.c:73-104 | the walk of a 32-bit address by its top ten and next ten bits finds the entry of its page |
| `MipsPageTable.MappedWalks` | kern/arch/mips/pgtable.c:262-328 | after a mapping the walk of any address in the range finds its frame, valid, global and cached, writable exactly when asked, and no other bit set |
| `MipsPageTable.TrimUndoesExtend` | kern/arch/mips/pgtable.c:330-332 | freeing the empty tables of an interrupted first pass undoes it exactly |
| `MipsPageTable.MapRollsBack` | kern/arch/mips/pgtable.c:330-332 | the rollback restores tables and free list exactly |
| `MipsPageTable.MapSucceeds` | kern/arch/mips/pgtable.c:299-328 | two completed passes meet the specification, and there was enough memory |
| `MipsPageTable.MapFailsOnMemory` | kern/arch/mips/pgtable.c:304-307 | no free page for the next table means that the tables before the first conflict were unaffordable |
| `MipsPageTable.Pgalloc` | include/arch/mips/mmu.h:44-53 | one page while there is one; then whatever address the stack held, since a refused request returns 0 |
| `MipsPageTable.MapAfforded` | kern/arch/mips/pgtable.c:304-317 | a first pass that ends at a conflict or at the end could afford its tables |
| `MipsPageTable.StaleBreaks` | kern/arch/mips/pgtable.c:88-96 | a leaf table at an address not taken from the pool is shared by two slots or missing from the page count |
| `MipsPageTable.MapKeepsGood` | kern/arch/mips/pgtable.c:280-333 | a mapping keeps distinct slots on distinct, nonempty leaf tables |
| `MipsPageTable.UnmapKeepsGood` | kern/arch/mips/pgtable.c:335-370 | so does an unmapping |
| `MipsPageTable.MapCount` | kern/arch/mips/pgtable.c:299-328 | a mapping takes exactly the pages of the leaf tables that were missing |
| `MipsPageTable.FilledCompact` | kern/arch/mips/pgtable.c:299-328 | after a mapping no leaf table is all zero |
| `MipsPageTable.TrimmedCompact` | kern/arch/mips/pgtable.c:335-370 | after an unmapping no leaf table is all zero |
| `MipsPageTable.UnmapUndoesMapIff` | kern/arch/mips/pgtable.c:347-369 | unmapping one mapped range removes all of it exactly when it is at most one page: line 361 compares an entry, flags included, with a bare address |
| `MipsPageTable.UnmapCountExact` | kern/arch/mips/pgtable.c:347-365 | for any tables and range the pages cleared are the first and as many more as equal the bare addresses behind its frame |
| `MipsPageTable.UnmapsOnePage` | kern/arch/mips/pgtable.c:347-369 | so one call clears one page of any range, whatever mappings it holds, and stops the machine exactly when the first or second page has no leaf table |
| `MipsPageTable.RunUnmapsOnePage` | kern/arch/mips/pgtable.c:280-370 | this is so after every run of calls from an empty table |
| `MipsPageTable.RunConserves` | kern/arch/mips/pgtable.c:241-370 | in every run of calls that meet neither a shortage nor a panic the slots name distinct leaf tables, none is all zero, and the pool lacks exactly their pages |
| `MipsPageTable.MakeCall` | kern/arch/mips/pgtable.c:280-370 | one call does what it promises exactly when its leaf tables are affordable, or the stale address is the error value, or, for an unmapping, no slot it meets is empty |
| `MipsPageTable.MakeCalls` | kern/arch/mips/pgtable.c:280-370 | calls made one after the other through the code form such a run, up to the first that is short of memory or panics |
| `MipsPageTable.NoEntriesNoTables` | kern/arch/mips/pgtable.c:106-122 | a table without entries has an all-zero directory |
| `MipsPageTable.RunLeaksNothing` | kern/arch/mips/pgtable.c:241-370 | once all mappings of a run are gone the directory is zero and the pool is back |
| `UserMemory.AddressSpace.MmNew` | kern/mm/uvm.c:30-45 | an empty address space, sound exactly when there was a page for its directory |
| `UserMemory.AddressSpace.RemoveOne` | kern/mm/uvm.c:129-138 | one area goes: unlinked, unmapped, its frame freed, everything else kept in agreement |
| `UserMemory.AddressSpace.UnmapAndFree` | kern/mm/uvm.c:124-140 | exactly the given number of areas from one position on goes |
| `UserMemory.AddressSpace.OwnPage` | kern/mm/uvm.c:170-182 | a page of the pool exactly when one is free; else address 0 with return code 0 |
| `UserMemory.AddressSpace.AddArea` | kern/mm/uvm.c:161-201 | one turn of the loop: an area on a page of its own exactly when the page is unmapped and memory suffices; with no page free an area on page 0, or page 0 put on the free list; other errors change nothing |
| `UserMemory.AddressSpace.MapOwn` | kern/mm/uvm.c:184-201 | the same from map_pages on, for a page taken or address 0 |
| `UserMemory.AddressSpace.FindVmaBefore` | kern/mm/uvm.c:102-122 | the place found and the overlap verdict, the list head read as if it were an area |
| `UserMemory.AddressSpace.CreateUvm` | kern/mm/uvm.c:142-209 | the exact result as a closed form of the list, tables, free memory, descriptors and stale address before the call, and the list, tables and pool it leaves; created exactly when the test passes, the range is unmapped and memory and descriptors suffice |
| `UserMemory.AddressSpace.CreateAt` | kern/mm/uvm.c:159-209 | the creation loop and its exits |
| `UserMemory.AddressSpace.RollBack` | kern/mm/uvm.c:206-208 | what the failure path removes |
| `UserMemory.AddressSpace.GoOn` | kern/mm/uvm.c:160-204 | out of memory the loop goes on with page 0, or puts page 0 on the free list; the space no longer adds up |
| `UserMemory.AddressSpace.Broke` | kern/mm/uvm.c:160-204 | it reports success unless a page lacks a leaf table or descriptors run out, and it ends at the first such page |
| `UserMemory.AddressSpace.DestroyUvm` | kern/mm/uvm.c:211-241 | succeeds exactly when every page of the range has an area; exactly those areas go; runs over the list head exactly when the head seems to be the missing last area; other outcomes change nothing |
| `UserMemory.AddressSpace.FindRun` | kern/mm/uvm.c:222-237 | the two searches, the list head read as if it were an area |
| `UserMemory.AddressSpace.MmDestroy` | kern/mm/uvm.c:82-100 | the page free list gains exactly the pages the space held, whoever else uses the allocator |
| `UserMemory.AddressSpace.CreateThenDestroy` | kern/mm/uvm.c:142-262 | a created range destroyed piece by piece, in any order, restores areas, tables and free list exactly; it is created exactly when memory suffices |
| `UserMemory.AddressSpace.DestroyPieces` | kern/mm/uvm.c:211-241 | every piece of the partition is found and destroyed |
| `UserMemory.InsertGood` | kern/mm/uvm.c:161-193 | a new area keeps list, translation and pool in agreement |
| `UserMemory.RemoveGood` | kern/mm/uvm.c:129-138 | so does removing one |
| `UserMemory.UnmapOneArea` | kern/mm/uvm.c:48-61 | unmapping an area cannot panic and yields its own frame |
| `UserMemory.PlaceIsBeyond` | kern/mm/uvm.c:110-121 | past the overlap test, areas before the place start no later than the range and areas after it start behind it |
| `UserMemory.OverlapTestIff` | kern/mm/uvm.c:110-121 | strictly inside the list the test finds exactly the overlaps; at either end it is right exactly when what the head reads as fits |
| `UserMemory.PaidAt` | kern/mm/uvm.c:160-193 | the turns that end well are the most whose pages and missing leaf tables the free memory pays for |
| `UserMemory.NeedsIff` | kern/mm/uvm.c:160-193 | a turn pays for a leaf table exactly when it is the first in its directory slot and the slot was empty before the call |
| `UserMemory.StopOutcome` | kern/mm/uvm.c:160-208 | whatever ends a turn early, the result is the one foreseen from the state before the call |
| `UserMemory.UnbackedBreaks` | kern/mm/uvm.c:175-200 | an area on page 0, or page 0 on the free list, is more than the space was given |
| `UserMemory.BrokeTurn` | kern/mm/uvm.c:175-193 | with no page free, a page whose leaf table exists is created on page 0 |
| `UserMemory.BrokeCycle` | kern/mm/uvm.c:124-140 | destroying it again leaves page 0 on the free list |
| `UserMemory.TwoPagesOfThree` | kern/mm/uvm.c:30-209 | from three free pages, two neighbouring pages created one after the other: the second is reported as a success and lies on page 0 |
| `UserMemory.Misrolled` | kern/mm/uvm.c:206-208 | the rollback of line 207 loses the area before the new ones and keeps the last new one |
| `UserMemory.TablesRestored` | kern/mm/uvm.c:142-241 | growing and then shrinking back to the same areas gives the same tables |
| `UserMemory.StateRestored` | kern/mm/uvm.c:142-241 | and the same page free list |
| `UserMemory.AllDestroyed` | kern/mm/uvm.c:211-241 | destroying a partition of the created range leaves the original list |
| `UserMemory.NoAreasLeft` | kern/mm/uvm.c:82-100 | with no areas left only the directory page is missing from the pool |
| `Coexistence.ActKeeps` | kern/mm/uvm.c:142-241 | a call for one address space leaves every other one sound and what it holds untouched |
| `Coexistence.StepKeeps` | kern/mm/uvm.c:30-241 | so does making or destroying one: all are sound, no two hold a page in common, the pool lacks exactly what they hold |
| `Coexistence.RunKeeps` | kern/mm/uvm.c:30-241 | in every run of calls that end well, over any number of address spaces |
| `Coexistence.RunLeaksNoPage` | kern/mm/uvm.c:30-241 | a run from no space to no space leaves the page free list exactly as it was |
| `Coexistence.Act` | kern/mm/uvm.c:142-241 | the code ends well exactly when the closed forms say so for the state before the call, and is then such a step; no other object changes |
| `Coexistence.Make` | kern/mm/uvm.c:30-241 | so it is for all four calls |
| `Coexistence.MakeAll` | kern/mm/uvm.c:30-241 | calls for any number of spaces in any order form such a run, up to the first that does not end well in the state the run has reached |
| `Coexistence.DestroyAll` | kern/mm/uvm.c:82-100 | destroying all spaces gives back what all of them held |
| `Coexistence.Lifetimes` | kern/mm/uvm.c:30-241 | address spaces made, used and destroyed in any order leave the page free list as it was, or some call does not end well in the state the calls before it lead to |
| `Kmalloc.KernelHeap.constructor` | kern/mm/vmm/flff.c:227-238 | an empty heap |
| `Kmalloc.KernelHeap.Kmalloc` | kern/mm/vmm/flff.c:58-111 | the whole new heap and the payload address, or null |
| `Kmalloc.KernelHeap.CutDown` | kern/mm/vmm/flff.c:98-110 | the block is cut or handed out whole, in 32-bit arithmetic |
| `Kmalloc.KernelHeap.Kfree` | kern/mm/vmm/flff.c:113-179 | the whole new heap: insertion, both merges, pages returned |
| `Kmalloc.KernelHeap.Ksize` | kern/mm/vmm/flff.c:181-188 | the payload size of a live block |
| `Kmalloc.CarveOk` | kern/mm/vmm/flff.c:98-110 | carving a large enough block keeps the tiling and moves bytes from free to live only |
| `Kmalloc.AllocFromList` | kern/mm/vmm/flff.c:58-111 | when a free block fits, every promise is kept and no pages are drawn |
| `Kmalloc.PlacedFromList` | kern/mm/vmm/flff.c:66-70 | the block is cut from the low end of the lowest free block that fits; a rest of 48 bytes or more stays free and no other block changes |
| `Kmalloc.PlacedFromPages` | kern/mm/vmm/flff.c:72-110 | if none fits it is cut from the lowest run of pages that holds the payload |
| `Kmalloc.AllocFromPages` | kern/mm/vmm/flff.c:72-110 | so it is when the pages drawn cover payload and header |
| `Kmalloc.KmallocIff` | kern/mm/vmm/flff.c:58-111 | tiling, conservation, alignment, size, place and every other block are as they should be, and null means that there is neither a block nor a run of pages, exactly when a guard on sizes and free memory holds |
| `Kmalloc.RefusedBreaks` | kern/mm/vmm/flff.c:80-110 | a refused page request makes kmalloc hand out memory it does not have |
| `Kmalloc.UncoveredBreaks` | kern/mm/vmm/flff.c:72-110 | pages without room for the header make the remaining size wrap around |
| `Kmalloc.OversizeIff` | kern/mm/vmm/flff.c:63-110 | a size whose rounding wraps is never served; it is refused only when there is no memory at all |
| `Kmalloc.KfreeIff` | kern/mm/vmm/flff.c:113-179 | kfree forgets exactly one block, merges it with the free blocks that end or begin at it, gives back exactly the whole pages of the result, keeps the scraps beside them and every other free block, and keeps the tiling and every header inside its block: exactly when it is tidy, that is, returns no pages or leaves no scrap smaller than a header |
| `Kmalloc.ReclaimExact` | kern/mm/vmm/flff.c:113-179 | the merged block and the new free list, in terms of the free list and the live blocks alone |
| `Kmalloc.SlicesExact` | kern/mm/vmm/flff.c:153-178 | what stays of the merged block is what lies below its first and above its last whole page |
| `Kmalloc.UntidySpills` | kern/mm/vmm/flff.c:153-178 | after any other release the header of a free block lies partly in a page just returned or past the end of the block; nothing is promised from there on |
| `Kmalloc.SliceWithoutHeader` | kern/mm/vmm/flff.c:147-152 | from two free pages five legal calls lead to a live block whose release leaves a free block smaller than its header, against the comment there |
| `Kmalloc.SlicesCapableIff` | kern/mm/vmm/flff.c:147-178 | the slices left after returning pages are as large as the comment says exactly when the merged block ends on page borders or far enough from them |
| `Kmalloc.ReclaimHeadedIff` | kern/mm/vmm/flff.c:113-179 | kfree keeps every header inside its block exactly under the like condition |
| `Kmalloc.AllocateHeaded` | kern/mm/vmm/flff.c:58-111 | kmalloc under the guard does |
| `Kmalloc.RunKeepsSize` | kern/mm/vmm/flff.c:58-188 | a block that is not freed stays live at its recorded size, in every legal run |
| `Kmalloc.KsizeCovers` | kern/mm/vmm/flff.c:181-188 | in every legal continuation, until a block is freed, ksize is at least what was asked for |
| `Kmalloc.RunTiles` | kern/mm/vmm/flff.c:58-188 | in every legal run, of kmalloc under the guard and tidy kfree of live blocks, live and free blocks are disjoint, ordered and aligned, hold their headers and no whole free page, and tile exactly what was drawn from the page allocator |
| `Bitmap.GenericFfs` | include/bitops.h:93-124 | the 1-based index of the lowest set bit, 0 for none |
| `Bitmap.Ffz8` | include/bitops.h:57-59 | on a byte: the lowest clear bit, 0 if there is none |
| `Bitmap.FfzInt` | include/bitops.h:57-59 | on a byte promoted to int there is always a clear bit |
| `Bitmap.Mark` | kern/mm/vmm/slab.c:192-192 | sets exactly one entry |
| `Bitmap.Unmark` | kern/mm/vmm/slab.c:241-244 | clears exactly one entry |
| `Bitmap.FullMeansUsed` | kern/mm/vmm/slab.c:55-62 | the full test holds exactly when all 32 entries are used |
| `Bitmap.EmptyMeansUnused` | kern/mm/vmm/slab.c:64-71 | the empty test holds exactly when none is |
| `Bitmap.ScanFinds` | kern/mm/vmm/slab.c:186-193 | the scan finds the lowest free entry if there is one |
| `Bitmap.Scan` | kern/mm/vmm/slab.c:186-193 | the loop stops at that entry |
| `Bitmap.IntWideScanIff` | kern/mm/vmm/slab.c:186-193 | with the int-wide scan the entry found is free and gets marked exactly when the first byte has a free bit |
| `Slab.LiveUnique` | kern/mm/vmm/slab.c:209-257 | an object address determines slab and entry |
| `Slab.LiveDisjoint` | kern/mm/vmm/slab.c:74-207 | live objects share no byte |
| `Slab.TakeAllocates` | kern/mm/vmm/slab.c:167-207 | an allocation makes exactly one more address live, inside a slab, and keeps every slab on the right list |
| `Slab.TakeExact` | kern/mm/vmm/slab.c:174-206 | the object is the lowest free entry of the first partial slab or, if there is none, of the first empty one; the slab goes to the front of the full or the partial list and no other slab moves |
| `Slab.LiveFound` | kern/mm/vmm/slab.c:209-257 | freeing recovers the slab and the entry the allocation used |
| `Slab.GiveFrees` | kern/mm/vmm/slab.c:209-257 | freeing makes exactly that object not live and keeps the lists right |
| `Slab.GiveExact` | kern/mm/vmm/slab.c:233-256 | only that entry is cleared; an empty slab goes to the front of the empty list, the first full one to the front of the partial list, any other stays in place |
| `Slab.KnownIff` | kern/mm/vmm/slab.c:214-235 | the addresses not refused are exactly those inside a slab on the full or the partial list |
| `Slab.NothingLiveIff` | kern/mm/vmm/slab.c:152-165 | both lists that destroy looks at are empty exactly when nothing is live |
| `Slab.GrowBacked` | kern/mm/vmm/slab.c:74-107 | a new slab takes its memory from the page allocator and has no live object |
| `Slab.TrimReturns` | kern/mm/vmm/slab.c:109-125 | trimming returns exactly the memory of the empty slabs |
| `Slab.AllocStepIff` | kern/mm/vmm/slab.c:167-207 | allocation keeps its promises exactly when there is a slab to use or a new one is no larger than the free memory |
| `Slab.AllocStepKept` | kern/mm/vmm/slab.c:167-207 | then it fails only without a slab and without a run of pages; else one new disjoint object is live |
| `Slab.AllocStepExact` | kern/mm/vmm/slab.c:74-207 | which object is returned; a new slab is made of the lowest run of pages |
| `Slab.NullSlabBreaks` | kern/mm/vmm/slab.c:81-93 | otherwise a slab appears at address 0 that no pages were taken for |
| `Slab.StepBacked` | kern/mm/vmm/slab.c:74-257 | every operation keeps slabs and free memory disjoint and conserves their union, an allocation if memory suffices |
| `Slab.RunBacked` | kern/mm/vmm/slab.c:74-257 | so does every run that frees only live objects and does not outgrow memory |
| `Slab.DestroyLeaksNothing` | kern/mm/vmm/slab.c:152-165 | destroying a cache with nothing live returns all its memory |
| `Slab.SlabNeedExact` | kern/mm/vmm/slab.c:136-143 | an entry is the size, 128 at least, rounded up to the alignment, and to pages above half a page; a slab is 32 of them in whole pages |
| `Slab.CreateSizedIff` | kern/mm/vmm/slab.c:127-150 | the stored slab size is whole pages with room for all entries exactly when the size needed fits 32 bits |
| `Slab.NeedOverflows` | kern/mm/vmm/slab.c:139-143 | otherwise 0 is stored, for any size below 2^27 |
| `Slab.ObjectsAlignedIff` | kern/mm/vmm/slab.c:139-194 | all objects honour the requested alignment exactly when it divides the object size |
| `Slab.SlabCache.constructor` | kern/mm/vmm/slab.c:127-150 | an empty cache with the computed slab size |
| `Slab.SlabCache.Extend` | kern/mm/vmm/slab.c:74-107 | one fresh empty slab, at address 0 if the request was refused; or nothing on EOF |
| `Slab.SlabCache.CacheAlloc` | kern/mm/vmm/slab.c:167-207 | cache, page allocator and result as specified |
| `Slab.SlabCache.TakeEntry` | kern/mm/vmm/slab.c:186-206 | bitmap update and move between lists |
| `Slab.SlabCache.CacheFree` | kern/mm/vmm/slab.c:209-257 | unknown addresses are refused, known ones freed |
| `Slab.SlabCache.Trim` | kern/mm/vmm/slab.c:109-125 | every empty slab goes back to the page allocator |
| `Slab.SlabCache.DestroyCache` | kern/mm/vmm/slab.c:152-165 | succeeds exactly when nothing is live, and then returns all memory |
| `ArmPageTable.ConvertFlags` | kern/arch/armv7a/mm.c:67-84 | every attribute fits its field |
| `ArmPageTable.FlagsGranted` | kern/arch/armv7a/mm.c:67-84 | the hardware grants reading, writing and execution exactly as the mapping flags ask, and treats the page as normal memory, private or shared device by the map type |
| `ArmPageTable.SectionDecodes` | kern/arch/armv7a/mm.c:100-123 | the hardware reads a section entry back as the base and attributes it was built from |
| `ArmPageTable.PageDecodes` | kern/arch/armv7a/mm.c:142-169 | so it does a small page entry |
| `ArmPageTable.SectionRest` | kern/arch/armv7a/mm.c:100-123 | every other bit of a section entry is zero |
| `ArmPageTable.PageRest` | kern/arch/armv7a/mm.c:142-169 | and of a page entry |
| `ArmPageTable.SectionOrIsSum` | kern/arch/armv7a/mm.c:100-123 | the fields ORed into a section entry do not overlap |
| `ArmPageTable.PageOrIsSum` | kern/arch/armv7a/mm.c:142-169 | nor do those of a page entry |
| `ArmPageTable.MapSectionWalk` | kern/arch/armv7a/mm.c:100-123 | a section translates its 256 pages and nothing else changes |
| `ArmPageTable.MapTableWalk` | kern/arch/armv7a/mm.c:125-140 | a new table loses a section in its slot and nothing else |
| `ArmPageTable.MapPageWalk` | kern/arch/armv7a/mm.c:142-169 | one page mapped; the rest of its slot is lost exactly when it held a section |
| `ArmPageTable.MapSectionNoOrphans` | kern/arch/armv7a/mm.c:88-123 | a section frees the table it replaces |
| `ArmPageTable.MapPageNoOrphans` | kern/arch/armv7a/mm.c:125-169 | mapping a page leaves no table unreferenced |
| `ArmPageTable.ProgressSection` | kern/arch/armv7a/mm.c:310-320 | a section step of the loop agrees with mapping its pages |
| `ArmPageTable.ProgressPage` | kern/arch/armv7a/mm.c:321-326 | a page step does |
| `ArmPageTable.OthersKeptIff` | kern/arch/armv7a/mm.c:297-328 | every address outside the range keeps its translation exactly when no partly covered slot held a section |
| `ArmPageTable.PageByPageProgress` | kern/arch/armv7a/mm.c:142-169 | mapping one page at a time gives the flat result |
| `ArmPageTable.PageByPageRuns` | kern/arch/armv7a/mm.c:142-169 | such a page-by-page run exists |
| `ArmPageTable.GreedyIsPageByPage` | kern/arch/armv7a/mm.c:297-328 | sections and pages mixed greedily translate every address, attributes included, as page by page would |
| `ArmPageTable.ArmIndex.MapPages` | kern/arch/armv7a/mm.c:297-328 | succeeds exactly when aligned; the loop reaches the flat result |
| `ArmPageTable.ArmIndex.MapRange` | kern/arch/armv7a/mm.c:308-327 | the loop, with its invariant |
| `MipsLock.ExecuteInv` | kern/arch/mips/sync.c:35-60 | every instruction keeps the invariant, the write-back on the contended path included |
| `MipsLock.RunInv` | kern/arch/mips/sync.c:35-60 | every interleaving does |
| `MipsLock.MutualExclusion` | kern/arch/mips/sync.c:35-60 | at most one CPU is between lock and unlock, for any number of CPUs |
| `MipsLock.EntersWhenFree` | kern/arch/mips/sync.c:35-48 | a CPU that runs alone takes a free lock |
| `MipsLock.EntersFromAnywhere` | kern/arch/mips/sync.c:35-48 | so does one that waits at any point of the loop, with its link intact or lost, in the number of instructions given |
| `MipsLock.LeavesUnlocked` | kern/arch/mips/sync.c:50-60 | unlocking alone leaves the lock free |
| `MipsLock.LeavesFromAnywhere` | kern/arch/mips/sync.c:50-60 | so does one anywhere on the way out |
| `ArmLock.ExecuteInv` | kern/arch/armv7a/sync.c:45-79 | every instruction keeps the invariant, the plain-store unlock included |
| `ArmLock.RunInv` | kern/arch/armv7a/sync.c:45-79 | every interleaving does |
| `ArmLock.MutualExclusion` | kern/arch/armv7a/sync.c:45-79 | at most one CPU is between lock and unlock, and the panic of unlock is never reached |
| `ArmLock.EntersWhenFree` | kern/arch/armv7a/sync.c:45-64 | a CPU that runs alone takes a free lock |
| `ArmLock.EntersFromAnywhere` | kern/arch/armv7a/sync.c:45-64 | so does one that waits at any point of the loop, with its monitor or without |
| `ArmLock.LeavesUnlocked` | kern/arch/armv7a/sync.c:66-79 | unlocking alone leaves the lock free |
| `ArmLock.UnlockOfFreePanics` | kern/arch/armv7a/sync.c:66-73 | unlocking a free lock panics and leaves it free |
| `X86Lock.StepInv` | kern/arch/i386/sync.c:31-40 | an exchange keeps the invariant |
| `X86Lock.MutualExclusion` | kern/arch/i386/sync.c:31-40 | at most one CPU is between lock and unlock |
| `X86Lock.EntersAndLeaves` | kern/arch/i386/sync.c:31-40 | a CPU that runs alone takes a free lock and leaves it free |
| `Semaphore.InitInv` | kern/arch/armv7a/sync.c:83-90 | a fresh semaphore meets the invariant |
| `Semaphore.StepInv` | kern/arch/armv7a/sync.c:92-143 | every instruction keeps value in range and value plus holders equal to the limit, if the addition cannot wrap |
| `Semaphore.AlwaysInRange` | kern/arch/armv7a/sync.c:92-143 | so does every interleaving, for every limit below INT_MAX |
| `Semaphore.StepEffect` | kern/arch/armv7a/sync.c:92-143 | an instruction, a lost monitor or a failed store keeps account of the call under way |
| `Semaphore.CallsTakeEffect` | kern/arch/armv7a/sync.c:92-143 | in every interleaving a CPU between calls has one unit more for each decrement it began and one less for each increment; a panic leaves its increment without effect |
| `Semaphore.ReturnTakesEffect` | kern/arch/armv7a/sync.c:92-143 | whenever a call returns it has changed the units of its CPU by one, in the right direction |
| `Semaphore.WordWhenQuiet` | kern/arch/armv7a/sync.c:83-143 | once all calls have returned the word is the limit less the decrements plus the increments begun |
| `Semaphore.DecrementAlone` | kern/arch/armv7a/sync.c:92-111 | a decrement that runs alone takes one unit if there is one, else goes round without effect |
| `Semaphore.IncrementAlone` | kern/arch/armv7a/sync.c:113-143 | an increment that runs alone gives one unit back below the limit and panics at it |
| `Semaphore.DecrementFinishes` | kern/arch/armv7a/sync.c:92-111 | a decrement left alone at any point, whatever it has lost, returns within seven instructions if there is a unit |
| `Semaphore.IncrementFinishes` | kern/arch/armv7a/sync.c:113-143 | an increment left alone at any point returns or panics within eleven |
| `Semaphore.FullIncrementWraps` | kern/arch/armv7a/sync.c:125-129 | incrementing a full semaphore with limit INT_MAX stores a negative value |
| `Semaphore.InRangeIff` | kern/arch/armv7a/sync.c:83-143 | every interleaving keeps the count exactly when the limit is below INT_MAX |
| `Semaphore.DisciplinedNeverPanics` | kern/arch/armv7a/sync.c:83-143 | if each increment follows its caller's own decrement, the count is kept for every limit and the panic is never reached |
| `ListRing.Node.InitListHead` | include/list.h:39-43 | a node becomes a ring of its own |
| `ListRing.ListAddBetween` | include/list.h:65-72 | insertion between two neighbours of the ring |
| `ListRing.ListAdd` | include/list.h:74-77 | insertion right after a node, all other nodes untouched |
| `ListRing.ListAddTail` | include/list.h:79-82 | insertion right before a node, all other nodes untouched |
| `ListRing.ListDelBetween` | include/list.h:88-92 | the two nodes become neighbours |
| `ListRing.ListDel` | include/list.h:94-98 | removal at one position; the removed node keeps its own links |
| `ListRing.ListDelInit` | include/list.h:100-104 | removal that leaves the node a ring of its own |
| `ListRing.NextPrevInverse` | include/list.h:65-98 | next and prev undo each other everywhere on a ring |
| `ListRing.AddThenDel` | include/list.h:65-98 | adding and deleting a node restores every link of the ring |
| `ListRing.SameLinks` | include/list.h:35-37 | a ring's sequence determines all of its links |
| `ListRing.RemoveUndoesInsert` | include/list.h:65-98 | removal undoes insertion |
| `ListRing.InsertUndoesRemove` | include/list.h:65-98 | insertion undoes removal |
| `ListRing.ListEmpty` | include/list.h:112-115 | true exactly when only the sentry is there |
| `ListRing.ListIsLast` | include/list.h:106-110 | true exactly for the last node |
| `ListRing.ListIsSingular` | include/list.h:117-120 | true exactly when one node besides the sentry is there |
| `ListRing.ForEach` | include/list.h:142-143 | visits every node but the sentry once, in order |
| `ListRing.ForEachReverse` | include/list.h:144-145 | visits them in reverse |
| `ListRing.ForEachSafe` | include/list.h:147-149 | visits every original node once and terminates while its body unlinks any of them; the others stay linked in order |
| `ListRing.Advance` | include/list.h:147-149 | one turn of that loop, the next node having been read before the body |
| `Snprintf.NumeralReadsBack` | lib/libc/snprintf.c:101-112 | without a width a numeral reads back to its argument and has no leading zero |
| `Snprintf.SignedReadsBack` | lib/libc/snprintf.c:72-80 | so does a signed one |
| `Snprintf.WidthKeepsLowDigits` | lib/libc/snprintf.c:113-121 | a width w prints exactly w digits, denoting the magnitude modulo the w-th power of the base |
| `Snprintf.PointerReadsBack` | lib/libc/snprintf.c:87-97 | %p prints the whole pointer in 8 or 16 digits |
| `Snprintf.PieceMeans` | lib/libc/snprintf.c:71-147 | every conversion, width and argument: o, u and x are the argument in base 8, 10 and 16, d has a sign, p is a whole pointer, c one character, s the string or (null) with blanks behind it up to the width |
| `Snprintf.DirectivePrints` | lib/libc/snprintf.c:69-170 | so prints a format of one directive, the digits before the letter being the width |
| `Snprintf.DirectiveCopies` | lib/libc/snprintf.c:148-173 | a doubled percent sign prints one; an unknown letter is printed with its percent sign and leaves the width to the next directive |
| `Snprintf.BoundedMeans` | lib/libc/snprintf.c:44-51 | byte by byte: as much of the output as fits, a NUL, the old bytes |
| `Snprintf.DigitsFit` | lib/libc/snprintf.c:64-65 | no number needs more than 22 bytes of the digit buffer |
| `Snprintf.LiteralText` | lib/libc/snprintf.c:172-173 | a format without directives is copied |
| `Snprintf.RenderConcat` | lib/libc/snprintf.c:68-174 | a format that uses up its arguments and leaves no width behind can be split off: outputs concatenate, errors come from the rest |
| `Snprintf.SetCh` | lib/libc/snprintf.c:44-51 | one more byte, or the buffer is full and ends in NUL |
| `Snprintf.PutBuffer` | lib/libc/snprintf.c:101-107 | the digit loop fills the buffer with the digits, least significant first, and stays inside it |
| `Snprintf.PutDigits` | lib/libc/snprintf.c:108-121 | the digits in order, zeroes beyond the buffer |
| `Snprintf.PrintNumber` | lib/libc/snprintf.c:101-131 | sign and numeral |
| `Snprintf.PrintString` | lib/libc/snprintf.c:138-147 | the characters, then blanks up to the width |
| `Snprintf.PrintPiece` | lib/libc/snprintf.c:71-147 | each conversion that takes an argument |
| `Snprintf.ScanWidth` | lib/libc/snprintf.c:152-163 | flags and width up to the conversion letter |
| `Snprintf.Vsnprintf` | lib/libc/snprintf.c:42-183 | the buffer gets the first size-1 bytes of the unbounded output and a NUL and no other byte changes; the length is returned if there is room for one byte more, else the size |
| `Memcpy.Memcpy` | lib/libc/memcpy.c:48-89 | equals forward byte-by-byte copying for every length, alignment and overlap; transfers the block and changes nothing else unless the destination starts inside the source |
| `Memcpy.CopyWord` | lib/libc/memcpy.c:84-84 | only aligned words inside the two blocks are accessed |
| `Memcpy.CopyWords` | lib/libc/memcpy.c:83-84 | copying words equals copying their bytes |
| `Memcpy.CopyBytes` | lib/libc/memcpy.c:78-86 | the byte loops |
| `Memcpy.Lead` | lib/libc/memcpy.c:67-77 | the bytes before the words: after them both addresses are aligned, or no word is left |
| `Memcpy.MaskTests` | lib/libc/memcpy.c:68-73 | the combined mask tests mean some low bit set, some low bit different |
| `Memcpy.ByteCopyTransfers` | lib/libc/memcpy.c:45-49 | forward copying transfers the block unless the destination starts inside the source |
| `Memcpy.ByteCopySplit` | lib/libc/memcpy.c:64-86 | copying in consecutive parts is copying at once |
| `DeviceIndex.CmpIsOrder` | kern/dev/index/devlist.c:42-52 | the comparison decides the lexicographic order by major and minor number, which is total |
| `DeviceIndex.AddedStable` | kern/dev/index/devlist.c:54-77 | adding keeps the list the stable sort of the insertions in force |
| `DeviceIndex.RemovedExact` | kern/dev/index/devlist.c:79-106 | a listed device with none attached loses its last entry and nothing else changes; otherwise nothing changes at all |
| `DeviceIndex.RemovedStable` | kern/dev/index/devlist.c:79-106 | removing keeps the list the stable sort of the insertions, with the latest insertion of the device struck out |
| `DeviceIndex.StableUnique` | kern/dev/index/devlist.c:54-106 | a sequence of insertions has only one stable sort |
| `DeviceIndex.RunStable` | kern/dev/index/devlist.c:54-106 | in every run the list is ordered by id with equal ids in insertion order |
| `DeviceIndex.AddedBusClosed` | kern/dev/index/devlist.c:54-77 | adding keeps every bus listed exactly when the new device's own bus is |
| `DeviceIndex.RemovedBusClosed` | kern/dev/index/devlist.c:79-106 | a removal never orphans a listed device |
| `DeviceIndex.RunBusClosed` | kern/dev/index/devlist.c:54-106 | if each device is added after its bus, every listed device's bus is null or listed |
| `DeviceIndex.DevList.AddDevice` | kern/dev/index/devlist.c:54-77 | the new list, or EOF when there is no entry |
| `DeviceIndex.DevList.RemoveDevice` | kern/dev/index/devlist.c:79-106 | 0 exactly when the device is listed and no listed device is attached to it, and then its last entry is gone; otherwise the list is unchanged |
| `DeviceIndex.DevList.FromId` | kern/dev/index/devlist.c:108-129 | the earliest insertion under the id, null if there is none |

## Left out

- The i386 page table and the 64-bit half of kern/arch/mips/pgtable.c: the MIPS32 half carries the same properties.
- ARM `unmap_pages`, `init_pgindex` and `destroy_pgindex`: the first clears nothing, the others would only add easy members.
- `page_allocator_move`, and the bootstrap instance of kmalloc: the same list code on another list head.
- Re-entry between kmalloc and the page allocator: descriptors do not come out of the modelled memory. Whether an allocation of one fails is a parameter for `create_uvm` and the device index; elsewhere it succeeds.
- Conversion between physical and kernel addresses is the identity, or the fixed offset of KSEG0 in MIPS directory slots.
- Address arithmetic beyond the top of the address space: user ranges end below 4 GB, physical memory and mappings at or below it, and the sums of the overlap test do not wrap.
- `flags` of pages and allocations, `vma_count`, and the create and destroy callbacks of slab caches: they do not affect the results.
- A null directory slot met by `__free_intermediate_pgtable` at line 112 of kern/arch/mips/pgtable.c is skipped.
- MipsPageTable.PageIndex.MapPages: after `Wild` it says only that the page count is broken, because the code has then cleared memory at an unknown address.
- UserMemory.AddressSpace.CreateUvm: says nothing of the state after `HeadLost` or `Clobbered`, because the code has then unlinked the list head or cleared memory at an unknown address; after `Unbacked` with an error code the state is the one before the rollback.
- UserMemory.AddressSpace.DestroyUvm: after `RanOver` the state is the one before the list head is removed.
- MipsPageTable.PageIndex.UnmapPages: says nothing of the state after a panic, because the machine has stopped; requires whole pages ending below 4 GB, as its callers pass them.
- MipsPageTable.PageIndex.MapRange: as for `MapPages`.
- UserMemory.AddressSpace.CreateAt: as for `CreateUvm`.
- UserMemory.AddressSpace.GoOn: the rollback after an error on page 0 is not followed.
- UserMemory.AddressSpace.Broke: as for `GoOn`.
- Kmalloc.KfreeIff: for a heap in which every block holds its own header; after an untidy release the list is what the next owner of a returned page leaves of it.
- Coexistence.MakeAll: ends at the first call that does not end well, as the state after it is not known.
- Coexistence.Lifetimes: as for `MakeAll`.
- PageAllocator.FirstFitAllocator.FreePages: freeing a range that is already free corrupts the list; the properties are for ranges that are not.
- Snprintf.Vsnprintf: requires a complete format with arguments of the right types, without NUL inside strings, and excludes `LONG_MIN`, whose negation overflows; width overflow is not modelled.
- Slab.SlabCache.CacheFree: requires that the address is not in the unused tail of a slab, where the code would write outside the bitmap; the properties of frees are for live objects.
- Rings in the allocators, the address space and the device index are sequences; `ListRing` relates the link operations to sequences once for all. The reverse removal-safe loop mirrors the forward one.
- `__from_name` of the device index, and the lock around each of its operations.
- Lock fairness and liveness, WFE/SEV wake-up, and weak memory ordering beyond the exclusive monitors; barriers are no-ops.
- Early mappings in kern/mm/mmu.c, allocator dispatchers, drivers, boot code, traps, the console, the timer and disk access.
- `fls`, `flz` and the 64-bit bit scans: not used by the slab cache.

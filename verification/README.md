# A verified model of the UnOS kernel core

This Dafny project models the memory manager of the kernel, the FAT32 layer on top of it, and the
smaller components with complete specifications: the ELF segment loader, the AHCI command setup, the
MADT walker, the cooperative scheduler and the string routines. `dafny verify dfyconfig.toml` checks
all of it.

## How the model is laid out

Code that works in place is modelled by classes whose methods have the loops and branches of the
source. Each such method is proved against a function on values, and the main results are lemmas
about those functions, over all inputs, runs or interleavings.

| layer | code | specification and theorems |
|---|---|---|
| page tables | PageTables | Bits, Paging, PagingOps, PagingRuns, PagingBits, TableBudget, WindowBudget |
| DMA allocator | DmaAllocator | DmaPool, DmaTheorems, DmaLifo, DmaTransfer, DmaBytes, FatBuffers |
| page allocator, kernel heap | PhysAllocator, Kheap | PhysPages, Kheap |
| FAT32 reads | FatReader | FatDisk, FatChain, FatFile, FatFormat, FatWritten |
| FAT32 names | FatLookup, FatNode | FatDirectory, FatDecode, FatEncode, FatNode, FatStored |
| FAT32 updates | FatWriter | FatLock, FatCalls |
| ELF loader | ElfLoader | ElfImage, ElfFile |
| AHCI commands | Ahci | Ahci |
| MADT | Madt | Madt |
| scheduler | Scheduler | Scheduler |
| strings | Kstring | Tokens, Decimal, FatDirectory |

Machine integers are `nat`; wraps and truncations are written out (`U32`, `U64`, `ToInt32` in
Machine) except where a precondition named below rules them out. Shifts and masks appear as division
and remainder; the lemmas of Bits prove the two forms equal on 64-bit words.

**Page tables.** A state is a map from table addresses to rows of 512 entries, a root and the bump
pointer of `alloc_page`. `Translate` is the page walk of the Intel SDM, volume 3A, section 4.5. The
invariant `WF` says that the tables reached from the root form a tree of allocated pages whose
non-present entries are zero. The refinement theorem says that every legal run of the mapping
operations acts as the same run on a flat map from virtual pages to leaf entries. `TableBudget` counts
the pages these runs take from the bump allocator, one for each distinct position of the tree, and
says which runs stay clear of the frames of `palloc_page`.

**DMA pool.** A state is the frame bitmap, the window cursor and the window's part of the flat map;
`DmaAllocator` proves that the real page tables hold exactly that part and that the allocator touches
no translation outside the window. `WindowBudget` counts the tables that the window itself needs, and
`FatBuffers` follows the buffers that directory lookups leave behind. `DmaBytes` states allocation,
release and transfer over the bytes that were asked for.

**Encodings.** What the code reads and what it leaves behind is stated against layouts that are written
out byte by byte and do not use the code's own decoders: entries, directories, files and volumes
(`FatEncode`, `FatFile`, `FatFormat`, `FatStored`), executables (`ElfFile`), ACPI tables (`Madt`),
commands as a device reads them (`Ahci`), access rights as the page walk meets them (`PagingBits`), and
the arguments of calls as the list of steps records them (`FatCalls`).

**Directory lookups.** The result of a lookup is a node on the kernel heap, 72 bytes as the compiler
lays out `struct VFSNode`, filled by the memset, strcpy and field stores of the source over the bytes
that lie there. `LookupIn` and `Scan` say which entry is found and under which name; `FatNode` says
what can be read back from the node, which for names above 15 bytes is not that name.

**FAT updates.** `FatLock` interleaves the steps of any number of threads that run
`Fat32WriteFATEntry`: call, test-and-set, failed probe, sector read, sector write, release.
`FatWriter` is the critical section as one thread runs it.

## Assumptions

These are stated as preconditions, because the code relies on them:

- 4 KiB operations meet no 2 MiB leaf on their paths.
- Table pages, page frames and the DMA pool are separate memory: the bump pointer stays at or below
  0x100000, the first frame of `palloc_page`, which `init_phys_allocator` leaves free for a kernel
  linked above it. The bound is exact, one page for each position that is missing (`Affords`), and
  `RunFitsExactlyWhen` says which runs from boot meet it: those that use at most 252 tables. Sweeping
  the DMA window meets it up to its 249th page table (`SweepFitsExactlyWhen`), which comes before the
  first wrap.
- The two page-table roots of the source are one table, as init_paging leaves them.
- DMA window theorems hold until the cursor first starts over at the bottom of the window.
  `PallocAgreesIff` says exactly when a later allocation is still sound, and `WrapOntoLivePage`
  gives a run from the empty pool to one that is not.
- The FATs are addressable in 32 bits, as the FAT standard's own limits make them;
  `EntriesFoundExactlyWhen` says that this is exactly what the 32-bit arithmetic of
  `Fat32WriteFATEntry` needs.
- Range loops leave their range before the 64-bit cursor wraps; `LoopEndsExactlyWhen` says that this
  is exactly when they end at all.
- A lookup has room on the heap for its node and for the longest name behind it. `kmalloc` never
  returns NULL. A found name does not repeat the node's type byte, 1 or 2, at its 17th byte, which the
  FAT standard forbids in names (`Telling`; `ControlByteHidesOverrun` shows what happens otherwise).
- `map_virtual_user_advanced` is an assumed mapper in the ELF loader: it installs the page it is given
  and no other. The loader's file has loadable headers that lie in the file, do not wrap, and
  share no page; enough page frames are free, since the loader maps page 0 when `palloc_page` returns
  NULL. Frames that existing pages use are marked used.
- The volume counts 512-byte sectors. A disk command either transfers everything or reports failure;
  the `faults` counter records failures, and results that need a working disk are stated for runs
  in which it did not move.
- Tasks leave the task pool alone, and a function list holds no null pointer.
- Twelve bytes behind a MADT are readable memory, because the walker casts to the record
  structures before it knows that they fit.

## Where the code and its comments disagree

The model follows the code.

- `map_identity` is described as mapping a range, but steps from the raw start address, so a
  misaligned range can lose its tail (`MapIdentityCoverage`, `MapIdentityMissesTail`).
- `Elf64Load` means to copy a segment to its address, but copies to the base of its first page
  (`ImageRightExactlyWhenAligned`).
- `virt_to_phys` is written for 2 MiB pages only: on a page of a 4 KiB mapping it returns the place of
  the page table (`VirtToPhysOfOther`).
- The comment beside `DMA_BASE_ADDR` says 16 MB; the constant is 0x8000000.
- `Elf64Load` looks at the write flag of a segment, but has already made every page writable.
- `free_phys_page` bounds its index after a conversion to `int`, so that far addresses alias low pages
  (`FreesOwnPageExactlyWhen`, `FreeAliasesPageZero`).
- `fs/vfs.h` limits a node's name to 15 characters, but a lookup copies names of up to 255 bytes
  there and then stores the other fields over them. The node is right if and only if the name has at
  most 15 bytes; from 65 bytes on a directory gets a size, and from 72 bytes on the next heap block is
  overwritten (`NodeRightExactlyWhen`, `SizeReadsBackExactlyWhen`, `BehindUntouchedExactlyWhen`, and
  `LongNameSpoilsNode` for a directory under a name of 80 letters). The same header documents type 0
  for files and 1 for directories; the constants are 1 and 2.
- Every successful `Fat32Lookup` keeps its DMA buffer for good. From an empty pool a lookup gets a
  usable buffer if and only if the buffers lost so far and its own fit in 512 frames
  (`LookupReadsExactlyWhen`).
- `alloc_page` has no limit and clears what it returns, so that its 253rd page is the first frame of
  `palloc_page` (`NextTableIsFirstFrame`, `SweepMeetsFirstFrame`).
- `map_identity`, `map_framebuffer` and the reservation loops run forever on ranges whose last step
  wraps (`LoopEndsExactlyWhen`).
- `Fat32Read` clips `offset + size` in 64 bits, so that a sum that wraps is not clipped to the file
  (`WantedInsideExactlyWhen`).
- `Fat32Lookup` reads the first cluster of a directory only, so that what lies behind it is never found.
- The MADT walker fills slot 0 of the CPU list again and again, because the CPU count never advances
  (`OnlyTheLastIsKept`).
- A full override table drops later overrides silently (`CapIsHarmlessExactlyWhen`).
- `kmalloc` has no limit, although 10 MiB are mapped for its heap (`InsideHeapExactlyWhen`).

## Model

| member | source | states |
|---|---|---|
| Bits.PageTableIndices | kernel/memory/paging.c:87-90 | the four 9-bit shift-and-mask indices equal the quotients and remainders used in the model, for every 64-bit address |
| Bits.PageTableMasks | kernel/memory/malloc.c:119-141 | the frame, page-base, block-base and offset masks in arithmetic form, for every 64-bit word |
| Bits.LargeBit | kernel/memory/paging.c:318-336 | the page-size bit in arithmetic form |
| Bits.EntryFlags | kernel/memory/paging.c:36-50 | or-ing the flags into an aligned address is addition |
| Bits.RoundUp | kernel/memory/malloc.c:159-163 | rounding a size up to pages in arithmetic form |
| Bits.FatEntry | fs/vfs.c:492-494 | the 28-bit merge of a FAT entry in arithmetic form |
| Machine.StepCoverage | kernel/memory/paging.c:27-28 | a loop that strides from an unaligned start visits the unit of every byte of its range if and only if the misaligned head fits in the last stride |
| Machine.LoopEndsExactlyWhen | kernel/memory/paging.c:27-28 | a loop over a 64-bit cursor ever finds its end test false if and only if its range wraps to nothing or its last step does not wrap |
| Paging.PutLeaf | kernel/memory/paging.c:49-50 | writing a non-pointer entry keeps the table tree, cuts the subtree of that slot and changes no other node |
| Paging.LinkAddsNode | kernel/memory/paging.c:33-37 | linking a fresh cleared table into an empty slot adds exactly one node to the tree |
| Paging.LinkKeepsWF | kernel/memory/paging.c:41-45 | linking a fresh table keeps the tree invariant |
| Paging.EnsureKeeps | kernel/memory/paging.c:93-114 | the allocate-if-absent step keeps the tree, every existing node and every translation |
| Paging.EnsureGrown | kernel/memory/paging.c:93-98 | the allocate-if-absent step takes one page if and only if the position had no table, and adds that position only |
| Paging.WritePte | kernel/memory/paging.c:117-118 | storing a page-table entry changes the translation of one page only and no table position |
| Paging.MapPageIsFlatUpdate | kernel/memory/paging.c:83-120 | one iteration of map_virtual is one update of the flat page map and takes exactly one page for each table missing on the path |
| Paging.MapBlockIsFlatUpdate | kernel/memory/paging.c:28-51 | one iteration of map_identity turns the 512 pages of one block into one large page, changes no other translation, takes a page for each missing directory and drops the page table of that block only |
| PagingOps.IndexPath | kernel/memory/paging.c:87-90 | the four indices of an address name the tree path of its virtual page |
| PagingOps.GetPhysicalAddressIsTranslation | kernel/memory/malloc.c:119-141 | the pointer-null walk of get_physical_address returns what the present-bit walk of the hardware translates to, and 0 exactly where the walk finds no page |
| PagingOps.VirtToPhysOfLarge | kernel/memory/paging.c:318-336 | virt_to_phys of an address in a 2 MiB page is the block base plus the offset |
| PagingOps.VirtToPhysOfOther | kernel/memory/paging.c:318-336 | of an address outside 2 MiB pages virt_to_phys returns 0 if its block has no page table, else the place of that table, not a translation |
| PagingOps.WalkInMemory | kernel/memory/malloc.c:119-141 | every table the walk dereferences is a page that alloc_page handed out |
| PagingOps.MapPagesRefines | kernel/memory/paging.c:81-121 | n iterations of map_virtual refine an update of the flat map, the last write winning when the range laps the 48-bit space, and take exactly one page for each position without a table; the bits of the leaf are the subject of PagingBits |
| PagingOps.MapVirtualReadsBack | kernel/memory/paging.c:81-121 | after map_virtual of page-aligned addresses get_physical_address sends each address of the range to pa plus its offset, and every other 4 KiB translation whose page holds no address of the range is unchanged |
| PagingOps.MapBlocksRefines | kernel/memory/paging.c:27-79 | n iterations of map_identity or map_framebuffer refine an update of the flat map, keep the tree, and take exactly one page for each missing directory |
| PagingOps.MapIdentityCoverage | kernel/memory/paging.c:27-52 | map_identity covers its whole range if and only if the misaligned head fits in the last 2 MiB step |
| PagingOps.MapIdentityAligned | kernel/memory/paging.c:27-52 | from a 2 MiB-aligned start every address of the range satisfies virt_to_phys(a) == a, and translations of blocks that hold no address of the range stay |
| PagingOps.MapIdentityMissesTail | kernel/memory/paging.c:27-28 | a concrete misaligned call leaves the last byte of its range with its old translation |
| PagingOps.UnmapPageRemovesOne | kernel/memory/malloc.c:95-117 | unmap_page keeps the tree and removes the translation of exactly one page |
| PagingOps.UnmapDescent | kernel/memory/malloc.c:98-113 | the descent of unmap_page finds the page table of the hardware walk or stops where that walk stops, reading allocated tables only |
| PagingRuns.ApplyRefines | kernel/memory/paging.c:19-121 | each of alloc_page, map_identity, map_framebuffer, map_virtual and unmap_page keeps the tree, moves the bump pointer by exactly its new tables, and acts on the flat map as its effect says |
| PagingRuns.RunRefinesFlatMap | kernel/memory/paging.c:19-121 | every legal run of the five operations keeps the tree, stays below the page frames and refines the same run on a flat map |
| PagingRuns.BootIsEmptyTree | kernel/memory/paging.c:245-248 | the state that init_paging starts from satisfies the invariant and maps nothing |
| PagingRuns.TablesFormATree | kernel/memory/paging.c:19-121 | after any legal run from boot each table page is reached by one path, lies below the bump pointer and so below the first page frame, and its non-present entries are zero |
| PagingRuns.TablesActAsFlatMap | kernel/memory/malloc.c:119-141 | after any legal run from boot the two walkers return what the flat run leaves for the page |
| PagingBits.MapVirtualAccess | kernel/memory/paging.c:81-121 | after map_virtual the walk of every page of the range meets, on all four levels, entries that are present, writable, supervisor-only, cached and executable |
| PagingBits.MapIdentityAccess | kernel/memory/paging.c:27-52 | after map_identity every page of a block it lands in is writable, supervisor-only and cached, its leaf a large page |
| PagingBits.MapFramebufferAccess | kernel/memory/paging.c:54-79 | after map_framebuffer the same, with PCD and PWT set in the leaf |
| PagingBits.RunPlain | kernel/memory/paging.c:19-121 | every legal run from boot links every table by a writable, supervisor-only, cached entry |
| PagingBits.LeavesAre | kernel/memory/paging.c:49-118 | the leaves that a run leaves on the flat map carry the rights of their kind |
| PagingBits.RunAccess | kernel/memory/paging.c:19-121 | after any legal run from boot no mapped page is read-only or reachable from user code, on any level of its walk |
| PagingBits.LinkPlain | kernel/memory/paging.c:93-114 | linking a fresh table leaves every pointer of the tree with these rights |
| PagingBits.PutPlain | kernel/memory/paging.c:117-118 | so does storing a leaf |
| TableBudget.RunCost | kernel/memory/paging.c:17-121 | after a legal run from boot the bump pointer stands one page behind 0x4000 for the PML4, each call of alloc_page and each distinct position the run passed through |
| TableBudget.RunFitsExactlyWhen | kernel/memory/paging.c:17-121 | a run keeps its tables below the page frames if and only if it suits the flat map and uses at most 252 tables |
| TableBudget.MissingIsNew | kernel/memory/paging.c:93-114 | the tables an operation has to add are exactly the positions that no earlier operation passed through |
| TableBudget.CountedStep | kernel/memory/paging.c:19-121 | every operation keeps the link between the positions passed through and the tables that exist, page tables dropped under large pages included |
| TableBudget.TablesClearOfFrames | kernel/memory/malloc.c:14-40 | no table page of a legal run is a frame that palloc_page can hand out |
| TableBudget.NextTableIsFirstFrame | kernel/memory/paging.c:17-25 | after 252 tables the next page of alloc_page is the frame that palloc_page picks first |
| WindowBudget.WindowCost | kernel/memory/malloc.c:172-178 | the first m pages of the DMA window need two directories and one page table for every 512 of them |
| WindowBudget.WindowAffords | kernel/memory/malloc.c:172-178 | that many free table pages are enough for any window pages below the m-th |
| WindowBudget.SweepFitsExactlyWhen | kernel/memory/malloc.c:157-203 | a fresh kernel can map and unmap the window page by page up to page m if and only if m is at most 249 * 512 |
| WindowBudget.SweepMeetsFirstFrame | kernel/memory/malloc.c:157-203 | the sweep of 249 * 512 pages, short of the window, leaves the bump pointer on the first page frame |
| PageTableCode.PageTables.constructor | kernel/memory/paging.c:245-248 | initial state: one cleared PML4 at the first free page |
| PageTableCode.PageTables.AllocPage | kernel/memory/paging.c:19-25 | returns the bump pointer, advances it one page and clears the page |
| PageTableCode.PageTables.NextTable | kernel/memory/paging.c:93-98 | follows a slot, linking a fresh table when it is empty |
| PageTableCode.PageTables.DescendToPd | kernel/memory/paging.c:29-47 | finds or builds the page directory of an address and keeps the invariant |
| PageTableCode.PageTables.MapVirtual | kernel/memory/paging.c:81-121 | the loop over array entries equals the functional map_virtual and its flat effect, and takes exactly the missing tables |
| PageTableCode.PageTables.MapOnePage | kernel/memory/paging.c:83-120 | the loop body writes one leaf for one virtual page |
| PageTableCode.PageTables.MapIdentity | kernel/memory/paging.c:27-52 | the loop equals the functional map_identity and keeps the invariant; a range that wraps past the end of the 64-bit space changes nothing |
| PageTableCode.PageTables.MapFramebuffer | kernel/memory/paging.c:54-79 | the loop equals the functional map_framebuffer, with the uncached flags, and keeps the invariant; a range that wraps past the end of the 64-bit space changes nothing |
| PageTableCode.PageTables.MapOneBlock | kernel/memory/paging.c:28-51 | the loop body writes one large leaf for one block |
| PageTableCode.PageTables.UnmapPage | kernel/memory/malloc.c:95-117 | removes one page from the flat map, nothing else |
| PageTableCode.PageTables.GetPhysicalAddress | kernel/memory/malloc.c:119-141 | returns the frame of the page's translation plus the offset, or 0 |
| PageTableCode.PageTables.VirtToPhys | kernel/memory/paging.c:318-336 | returns the walk's result, which is the address itself where the block is identity-mapped |
| DmaPool.FirstFree | kernel/memory/malloc.c:42-50 | the lowest clear bit, all bits before it being set |
| DmaPool.TakesLowestFree | kernel/memory/malloc.c:172-178 | the allocation loop takes the lowest free frames in increasing order, sets exactly their bits, and stops short only when none is left |
| DmaPool.TakeMaps | kernel/memory/malloc.c:172-178 | the window pages the loop maps, page by page, and every other window page unchanged |
| DmaPool.ReleaseShape | kernel/memory/malloc.c:186-203 | freeing unmaps exactly the window pages of the buffer and clears exactly the bits of the frames behind them |
| DmaTheorems.NullExactlyWhenExhausted | kernel/memory/malloc.c:157-183 | NULL if and only if the page count exceeds the free frames, and then no frame is free afterwards |
| DmaTheorems.TakeAgreesIff | kernel/memory/malloc.c:172-178 | the loop keeps bitmap and tables in agreement if and only if it writes unmapped window pages only |
| DmaTheorems.PallocAgreesIff | kernel/memory/malloc.c:157-183 | wrapped or not, an allocation keeps the agreement if and only if its target pages hold no live mapping |
| DmaTheorems.WrapOntoLivePage | kernel/memory/malloc.c:165-167 | a run from the empty pool, without a wrap, to a state in which the next allocation wraps, maps over a live buffer and breaks the agreement |
| DmaTheorems.CursorReaches | kernel/memory/malloc.c:159-170 | with one page live the cursor can be moved to any page of the window by allocating and freeing others |
| DmaTheorems.OverwrittenIsLost | kernel/memory/malloc.c:172-178 | the frame of a live mapping that the loop overwrites stays marked used with nothing behind it |
| DmaTheorems.PallocKeepsInv | kernel/memory/malloc.c:157-183 | before the first wrap every allocation, failed ones included, keeps the invariant |
| DmaTheorems.PfreeKeepsInv | kernel/memory/malloc.c:186-203 | every free of window addresses keeps the invariant |
| DmaTheorems.BitmapAgreesWithTables | kernel/memory/malloc.c:157-203 | in every state of every run before the first wrap, a bit is set if and only if exactly one window page translates to its frame |
| DmaTheorems.PallocThenPfree | kernel/memory/malloc.c:157-203 | freeing what was just allocated restores the whole bitmap and every window translation |
| DmaLifo.EveryBufferIsContiguous | kernel/memory/malloc.c:157-203 | in every run that frees only the newest unfreed buffer, leaks allowed, each successful allocation occupies consecutive frames from the returned physical address |
| DmaLifo.ContiguousExactlyWhen | kernel/memory/malloc.c:42-50 | one allocation is contiguous if and only if the frames after the first free one are free too |
| DmaLifo.RunKeepsShape | kernel/memory/malloc.c:157-203 | used frames stay a prefix of the pool plus what failed allocations leaked at the end, tiled by the live buffers |
| DmaLifo.AcquireKeeps | kernel/memory/malloc.c:157-183 | an allocation extends the prefix by its pages, or fails and leaks the gap |
| DmaLifo.ReleaseKeeps | kernel/memory/malloc.c:186-203 | freeing the newest buffer takes its pages off the prefix |
| DmaTransfer.ReadsBackExactlyWhenConsecutive | drivers/storage/ahci.c:164-168 | data up to the size of the buffer, stored from the first physical address, reads back through the window for every content if and only if the frames are consecutive |
| DmaBytes.PagesHold | kernel/memory/malloc.c:159-159 | a request is rounded up to the fewest pages that hold it, or to none when the rounding leaves 64 bits |
| DmaBytes.StartIs | kernel/memory/malloc.c:161-167 | a buffer starts at the cursor rounded up to a page if it fits behind it in the 512 MiB window, else at the bottom |
| DmaBytes.AllocatedBytes | kernel/memory/malloc.c:157-183 | a successful allocation maps every byte asked for and no page that holds none of them, returns the physical address behind byte 0, and moves the cursor to the next page behind the last byte |
| DmaBytes.AllocatedFresh | kernel/memory/malloc.c:157-183 | before the first wrap the pages of every byte are new, and the frame behind it was free and belongs to no other page |
| DmaBytes.EveryByteMappedExactlyWhen | kernel/memory/malloc.c:157-183 | all bytes of a successful request are mapped if and only if rounding its size up does not leave 64 bits |
| DmaBytes.NullExactlyWhenTooLarge | kernel/memory/malloc.c:172-174 | NULL if and only if the free frames hold fewer bytes than asked for |
| DmaBytes.FreedBytes | kernel/memory/malloc.c:186-203 | after a free no byte of the buffer is mapped, every page that holds none of its bytes is as before, and exactly the frames behind its bytes are free |
| DmaBytes.EveryBufferBringsBack | drivers/storage/ahci.c:164-168 | in every run that frees only the newest buffer, what the controller stores from the physical address on, up to the size asked for, is read back through the buffer byte by byte |
| FatBuffers.LookupReadsExactlyWhen | fs/vfs.c:101-274 | after any series of lookups, successful or not, before the first wrap: with n pages to a cluster, the next one gets a buffer if and only if the buffers leaked by the successful ones and its own fit in 512 frames, and then any cluster reads back through it |
| FatBuffers.LookupsReach | fs/vfs.c:101-274 | the leaked buffers are the used prefix of the pool as long as all fitted, and the cursor has moved by one buffer per lookup |
| FatBuffers.GapBufferReads | fs/vfs.c:104-115 | in a prefix-shaped pool a request is served if and only if its bytes fit in the gap, and then any content comes back |
| DmaAllocatorCode.DmaAllocator.constructor | kernel/memory/malloc.c:5-13 | an unmapped window is the empty pool |
| DmaAllocatorCode.DmaAllocator.DmaAllocPage | kernel/memory/malloc.c:42-50 | marks and returns the first free frame, or returns 0 and changes nothing |
| DmaAllocatorCode.DmaAllocator.BackNextPage | kernel/memory/malloc.c:173-178 | one iteration: frame allocated and mapped, or pool empty; no translation outside the window moves |
| DmaAllocatorCode.DmaAllocator.ReserveWindow | kernel/memory/malloc.c:159-170 | aligns the cursor, starts over at the end of the window, and reserves the mapped size |
| DmaAllocatorCode.DmaAllocator.BackPages | kernel/memory/malloc.c:172-180 | the loop over the bitmap array and the page tables takes exactly the frames of the specification and reports the first |
| DmaAllocatorCode.DmaAllocator.PallocAlignedDMA | kernel/memory/malloc.c:157-183 | bitmap, tables, cursor and both addresses equal the specification; every byte asked for translates into the pool, the first one to the address returned; nothing outside the window changes |
| DmaAllocatorCode.ByteTranslates | kernel/memory/malloc.c:119-141 | get_physical_address of a byte of the window is what the map of the window says, or 0 |
| DmaAllocatorCode.PallocAffords | kernel/memory/malloc.c:157-183 | before the first wrap an allocation has its tables if two directories and a page table for every 512 window pages up to the cursor fit |
| DmaAllocatorCode.DmaAllocator.ReleasePage | kernel/memory/malloc.c:191-202 | one page freed through its own translation |
| DmaAllocatorCode.DmaAllocator.PfreeAlignedDMA | kernel/memory/malloc.c:186-203 | bitmap and tables equal the specification; no byte of the buffer translates any more; nothing outside the window changes |
| PhysPages.Scan | kernel/memory/malloc.c:21-28 | the lowest clear bit of a range, all bits before it being set |
| PhysPages.PickIsComplete | kernel/memory/malloc.c:20-40 | the two scans return NULL if and only if all tracked pages are in use, else they name a free page |
| PhysPages.PickIsNextFit | kernel/memory/malloc.c:20-40 | the page picked is the lowest free one from the last position on, or the lowest of all if there is none, and taking it sets its bit only |
| PhysPages.UsedPageStaysOut | kernel/memory/malloc.c:20-61 | over every run a page in use is not handed out while nobody frees it |
| PhysPages.NoDoubleHandOut | kernel/memory/malloc.c:20-61 | over every run a page is handed out twice only with a free of that page in between |
| PhysPages.FreesOwnPageExactlyWhen | kernel/memory/malloc.c:53-61 | free_phys_page clears its own page's bit, or none beyond the pool, if and only if the conversion to int does not alias a tracked page |
| PhysPages.PageGivenBack | kernel/memory/malloc.c:53-61 | freeing any address inside a page that was handed out clears its bit and no other |
| PhysPages.FreeAliasesPageZero | kernel/memory/malloc.c:53-61 | a concrete far address that frees tracked page 0 |
| PhysPages.TouchesRun | kernel/memory/malloc.c:214-237 | a reservation loop reserves a run of whole pages, one per step, including addresses below the base that wrap away |
| PhysPages.ReservationCovers | kernel/memory/malloc.c:214-237 | every tracked page that overlaps the region is reserved if and only if the misaligned head fits in the last step |
| PhysAllocatorCode.PhysAllocator.PallocPage | kernel/memory/malloc.c:20-40 | the two loops hand out the specification's page and advance the position behind it |
| PhysAllocatorCode.PhysAllocator.FreePhysPage | kernel/memory/malloc.c:53-61 | clears one bit or none, as the specification says |
| PhysAllocatorCode.PhysAllocator.Reserve | kernel/memory/malloc.c:213-218 | sets exactly the bits of the pages its steps land on, for every region on which the loop ends |
| PhysAllocatorCode.PhysAllocator.InitPhysAllocator | kernel/memory/malloc.c:205-237 | after initialisation exactly the kernel, AHCI, ABAR and heap regions are reserved besides what was, an ABAR end that wraps included |
| Kheap.BlocksAreDisjoint | kernel/memory/malloc.c:68-79 | over every series of calls the blocks are 8-aligned, in order, disjoint, and inside the bytes demanded |
| Kheap.InsideHeapExactlyWhen | kernel/memory/malloc.c:68-79 | all blocks lie below an aligned limit such as the end of the mapped heap if and only if the rounded sizes fit |
| Kheap.NextBlock | kernel/memory/malloc.c:68-79 | an aligned request at an aligned cursor gets the cursor itself, and the cursor moves by exactly its size |
| KheapCode.Heap.Kmalloc | kernel/memory/malloc.c:68-79 | hands out the next block of the series and moves the cursor behind it |
| FatDisk.SetU32Reads | fs/vfs.c:492-494 | a stored little-endian word reads back and no other aligned word moves |
| FatDisk.NewEntry | fs/vfs.c:492-494 | the merged entry keeps its upper four bits and takes the value's lower 28 |
| FatLock.EntriesFoundExactlyWhen | fs/vfs.c:466-476 | the 32-bit sector and offset find every entry of every mirror if and only if neither the byte offsets of a FAT nor its sector numbers leave 32 bits |
| FatLock.StepKeepsInv | fs/vfs.c:465-507 | every step of every thread, disk failures included, keeps the invariant of lock, log and mirrors |
| FatLock.RunKeepsInv | fs/vfs.c:465-507 | the invariant over all interleavings |
| FatLock.StartInv | fs/spinlock.h:10-12 | the freshly initialised lock satisfies the invariant |
| FatLock.AcquireKeeps | fs/spinlock.h:14-21 | a successful test-and-set makes its thread the only holder |
| FatLock.ReleaseKeeps | fs/spinlock.h:23-25 | a release leaves the lock free with the holder's write fully accounted for |
| FatLock.UpdatesAreSerialised | fs/vfs.c:465-507 | for any number of threads and any interleaving at most one is in the critical section, every mirror is the replay of the writes that reached it in the order of the log, and sectors outside the FAT never change |
| FatLock.MirrorsAgree | fs/vfs.c:465-507 | without disk errors, whenever the lock is free mirrors that agreed agree and equal the initial FAT with all logged writes applied in order |
| FatLock.UpdateIsOneEntry | fs/vfs.c:492-494 | one write changes the low 28 bits of the named entry and no other entry |
| FatLock.SerialEntry | fs/vfs.c:473-506 | after all logged writes an entry holds the last value written to it, upper four bits as at the start |
| FatLock.QuiescentEntries | fs/vfs.c:465-507 | without disk errors, whenever the lock is free each entry of each mirror holds the last value logged for it in its low 28 bits and its initial upper four |
| FatCalls.LogIsRequests | fs/vfs.c:465-507 | failures included, the log lists the arguments of the calls in the order of the steps that took the lock, read off the list of steps alone, and the lock is as the steps left it |
| FatCalls.CallsReachEveryMirror | fs/vfs.c:465-507 | after any steps without a failure that leave the lock free, the word at byte 4 * c of every mirror holds in its low 28 bits what the last call for c asked for, and its initial upper four bits |
| FatCalls.CallCompletes | fs/vfs.c:465-507 | from every reachable state with a free lock a call of an idle thread runs to its end |
| FatCalls.StepExplained | fs/vfs.c:465-507 | every step keeps the threads on the arguments of their own calls |
| FatLock.StoreInCopy | fs/vfs.c:475-504 | storing a FAT sector of one mirror changes that mirror at that sector and no other mirror |
| FatWriterCode.FatWriter.Fat32WriteFATEntry | fs/vfs.c:465-507 | under the lock the loop over the mirrors stores the value asked for into the word at byte 4 * c of each in order and changes no other word or sector; on a failed allocation, read or write exactly the mirrors before it are updated, and every exit frees the lock |
| FatWriterCode.FatWriter.AcquireLock | fs/spinlock.h:14-21 | the test-and-set of a free lock takes it |
| FatWriterCode.FatWriter.ReleaseLock | fs/spinlock.h:23-25 | leaves the lock free |
| FatChain.Next | fs/vfs.c:44-89 | the link is a usable cluster number or the end marker, for every FAT content |
| FatChain.ContentAt | fs/vfs.c:301-391 | byte x of the concatenated chain is byte x mod the cluster size of cluster x div it |
| FatChain.FileBytesAreSlice | fs/vfs.c:301-391 | bytes the reader calls a file slice equal the slice of the concatenated cluster data |
| FatChain.ReadSuffices | fs/vfs.c:323-388 | a request met within i clusters had every needed cluster within reach of one call |
| FatChain.ReadFallsShort | fs/vfs.c:323-388 | a request that runs into the end of the chain, an unreadable cluster or the 4096 limit was out of reach |
| FatChain.ProgressStep | fs/vfs.c:334-380 | copying from one more cluster extends the slice by exactly the next bytes |
| FatReaderCode.FatReader.AhciRead | drivers/storage/ahci.c:143-216 | all the sectors asked for, or a reported failure |
| FatReaderCode.FatReader.Fat32NextCluster | fs/vfs.c:44-89 | the chain's next link, or the end marker after a failed read |
| FatReaderCode.FatReader.Seek | fs/vfs.c:316-321 | terminates on every FAT, cyclic ones included, at the cluster and offset of the first byte |
| FatReaderCode.FatReader.CopyClusters | fs/vfs.c:323-388 | terminates on every FAT; what is copied is a file slice, and exactly the part of the request that is readable, on the chain and within 4096 clusters |
| FatReaderCode.FatReader.CopyNext | fs/vfs.c:329-386 | one iteration extends the slice and follows the link, or shows the request out of reach |
| FatReaderCode.FatReader.CopyOneCluster | fs/vfs.c:334-370 | copies the named bytes of one cluster to their place and nothing else |
| FatReaderCode.WantedInsideExactlyWhen | fs/vfs.c:301-314 | the clipped request ends inside the file if and only if offset plus size does not wrap to a number up to the file size |
| FatFile.ReaderFollows | fs/vfs.c:44-89 | a list of clusters linked by the words at byte 4 * c of the FAT and closed by an end mark is what the reader walks, cluster by cluster, and behind the last one the chain ends |
| FatFile.NextReads | fs/vfs.c:44-89 | the link read is the low 28 bits of the word at byte 4 * c |
| FatFile.ByteFound | fs/vfs.c:323-388 | byte x of a stored file is byte x mod the cluster size of its cluster x div it, cluster c starting spc * (c - 2) sectors behind the first data sector |
| FatFile.FileWithinReach | fs/vfs.c:323-388 | of a stored file exactly the bytes up to the 4096th cluster from the offset on are within reach of one call |
| FatFile.ReadIsData | fs/vfs.c:301-391 | what a read copies of a stored file is its data from the offset on, as much as was asked for or as the 4096 clusters allow |
| FatFormat.FormatHoldsFile | fs/vfs.c:44-391 | for every file that fits there is a volume, laid out byte by byte, that holds it |
| FatWritten.ReaderFollowsWrites | fs/vfs.c:44-507 | the chain that concurrent calls of Fat32WriteFATEntry asked for is the chain that the reader follows, on every mirror |
| FatReaderCode.FatReader.Fat32Read | fs/vfs.c:301-391 | refusals, end of file and the clipped length with its 64-bit wrap; the first n bytes of the buffer are the file's bytes from the offset on, n is exactly how far the chain allows it, the rest of the buffer is untouched; of a stored file n is the smallest of the size asked for, the rest of the file and the rest of 4096 clusters, and the bytes are its data |
| FatDirectory.StrCaseCmpIsFoldEquality | Include/kstring.c:91-98 | strcasecmp returns 0 if and only if the names are equal after ASCII case folding |
| FatDirectory.StrCaseCmpIsDifference | Include/kstring.c:91-98 | for other names it returns the difference at the first index where the folded strings, terminators included, differ |
| FatDirectory.FoldIs | Include/kstring.c:85-98 | folded names are equal if and only if they are equal letter by letter up to the case of A to Z |
| FatDirectory.CStr | fs/vfs.c:206-210 | the string in a buffer is the bytes before its first NUL |
| FatDecode.CopyFragmentCopies | fs/vfs.c:174-196 | the three copy loops put the units of one long-name entry at its place, up to the end of the name |
| FatDecode.AssembleFills | fs/vfs.c:165-204 | long-name entries in any order fill exactly the positions they cover |
| FatDecode.LongNameDecodes | fs/vfs.c:163-214 | all fragments of a name, in any order, rebuild the name |
| FatDecode.ShortNameDecodes | fs/vfs.c:219-235 | a padded 8.3 entry decodes to base, dot and extension |
| FatDecode.FieldsDecode | fs/vfs.c:253-258 | first cluster, size and directory bit read from an entry are the numbers written into its bytes 20, 21, 26 to 31 and 11 |
| FatDecode.GroupDecodes | fs/vfs.c:131-236 | a well-formed group, deleted entries anywhere, presents the item's name as the candidate |
| FatDecode.ScanGroup | fs/vfs.c:138-156 | scanning a group collects its undeleted long-name entries in order |
| FatDecode.LookupFindsFirst | fs/vfs.c:131-241 | over any well-formed directory cluster the scan stops at the first item whose name matches up to case, with its name, cluster, type and size, or finds nothing when none matches |
| FatEncode.EncoderIsWellFormed | fs/vfs.c:131-236 | what the format's encoder writes for a list of files is a well-formed directory cluster |
| FatEncode.LookupOfEncoded | fs/vfs.c:131-241 | encode then scan: the first matching file is found under its whole name with the cluster, type and size that were encoded, or nothing is |
| FatEncode.FragmentIsFragment | fs/vfs.c:141-196 | an encoded long-name entry carries order, attribute and the thirteen units of its part of the name |
| FatEncode.ShortEntryIsShort | fs/vfs.c:219-258 | an encoded short entry carries name, attributes, cluster and size at the bytes of the format |
| FatNode.NodeByte | fs/vfs.c:243-261 | every byte from the node on: the field stored last there, else what strcpy left, else a cleared or an old byte |
| FatNode.BeforeNode | fs/vfs.c:243-261 | no byte before the node changes |
| FatNode.NodeLayout | fs/vfs.h:20-47 | the offsets of the model are those that the ABI gives the struct |
| FatNode.TypeAndClusterReadBack | fs/vfs.c:252-258 | type (2 for directories, 1 for files) and first cluster read back for every name |
| FatNode.LinksReadBack | fs/vfs.c:259-261 | parent, operations and file system data read back for every name |
| FatNode.SizeReadsBackExactlyWhen | fs/vfs.c:250-256 | the size reads back if and only if the entry is a file or its name has at most 64 bytes |
| FatNode.ChildrenReadBackExactlyWhen | fs/vfs.c:250-252 | a fresh node has no children if and only if its name has at most 32 bytes, and a child count of 0 if and only if it has at most 40 |
| FatNode.NameReadsBackExactlyWhen | fs/vfs.c:250-253 | the name reads back if and only if it has at most 15 bytes |
| FatNode.BehindUntouchedExactlyWhen | fs/vfs.c:250-252 | whatever lies behind the node keeps its value if and only if the name is shorter than the node |
| FatNode.NodeRightExactlyWhen | fs/vfs.h:20-47 | name, type, size and first cluster are the entry's, there are no children and nothing behind the node changed, if and only if the name has at most 15 bytes |
| FatNode.ControlByteHidesOverrun | fs/vfs.c:250-253 | a 17-byte name that ends in the type byte reads back all the same |
| FatNodeCode.NodeHeap.constructor | kernel/memory/malloc.c:10-12 | a cleared heap with nothing handed out |
| FatNodeCode.NodeHeap.Write | fs/vfs.c:252-252 | the bytes given are in place and nothing else changed |
| FatNodeCode.NodeHeap.Fill | fs/vfs.c:250-261 | memset, strcpy and the field stores over the heap array equal the specification |
| FatNodeCode.NodeHeap.NewNode | fs/vfs.c:243-261 | the node is the next 72 bytes of the heap, filled as specified |
| FatLookupCode.LookupInFindsFirst | fs/vfs.c:91-241 | in a readable, well-formed first cluster the scan finds the first file of that name, or nothing; what the returned node keeps of it is the next rows' subject |
| FatLookupCode.LookupNodeRightExactlyWhen | fs/vfs.c:91-265 | a lookup in a readable, well-formed first cluster hands out a node that is right for the first file of that name if and only if the name has at most 15 bytes |
| FatLookupCode.LongNameSpoilsNode | fs/vfs.c:243-263 | a directory under a name of 80 letters, encoded and looked up, comes back with another name, a size, children and an overwritten byte behind its node |
| FatLookupCode.FoundIsEntrylike | fs/vfs.c:141-263 | whatever the cluster holds, a found name is a C string below 256 bytes and the numbers fit their fields |
| FatStored.StoredDirectoryIsSearched | fs/vfs.c:91-241 | a lookup in a directory stored on the volume finds the first item of that name, with the numbers written into its entry |
| FatStored.FoundAndRead | fs/vfs.c:91-391 | a file stored on the volume and listed in a stored directory: the lookup of its name and a read of what it found copy its data |
| FatStored.WalkDescends | fs/vfs.c:276-299 | a path through stored directories ends at the item that the last one lists |
| FatStored.SegmentsOfJoined | fs/vfs.c:279-297 | the components of a path are the names it was joined from |
| FatLookupCode.SegmentsAreRuns | fs/vfs.c:279-297 | path components are the maximal slash-free runs of the path |
| FatLookupCode.Directory.CopyEntry | fs/vfs.c:174-196 | the copy of one entry into the name buffer equals the specification |
| FatLookupCode.Directory.RebuildLongName | fs/vfs.c:163-214 | the rebuilt candidate equals the specification |
| FatLookupCode.Directory.BuildShortName | fs/vfs.c:219-235 | the 8.3 candidate equals the specification |
| FatLookupCode.Directory.Search | fs/vfs.c:131-269 | the loop over the entries with its pending list finds what the scan finds; a match gets the next node of the heap, filled for it, and without one the heap is untouched |
| FatLookupCode.Directory.Fat32Lookup | fs/vfs.c:91-274 | the node handed out is the one filled for what the scan of the first directory cluster finds, right if and only if the name has at most 15 bytes, and linked to the directory it was found in; NULL and an untouched heap otherwise, which without disk failure means that nothing was found |
| FatLookupCode.Directory.Fat32Open | fs/vfs.c:276-299 | the walk looks up the components in order from the root or the current node and gives NULL from the first missing one on; of the last node type and first cluster are the file's, size and name under their exact conditions |
| ElfImage.AlignedSegmentReads | fs/ext/elf.c:72-117 | an installed page-aligned segment reads as file bytes below p_filesz and zeros above |
| ElfImage.SegmentReads | fs/ext/elf.c:114-114 | without alignment each byte comes out shifted by the page offset of p_vaddr |
| ElfImage.ImageRightExactlyWhenAligned | fs/ext/elf.c:114-114 | for every file content the image is right if and only if p_vaddr is page-aligned or the file part is empty |
| ElfLoaderCode.MapOneMore | fs/ext/elf.c:84-110 | a frame just allocated extends the mapped part of the segment and belongs to no other page |
| ElfLoaderCode.CopyOneByte | fs/ext/elf.c:114-114 | a byte stored through the mapping extends the installed image by that byte |
| ElfLoaderCode.OneMoreDone | fs/ext/elf.c:72-117 | loading one more segment keeps the earlier segments, the other pages and all memory taken before |
| ElfLoaderCode.LoadedImage | fs/ext/elf.c:72-117 | after a load every address of a page-aligned segment reads as its header describes, from a frame that was free before and that no other page uses |
| ElfFile.HeaderReadsBack | fs/ext/elf.c:56-77 | of an executable laid out byte by byte the loader reads magic, table offset, count and every program header as they were written |
| ElfFile.FileIsLoadable | fs/ext/elf.c:56-119 | such a file meets what Elf64Load needs |
| ElfFile.RightsOf | fs/ext/elf.c:88-100 | the pages of a segment are present, writable and for user code, and executable if and only if its header asks for it |
| ElfFile.ProcessSees | fs/ext/elf.c:56-119 | after loading the file every byte of a page-aligned segment is the byte of its content, or zero behind it, on a page that is executable if and only if the segment asks for it |
| ElfLoaderCode.Loader.MapUserPage | kernel/memory/paging.c:165-209 | assumed contract of the user mapper: installs one page, changes no other |
| ElfLoaderCode.Loader.AddPage | fs/ext/elf.c:85-108 | allocates one free frame, zeroes it and maps it with the given flags; when none is left, page 0 is zeroed and mapped instead |
| ElfLoaderCode.Loader.MapSegment | fs/ext/elf.c:79-110 | maps exactly the pages of the segment to zeroed frames of their own |
| ElfLoaderCode.Loader.CopyIn | fs/ext/elf.c:114-114 | the copy fills the segment's pages with the file bytes and touches no other frame |
| ElfLoaderCode.Loader.Elf64Load | fs/ext/elf.c:56-119 | refuses a bad magic unchanged; else all loadable segments are in place and everything else is as before |
| Ahci.ExactTransferExactlyWhenFits | drivers/storage/ahci.c:234-254 | the controller reads exactly the caller's buffer, byte for byte and in order, if and only if no 32-bit step overflows |
| Ahci.FetchFrom | drivers/storage/ahci.c:245-254 | from any descriptor on, the table yields the rest of the buffer in order |
| Ahci.EntryShape | drivers/storage/ahci.c:245-254 | every descriptor is at most 256 KiB with an odd dbc, and only the last interrupts |
| Ahci.PrdCount | drivers/storage/ahci.c:234-237 | the descriptor count is the exact round-up of the 32-bit byte count, or zero when the sum overflows |
| Ahci.StaysInSlotExactlyWhen | drivers/storage/ahci.c:130-137 | the command table stays inside its 256-byte slot if and only if the request has at most 4096 sectors |
| Ahci.ReadIsExactExactlyWhen | drivers/storage/ahci.c:164-168 | the single read descriptor names the buffer exactly if and only if it lies below 4 GiB and 1 to 8192 sectors are read |
| Ahci.FisNamesTheRequest | drivers/storage/ahci.c:170-272 | the device takes the FIS of a write for WRITE DMA EXT and that of a read for READ DMA EXT, at the LBA modulo 2^48, for the caller's count if and only if it is 1 to 65536 |
| Ahci.WriteIsCommandedExactlyWhen | drivers/storage/ahci.c:229-272 | a slot laid out for a write makes the controller send that write and move exactly the caller's bytes if and only if it is for 1 to 65536 sectors |
| Ahci.ReadIsCommandedExactlyWhen | drivers/storage/ahci.c:154-186 | the same for a read if and only if the buffer lies below 4 GiB and 1 to 8192 sectors are read |
| Ahci.DigitsReadBack | drivers/storage/ahci.c:262-269 | little-endian bytes recompose the value modulo their width |
| AhciCode.Port.FindCmdslot | drivers/storage/ahci.c:35-42 | the lowest slot neither active nor issued, or -1 if and only if all 32 are busy |
| AhciCode.Port.FillTable | drivers/storage/ahci.c:245-254 | the loop that counts the bytes down writes the specified descriptors and nothing else |
| AhciCode.Port.ClearTable | drivers/storage/ahci.c:240-242 | clears the slot's table as far as its descriptors reach |
| AhciCode.Port.AHCIWriteToStorage | drivers/storage/ahci.c:218-298 | no free slot fails unchanged; else header, FIS and descriptors are laid out in the lowest free slot, which then commands the write asked for and is issued unless the device times out |
| AhciCode.Port.AhciRead | drivers/storage/ahci.c:143-216 | the same for a read with its single descriptor; done only if the slot was issued |
| Madt.StepReadsRecord | acpi/madt.c:108-163 | each encoded record is read back as itself |
| Madt.WalkReadsRecords | acpi/madt.c:94-164 | the walk steps over encoded records one by one, from any state of the tables |
| Madt.ParseRecoversRecords | acpi/madt.c:87-165 | parsing a serialised table, or one that breaks off at a bad header, adds the overrides in order up to 24 and leaves what the enabled CPUs and I/O APICs stored in order |
| Madt.TableRecovered | acpi/madt.c:87-165 | a whole table, header and length included, is parsed to its records |
| Madt.TableAnswers | acpi/madt.c:87-174 | after parsing a table with at most 24 overrides every IRQ is answered by its first override record, or by itself |
| Madt.OnlyTheLastIsKept | acpi/madt.c:108-132 | of all enabled CPUs and of all I/O APICs only the last one is kept |
| Madt.StopsAt | acpi/madt.c:94-106 | the walk terminates with the cursor never past the end, and short of it only at a bad header |
| Madt.FirstFor | acpi/madt.c:167-174 | the first stored override for an IRQ |
| Madt.CapIsHarmlessExactlyWhen | acpi/madt.c:144-156 | the cap of 24 changes a lookup if and only if the first override lies behind it and moves the IRQ |
| MadtCode.InterruptTables.TakeRecord | acpi/madt.c:108-163 | the switch over one record, CPUs included, equals the specification, with the forced base of the I/O APIC at 0xFEC00000 and its address stored twice |
| MadtCode.InterruptTables.UEFIParseMADT | acpi/madt.c:87-165 | the overrides, the I/O APIC, its address and the CPU list afterwards, and the final cursor, equal the specification for every table content |
| MadtCode.InterruptTables.UEFIFindGSIForIRQ | acpi/madt.c:167-174 | returns the first stored override of the IRQ, or the IRQ itself |
| Scheduler.ReachFrom | kernel/scheduler/scheduler.c:39-67 | the walk ends at ten tasks, at the end of the pool or at a blocking task, and no task before is blocking |
| Scheduler.ReachIsLongest | kernel/scheduler/scheduler.c:39-67 | that prefix is the only one with these properties |
| Scheduler.CallsOfRun | kernel/scheduler/scheduler.c:12-70 | a run calls every urgent function twice in pool order, if the head of the pool is listed, then once each the listed functions of the ready and waiting tasks up to the tenth, the end, or the first other or null task |
| Scheduler.PoolAfterRun | kernel/scheduler/scheduler.c:12-70 | afterwards urgent tasks are terminated and nothing else has changed |
| Scheduler.SecondRunOnlyWalks | kernel/scheduler/scheduler.c:12-70 | a second run repeats the walk and calls no priority function again |
| Scheduler.BlockedTailIsIgnored | kernel/scheduler/scheduler.c:39-67 | tasks behind a blocking task make no difference to the walk |
| Scheduler.WholePoolExactlyWhen | kernel/scheduler/scheduler.c:16-68 | a run serves the whole pool if and only if it has at most ten tasks and none blocks |
| Scheduler.Round | kernel/scheduler/scheduler.c:39-67 | a round runs the task it stands at and moves on, or stays at a blocking task for good |
| Scheduler.RunningStops | kernel/scheduler/scheduler.c:39-43 | a RUNNING task at the round's position, or the end of the pool, ends the run with all calls made |
| SchedulerCode.TaskScheduler.CreateTask | kernel/scheduler/task.c:29-59 | appends the task with its number and extends the Next chain, or ignores the request when 64 tasks exist |
| SchedulerCode.TaskScheduler.IsFunctionValid | kernel/scheduler/scheduler.c:3-10 | true if and only if the function is listed |
| SchedulerCode.TaskScheduler.RunUrgent | kernel/scheduler/scheduler.c:19-37 | the two rounds over one priority task: called twice if the current task's function is listed, terminated unless null |
| SchedulerCode.TaskScheduler.PriorityPass | kernel/scheduler/scheduler.c:18-38 | the pass over the pool calls each urgent function twice in pool order or none at all |
| SchedulerCode.TaskScheduler.RunRound | kernel/scheduler/scheduler.c:16-67 | one round: the priority pass, then the current task or the end of the run, and the cursor moves on or stays |
| SchedulerCode.TaskScheduler.DoTask | kernel/scheduler/scheduler.c:12-70 | the calls of a whole run are exactly the trace of the specification, priority tasks end terminated, nothing else in the pool changes, and no null task is dereferenced |
| Tokens.RunsAreMaximal | Include/kstring.c:38-58 | the listed runs are maximal delimiter-free runs, in order |
| Tokens.RunsMissNothing | Include/kstring.c:38-58 | every character that is no delimiter lies in a listed run |
| Tokens.StrtokReturnsRuns | Include/kstring.c:38-58 | the k-th call returns the k-th maximal run of the original string, terminated in place by overwriting only the delimiter behind each token; later calls return NULL forever |
| Tokens.SeriesState | Include/kstring.c:38-58 | after k calls the memory is the original with k delimiters overwritten and the cursor behind the k-th token |
| KstringCode.Kstring.Strchr | Include/kstring.c:20-34 | membership in the delimiter set |
| KstringCode.Kstring.Strtok | Include/kstring.c:38-58 | one call on the buffer and the saved cursor equals the specification |
| Decimal.ValueOfNumeral | Include/kstring.c:135-152 | the numeral of a value denotes the value |
| Decimal.NoLeadingZero | Include/kstring.c:135-152 | only zero is written with a leading zero |
| Decimal.NumeralLength | Include/kstring.c:135-152 | 64-bit values need at most 20 digits |
| KstringCode.NumeralReadsBack | Include/kstring.c:206-250 | a numeral is found whole and denotes its value |
| KstringCode.NumeralFound | Include/kstring.c:216-240 | strtoul skips spaces, tabs, newlines and returns, one plus sign, and reads the digits up to the first byte that is none |
| KstringCode.Kstring.Utoa | Include/kstring.c:135-152 | writes the numeral without leading zeros and a terminator, and nothing behind it |
| KstringCode.Kstring.Strtoul | Include/kstring.c:206-250 | for every string: the value with the end behind the digits and errno 0, or ULONG_MAX and ERANGE, with the end at the first digit too many, if and only if the mathematical value exceeds ULONG_MAX |
| KstringCode.OneDigit | Include/kstring.c:225-238 | the overflow check before each digit is exact |
| KstringCode.UtoaThenStrtoul | Include/kstring.c:206-250 | strtoul inverts utoa for every 64-bit value, end at the terminator and errno 0 |
| KstringCode.Kstring.Strcasecmp | Include/kstring.c:91-98 | the comparison loop equals its specification, zero exactly for equality up to ASCII case |

## Left out

- Fat32FindFreeCluster, Fat32CreateFile, Fat32WriteCluster: no clean create-then-read statement holds of them, because a byte index is returned as an entry number and short names are padded with NUL.
- FatWriterCode.FatWriter.Fat32WriteFATEntry: states its effect relative to the FAT base the code computes, which lacks the partition offset that the reading side adds.
- The interior of map_virtual_user and map_virtual_user_advanced, and dump_pte_for_vaddr: their conversion of table addresses returns 0 for low pages, so the ELF loader takes the mapper as an assumption.
- ElfLoaderCode.Loader.MapUserPage: does not model the page tables behind the user mapper.
- FatReaderCode.FatReader.AhciRead: the DMA buffer between disk and caller is not allocated again inside the file model; DmaTransfer proves when such a buffer reads back, and a failed allocation is not modelled there.
- FatReaderCode.FatReader.Fat32NextCluster: does not model its one-page DMA buffer; neither it nor Fat32Lookup stops when the allocation returns NULL, and what the disk then writes to is not modelled.
- FatLookupCode.Directory.Fat32Lookup: its DMA buffer is followed in FatBuffers, not in the class; the heap needs room for the node and the longest name behind it.
- DmaAllocatorCode.DmaAllocator.ReserveWindow: does not model requests so large that their sum with the cursor wraps 64 bits.
- DmaAllocatorCode.DmaAllocator.PallocAlignedDMA: does not model requests so large that their sum with the cursor wraps 64 bits.
- DmaAllocatorCode.DmaAllocator.PfreeAlignedDMA: requires addresses of the DMA window, the only ones the allocator hands out.
- ElfLoaderCode.Loader.MapSegment: requires enough free frames; AddPage says what happens without one.
- ElfLoaderCode.Loader.Elf64Load: requires loadable headers that lie in the file, do not wrap and share no page, and enough free frames.
- FatLookupCode.Directory.Fat32Open: requires path components below 256 characters, the size of the segment buffer.
- FatLock: weak memory effects; each step is atomic, and the sectors of one command move together. A write that times out is outside the model, because its status passes the test for success.
- AhciCode.Port.AHCIWriteToStorage: does not model device polling or the hardware clearing the issue bit; readiness and failure are arbitrary.
- FatWriterCode.FatWriter.AcquireLock: requires a free lock, because one thread alone would spin on a taken one; contention is in FatLock.
- SchedulerCode.TaskScheduler.DoTask: task functions are opaque events; a function that edits the pool is not modelled.
- boot_aps of acpi/madt.c, which starts the CPUs of a list that never has a count.
- The TLB and invlpg, LAPIC, I/O APIC, PIC and PIT programming, PCI, serial and printf output, framebuffer and font drawing, keyboard, shell.
- Assembly stubs, IDT and TSS packing, ring-3 entry, system calls, panic.
- The listing functions of drivers/storage/fat32.c, VFSMountFAT32Root and GPT parsing.
- palloc_aligned, pmm_free, atoi, itoa, xtoa, memcmp and other routines that would add easy members only.

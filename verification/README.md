# terraOS memory stack: a verified model

This project models the memory stack of the terraOS kernel and proves what each layer promises the
next one:

- the **boot pool** and its run of pages (`Pool.dfy`),
- the **physical frame allocator**, one bit per 4 KiB frame, built from the BIOS memory map (`Pmm.dfy`),
- the **virtual memory manager**, which reaches every table below a root through one aliased window,
  `TEMP_PAGE`, on a machine with a TLB (`PageTables.dfy`, `KernelSpace.dfy`, `Addresses.dfy`,
  `MapPath.dfy`, `Vmm.dfy`),
- the **ELF loader** and the **boot path** that use it (`UserSpace.dfy`, `Elf.dfy`, `ElfFormat.dfy`,
  `Program.dfy`, `Loader.dfy`, `Boot.dfy`),
- the **kernel heap**, headers and payloads in one array of bytes (`HeapChunks.dfy`, `HeapSpec.dfy`,
  `HeapRuns.dfy`, `HeapMemory.dfy`, `Kheap.dfy`).

`Words.dfy` and `Bytes.dfy` hold 64-bit words, their bits and their bytes.

## How it is modelled

Code that changes state step by step is a class whose methods change it the same way; each method is
proved against a function or predicate on values, and the laws are proved about those.

*Tables.* Physical memory is a map from frame numbers to 512 words. `PageTables.Entry` is the plain
four-level walk of section 5.3 of the AMD64 Architecture Programmer's Manual, Volume 2: the abstract
address space. A ghost label on each table frame is its index path from a root; `TablesOk` says the
labels agree with the links, so tables form trees. `Vmm.Machine` does what the code does: every load and
store goes through a virtual page, is translated by a cached entry if there is one and by the tables
otherwise, and the window's own entry lies in the tables being edited. `Machine.Valid` is kept by
`map_page`: tables form trees, no frame used as a table is free, the kernel can reach its four tables
and the window from the current root, and every cached translation except those of overwritten pages
(`stale`) is the one in the tables.

*Heap.* `Kheap.Heap` holds the managed bytes. A header is its three fields in memory, little-endian, at
their C offsets. A ghost list of chunks is what following the links yields; `HeapSpec` gives each
operation as a function on that list.

## Main results

- `map_page` changes the entry of one page and no other outside the window, in every address space. In
  all of memory it writes only the walk to that page, the new tables and the window's entry. It takes
  exactly as many frames as tables were missing, and panics exactly when there are fewer
  (`Vmm.Machine.MapPage`); `get_physical_address` then finds what was mapped
  (`Vmm.Machine.MapThenTranslate`). `unmap_page` clears that one word again (`Vmm.Machine.UnmapPage`).
- From power-up: on any memory map and any image with page-disjoint segments, the first program's root
  lies in the lowest usable frame and maps the kernel's linear map, the root itself, the pages of the addresses the image's bytes ask for, with
  every file byte readable at its address and writable exactly as PF_W says, the stack page, and nothing
  else. The stack of the boot path, the memory map, the tables, the bitmap and the heap lie in disjoint
  pool pages in that order, and every frame that is no table and not for allocation holds what it held; a
  bad header is rejected with its code; with four frames for each page asked for, and four more, nothing
  fails (`Boot.KernelMain`, `Loader.CostIsFourEach`).
- The bitmap refines a set of free frames: exactly the usable frames from 512 up after `pmm_init`, the
  minimum taken by `pmm_alloc`, and over any run no frame handed out twice without a free between, nor
  any frame below 512 (`Pmm.Serve`, `Pmm.NoDoubleHandout`, `Pmm.OnlyFreeFrames`).
- Over any run of heap calls the chunk list stays ordered, aligned, free of overlap and coalesced, and
  its bytes plus 32 for every in-place extension are exactly `heap.avail` (`HeapRuns.RunInv`). The blocks
  in use are exactly those handed out and not given back (`HeapRuns.OutstandingExactly`), and when all
  have been given back the heap is one free chunk again, if and only if `heap_end` itself was never
  handed out (`HeapRuns.AllFreed`), which requests of at least one byte ensure
  (`HeapRuns.AllBytesFreed`).
- `krealloc` answers NULL exactly when the block has to move and no chunk fits, the lowest fitting chunk
  when it moves, and its own pointer otherwise (`HeapSpec.KreallocAnswer`); it
  keeps the contents on its grow, shrink and move paths, and no heap operation changes a byte
  of another block in use (`Kheap.Heap.Krealloc`).

## Where the code does less than one might expect

Each of these is stated with its exact condition, and with an input reached from `heap_init` or boot on
which it happens.

- `unmap_page` frees an emptied page table but leaves it linked, and frees frame 0 for an absent entry.
  The invariant holds afterwards if and only if, before the call, the page's table has another present
  entry and the page's entry names a frame of ordinary RAM, frames above the bitmap aside
  (`Vmm.Machine.UnmapPage`). Mapping and unmapping a first page leaves a linked table on the free list
  (`Boot.MapThenUnmap`); unmapping an absent page makes `pmm_alloc` answer NULL with frames left
  (`Boot.UnmapAbsent`).
- `map_page` links a new table before zeroing it; in between, a page below it reads whatever the frame
  held (`MapPath.LinkShowsOldContents`).
- Rounding a request up to 16 wraps exactly above 2^64 - 16 (`HeapChunks.RoundUpEnough`).
- The size comparison of an in-place extension is right exactly when adding the header does not wrap, or
  wraps to more than the next chunk has (`HeapSpec.ExtendGuard`). `krealloc` behaves as its list function
  says if and only if it is; otherwise the block's header claims more bytes than the heap has
  (`Kheap.Heap.Krealloc`). A block of one byte resized to 2^64 - 20 does that (`HeapRuns.MisfireOccurs`,
  `Kheap.OutgrowBlock`).
- An in-place extension puts the rest of the next chunk one header too far: 32 bytes are lost each time
  (`HeapSpec.ExtendInv`), so the chunks tile the heap if and only if there was none
  (`HeapSpec.TilesUnlessExtended`). Growing a block from 16 to 32 bytes leaves the gap
  (`HeapRuns.GapOccurs`).
- `krealloc` follows a null link exactly when the list's last block is to grow
  (`HeapSpec.KreallocAnswer`), as the block of a full heap does (`HeapRuns.FaultOccurs`).
- `kalloc` followed by `kfree` restores the list unless the block is empty and ends the heap: then its
  pointer is `heap_end`, which `kfree` ignores (`HeapSpec.KallocThenKfree`). Three calls lead there
  (`HeapRuns.EndOccurs`), and the block is in use for good (`HeapRuns.EndIsForever`).
- `pmm_alloc` answers NULL when nothing is free or frame 0 is free
  (`Pmm.FrameAllocator.Alloc`); frames below 512 never are, after `pmm_init` and runs of valid frees
  (`Pmm.OnlyFreeFrames`).

## Model

| member | source | states |
|---|---|---|
| `Pool.PagePool.AllocPage` | terra-kernel/kernel/utils.c:3-11 | the pool pointer and the page returned move as `Bump` says |
| `Pool.RunIsContiguous` | terra-kernel/kernel/utils.c:3-11 | over any run the pages are contiguous, hence distinct, aligned, backed by frames 32 to 510, and never reach the window; once exhausted, NULL for good |
| `Words.EntryFields` | terra-kernel/kernel/vmm.c:82 | or-ing an aligned address and flags keeps both apart: the address field is the address, the present bit the flags' |
| `Words.LinkWord` | terra-kernel/kernel/vmm.c:44-45 | the entry stored for a new table is present and points to its frame, whatever the flags |
| `Words.OrPresent` | terra-kernel/kernel/vmm.c:45 | setting the present bit changes no other bit and not the frame |
| `Pmm.UseOne` | terra-kernel/kernel/pmm.c:57 | marking one frame used changes the status of that frame only |
| `Pmm.FreeOne` | terra-kernel/kernel/pmm.c:72 | marking one frame free changes the status of that frame only |
| `Pmm.UseThenFree` | terra-kernel/kernel/pmm.c:52-73 | freeing an allocated frame restores the bitmap byte for byte |
| `Pmm.FreeSetUpdates` | terra-kernel/kernel/pmm.c:52-73 | the two bit operations remove and insert exactly one element of the free set |
| `Pmm.LoopBounds` | terra-kernel/kernel/pmm.c:34 | the rounded loop bounds select exactly the frames whose first byte lies in the entry, aligned or not |
| `Pmm.UsableBelowCount` | terra-kernel/kernel/pmm.c:7-18 | every usable frame is inside the bitmap |
| `Pmm.MarkUsable` | terra-kernel/kernel/pmm.c:30-39 | after the loop a frame is free iff some usable entry covers it, for overlapping entries too |
| `Pmm.MarkKernelUsed` | terra-kernel/kernel/pmm.c:42-46 | frames 0 to 511 are used, all others as before |
| `Pmm.FrameAllocator.constructor` | terra-kernel/kernel/pmm.c:3-47 | afterwards frame p is free iff p >= 512 and it is usable; the bitmap has a bit for each frame up to the last usable one, and as few bytes and pool pages as that takes |
| `Pmm.BitmapIsTight` | terra-kernel/kernel/pmm.c:16-19 | the frame count just reaches the last usable end; bytes and pages are the fewest that hold the bits |
| `Pmm.FrameAllocator.Alloc` | terra-kernel/kernel/pmm.c:52-62 | returns and removes the minimum of the free set; NULL iff it is empty or contains frame 0 |
| `Pmm.FrameAllocator.Release` | terra-kernel/kernel/pmm.c:67-73 | inserts one frame; blocks above the bitmap are ignored |
| `Pmm.FreeOrHeld` | terra-kernel/kernel/pmm.c:52-73 | at every moment of any run the free frames and the frames handed out partition the frames free at the start |
| `Pmm.OnlyFreeFrames` | terra-kernel/kernel/pmm.c:41-62 | only frames free at the start are handed out, so none below 512 after pmm_init |
| `Pmm.Serve` | terra-kernel/kernel/pmm.c:52-73 | any sequence of calls on the bitmap, frees of held frames only, is such a run |
| `Pmm.NoDoubleHandout` | terra-kernel/kernel/pmm.c:52-73 | between two handouts of a frame there is a free of it |
| `Addresses.SamePage` | terra-kernel/kernel/vmm.c:32-35 | two addresses have the same four indices iff their bits 12 to 47 agree |
| `Addresses.LinearAddress` | terra-kernel/kernel/vmm.c:13-20 | the kernel's address of frame t is page t of its table, and the window is page 511 |
| `PageTables.WalkLabels` | terra-kernel/kernel/vmm.c:158-177 | each table a walk finds carries the walk's index path |
| `PageTables.PathsDistinct` | terra-kernel/kernel/vmm.c:31-83 | different index paths lead to different frames, at every pair of levels |
| `PageTables.LeafWrite` | terra-kernel/kernel/vmm.c:82 | storing a leaf entry keeps every tree and changes one page's entry, in every address space |
| `PageTables.LinkKeepsTrees` | terra-kernel/kernel/vmm.c:39-47 | linking a zeroed, unused frame under an absent entry keeps the tables trees |
| `PageTables.LinkKeepsEntry` | terra-kernel/kernel/vmm.c:39-47 | and changes no page's entry in any address space, and no table found before |
| `KernelSpace.ReadyFrom` | terra-kernel/kernel/vmm.c:12-23 | the invariant lets the kernel reach its tables and the window, cached or not |
| `KernelSpace.WindowKeepsMap` | terra-kernel/kernel/vmm.c:21 | retargeting the window keeps every tree and every other entry |
| `KernelSpace.CoherentFrom` | terra-kernel/kernel/vmm.c:8-23 | after a retarget and its invalidation the cache agrees with the tables again |
| `KernelSpace.StoreKeepsReady` | terra-kernel/kernel/vmm.c:45-46 | the window stays usable between linking a table and zeroing it |
| `MapPath.OpenAbsent` | terra-kernel/kernel/vmm.c:39-47 | the missing-table block: lowest free frame zeroed, labelled and linked, invariant kept, every entry outside the window as before |
| `MapPath.OpenPresent` | terra-kernel/kernel/vmm.c:48-50 | the present-table block moves the window and nothing else |
| `MapPath.MissingStep` | terra-kernel/kernel/vmm.c:37-80 | opening one level accounts for exactly one missing table |
| `MapPath.MissingIsNotFound` | terra-kernel/kernel/vmm.c:37-80 | what is missing is one table for each the walk does not find |
| `MapPath.WalkOnlyTwice` | terra-kernel/kernel/vmm.c:37-82 | writing only on the walk, in new tables and in the window's entry composes over the levels |
| `MapPath.ExtendedStep` | terra-kernel/kernel/vmm.c:37-80 | one more level keeps: same address spaces, new tables are the frames taken and empty off the path |
| `MapPath.OpenedLinks` | terra-kernel/kernel/vmm.c:37-50 | opening a level leaves all links between tables as they were, a new one aside, which carries address, flags and present bit |
| `MapPath.LinksTwice` | terra-kernel/kernel/vmm.c:37-80 | and so do several levels in a row |
| `MapPath.LinkShowsOldContents` | terra-kernel/kernel/vmm.c:45-47 | between linking and zeroing, a page below the new table reads the frame's old word |
| `MapPath.FreedFrames` | terra-kernel/kernel/vmm.c:111-124 | freeing the entry's frame and the table keeps the frame invariant iff the one is ordinary RAM and the other is not freed |
| `MapPath.EmptiedExactly` | terra-kernel/kernel/vmm.c:113-120 | the cleared table is empty iff no other entry was present before, also when the window's own entry is in it |
| `MapPath.Unmapped` | terra-kernel/kernel/vmm.c:111-150 | one word is cleared in all of memory, the window's aside; what is freed, and whether the invariant survives, told from the state before |
| `MapPath.LevelOpened` | terra-kernel/kernel/vmm.c:37-80 | one level keeps what the walk promised so far, leads to the next table, and accounts for one missing table |
| `Vmm.Machine.Translate` | terra-kernel/kernel/vmm.c:8-10 | a translation, cached or walked, yields the frame, and caches at most that translation |
| `Vmm.Machine.FollowWindow` | terra-kernel/kernel/vmm.c:13-20 | from any usable state the walk through the kernel's linear addresses ends at its page table |
| `Vmm.Machine.TempMap` | terra-kernel/kernel/vmm.c:12-23 | from any usable state the window's entry, and nothing else in memory, becomes the given frame; no cached translation contradicts it |
| `Vmm.Machine.ZeroWindow` | terra-kernel/kernel/vmm.c:47 | exactly the frame the window shows is zeroed |
| `Vmm.Machine.OpenTable` | terra-kernel/kernel/vmm.c:37-50 | one level of map_page, with its panic branch: it fails only when the entry is absent and no frame is free |
| `Vmm.Machine.OpenPath` | terra-kernel/kernel/vmm.c:37-80 | the window ends at the page's table; frames taken equal levels missing; success iff enough frames |
| `Vmm.Machine.MapPage` | terra-kernel/kernel/vmm.c:31-83 | refines a one-key update of the address space, for every root; in all of memory only the walk, new tables and the window's entry are written; exact frame count; panics iff frames run out; new links carry the requested flags |
| `Vmm.Machine.FinishMap` | terra-kernel/kernel/vmm.c:82 | the last store turns the state the levels left into the one-key update |
| `Vmm.Machine.StoreLeaf` | terra-kernel/kernel/vmm.c:82 | the store through the window sets this page's entry, keeps the invariant, and leaves at most this page stale |
| `Vmm.Machine.WalkDown` | terra-kernel/kernel/vmm.c:164-174 | three retargets of one window find the three tables of the plain walk |
| `Vmm.Machine.GetPhysicalAddress` | terra-kernel/kernel/vmm.c:158-177 | agrees with the plain walk: entry's frame plus offset |
| `Vmm.Machine.MapThenTranslate` | terra-kernel/kernel/vmm.c:31-177 | the round trip: the mapped physical address plus offset comes back |
| `Vmm.Machine.TableIsEmpty` | terra-kernel/kernel/vmm.c:114-120 | the scan answers true iff no entry is present |
| `Vmm.Machine.ClearEntry` | terra-kernel/kernel/vmm.c:89-111 | the page's entry becomes zero, the frame it named, whatever that is, is freed, all else outside the window as before |
| `Vmm.Machine.TakeOut` | terra-kernel/kernel/vmm.c:107-109 | reads and clears the entry through the window |
| `Vmm.Machine.ReclaimTables` | terra-kernel/kernel/vmm.c:113-150 | only the page table can be freed, iff nothing in it is present; the two upper blocks free nothing |
| `Vmm.Machine.UnmapPage` | terra-kernel/kernel/vmm.c:89-151 | in all of memory exactly the page's word is cleared, the window's entry aside; exactly the frame it names, and the page table iff it held nothing else, are freed; the full invariant survives iff, before the call, the entry names ordinary RAM and the table has another present entry |
| `Boot.MapThenUnmap` | terra-kernel/kernel/vmm.c:122-124 | after boot, mapping and unmapping one page leaves its table linked and free |
| `Boot.UnmapAbsent` | terra-kernel/kernel/vmm.c:107-111 | unmapping an absent page frees frame 0, and pmm_alloc then answers NULL with frames left |
| `Vmm.Machine.LoadCr3` | terra-kernel/kernel/kernel.c:120-124 | loading a root that shares the kernel's entries keeps the invariant and ends all staleness |
| `Boot.PagingInit` | terra-kernel/kernel/kernel.c:195-225 | builds the four tables in consecutive pool pages and touches no other frame |
| `Boot.BootEntries` | terra-kernel/kernel/kernel.c:211-217 | the address space is the linear map and nothing else |
| `Boot.BootFlags` | terra-kernel/kernel/kernel.c:211-217 | the links and entries are present and writable, with no other flag |
| `Boot.BootInv` | terra-kernel/kernel/kernel.c:195-225 | the tables of paging_init satisfy the VMM's invariant |
| `Boot.BootTranslation` | terra-kernel/kernel/kernel.c:195-229 | a canonical address is mapped iff it is in the kernel's 2 MiB, and then translates to v2p of it |
| `Boot.AdoptRoot` | terra-kernel/kernel/kernel.c:118 | a copy of the kernel's root is a root with the same address space |
| `Boot.CopyPage` | terra-kernel/kernel/kernel.c:118 | memcpy of a page makes the frames equal and changes no other |
| `Boot.MapRootFrame` | terra-kernel/kernel/kernel.c:115-117 | takes a frame and maps it at its linear address; four frames suffice |
| `Boot.CopyRoot` | terra-kernel/kernel/kernel.c:118 | the kernel's root is copied into the mapped frame |
| `Boot.FindRoot` | terra-kernel/kernel/kernel.c:120-124 | get_physical_address gives the frame just mapped |
| `Boot.SwitchRoot` | terra-kernel/kernel/kernel.c:120-124 | loading the copy keeps the invariant, with the same address space |
| `Boot.EnterRoot` | terra-kernel/kernel/kernel.c:118-124 | the program's root is loaded with the same kernel entries, and the invariant holds |
| `Boot.HeapPages` | terra-kernel/kernel/kernel.c:102-105 | the heap is four contiguous, aligned pool pages |
| `Boot.SetUpPages` | terra-kernel/kernel/kernel.c:90-99 | frame 32 is left for the stack, then as few pages as hold the memory map, then come the four tables; no other frame is written |
| `Boot.BringUp` | terra-kernel/kernel/kernel.c:86-106 | stack, memory map, tables, bitmap and heap take disjoint pool pages in this order, each as many as it needs; the invariant and the exact free set hold; no frame but the tables is written |
| `Boot.StackAndMapKept` | terra-kernel/kernel/kernel.c:90-97 | the stack's and the memory map's frames are none of the table, bitmap or heap frames |
| `Boot.StartProgram` | terra-kernel/kernel/kernel.c:112-126 | from the booted state: the program's whole address space, or the header's error code; frames that were neither tables nor free are untouched; four frames more than the image costs suffice |
| `Boot.ProgramSpaceIs` | terra-kernel/kernel/kernel.c:112-126 | linear map, root page, every program header in place on the image's bytes, a writable stack page, and no other page |
| `Boot.KernelMain` | terra-kernel/kernel/kernel.c:86-126 | the same end to end, from memory map and image, with the boot path's pages disjoint and kept; succeeds whenever enough frames are usable |
| `UserSpace.DataWrite` | terra-kernel/kernel/utils.c:13-20 | writing frames that are not tables changes no address space |
| `UserSpace.PlacedGrows` | terra-kernel/kernel/elf_parser/elf_parser.c:34-37 | mapping a fresh frame extends the program's pages, all on distinct frames, and keeps their contents |
| `Bytes.GetSetByte` | terra-kernel/kernel/utils.c:17 | storing a byte of a word changes that byte only |
| `UserSpace.UserByteStored` | terra-kernel/kernel/utils.c:17 | a byte stored at a user address changes the byte at that address and no other user byte |
| `Loader.Memcpy` | terra-kernel/kernel/utils.c:13-20 | through the page tables, the destination range gets the source and no other user byte changes |
| `Loader.CheckHeader` | terra-kernel/kernel/elf_parser/elf_parser.c:9-17 | the checks in order give the code `HeaderErrorExactly` describes |
| `ElfFormat.PhdrRoundTrip` | terra-kernel/kernel/headers/elf.h:697-707 | a program header written member by member as the format lays it out is read back |
| `ElfFormat.EhdrRoundTrip` | terra-kernel/kernel/headers/elf.h:81-97 | and so are the machine, entry, table offset and table length of a file header |
| `ElfFormat.HeaderErrorExactly` | terra-kernel/kernel/elf_parser/elf_parser.c:9-17 | a written file header is accepted iff its magic, class, data and machine are right; the first that is not decides the code |
| `ElfFormat.ImageRoundTrip` | terra-kernel/kernel/elf_parser/elf_parser.c:19-21 | the program headers of a written image are found, all and in order |
| `Loader.SegmentArithmetic` | terra-kernel/kernel/elf_parser/elf_parser.c:29-31 | the masked bounds cover the pages from vaddr's to the one of vaddr + memsz inclusive |
| `Loader.AddressInSegment` | terra-kernel/kernel/elf_parser/elf_parser.c:29-31 | every address of a segment is on one of those pages |
| `Loader.MapFresh` | terra-kernel/kernel/elf_parser/elf_parser.c:35-36 | a taken frame is mapped at the page; at most four frames used; the outcomes when frames run out |
| `Loader.MapPages` | terra-kernel/kernel/elf_parser/elf_parser.c:34-37 | all pages get distinct fresh frames with the flags; earlier pages keep frames and bytes |
| `Loader.LoadSegment` | terra-kernel/kernel/elf_parser/elf_parser.c:22-40 | the segment's pages are placed, its file bytes in memory, earlier bytes kept |
| `Loader.LoadedKept` | terra-kernel/kernel/elf_parser/elf_parser.c:21-41 | a segment stays loaded while later ones are loaded |
| `Loader.LoadSegments` | terra-kernel/kernel/elf_parser/elf_parser.c:21-41 | after the loop every segment is loaded, in any order of headers; enough frames guarantee success |
| `Loader.SegmentReads` | terra-kernel/kernel/elf_parser/elf_parser.c:39 | placed and copied means readable through the page tables at vaddr + i |
| `Loader.ReadableIsAt` | terra-kernel/kernel/elf_parser/elf_parser.c:23-39 | on the image's bytes: every address the header spans is mapped present, for the user, writable iff bit 1 of p_flags, with no other flag, and file bytes are readable from p_vaddr on |
| `Loader.NeededIsWanted` | terra-kernel/kernel/elf_parser/elf_parser.c:29-37 | the pages mapped are those of the addresses from p_vaddr to p_vaddr + p_memsz, and the stack's |
| `Loader.CostIsFourEach` | terra-kernel/kernel/elf_parser/elf_parser.c:34-37 | the frames that suffice are four for each page asked for |
| `Loader.LoadElf` | terra-kernel/kernel/elf_parser/elf_parser.c:7-47 | rejects with the code and no effect, or every program header is in place on the image's bytes, the stack page mapped, all other translations and all frames that were neither tables nor free unchanged |
| `HeapChunks.RoundUpEnough` | terra-kernel/kernel/kheap.c:29 | aligned, less than 16 more, at least the request iff it does not wrap, idempotent |
| `HeapChunks.FirstFit` | terra-kernel/kernel/kheap.c:35-43 | the lowest chunk that is free and large enough |
| `HeapChunks.CoalesceMergesRuns` | terra-kernel/kernel/kheap.c:66-76 | the loop replaces each maximal run of free chunks by one of their combined size |
| `HeapChunks.CoalesceTwice` | terra-kernel/kernel/kheap.c:66-76 | coalescing is idempotent |
| `HeapChunks.CoalesceCoalesces` | terra-kernel/kernel/kheap.c:66-76 | afterwards no two neighbours are free |
| `HeapChunks.CoalesceKeepsInUse` | terra-kernel/kernel/kheap.c:66-76 | the blocks in use are the same, in the same order |
| `HeapChunks.CoalesceKeepsLayout` | terra-kernel/kernel/kheap.c:66-76 | order, alignment and freedom from overlap are kept |
| `HeapChunks.CoalesceKeepsTotal` | terra-kernel/kernel/kheap.c:70 | no byte is gained or lost |
| `HeapChunks.TakeThenRelease` | terra-kernel/kernel/kheap.c:49-89 | taking a chunk, split or not, and releasing it restores the list |
| `HeapSpec.KallocThenKfree` | terra-kernel/kernel/kheap.c:28-89 | the same by pointer, iff the pointer is below heap_end, which holds for requests of at least one byte |
| `HeapSpec.KallocNull` | terra-kernel/kernel/kheap.c:31-47 | NULL, and no change, iff no free chunk is large enough |
| `HeapSpec.AvailGuard` | terra-kernel/kernel/kheap.c:31-33 | the guard on avail never rejects a request that would fit |
| `HeapSpec.KallocBlock` | terra-kernel/kernel/kheap.c:28-64 | the lowest fitting chunk, 16-byte aligned, at most 47 bytes beyond the request |
| `HeapSpec.KallocList` | terra-kernel/kernel/kheap.c:49-63 | the list chunk by chunk: cut when more than 36 bytes would be left over, handed out whole otherwise |
| `HeapSpec.KfreeList` | terra-kernel/kernel/kheap.c:78-89 | the flag cleared, then every maximal run of free chunks made one |
| `HeapSpec.PayloadsDisjoint` | terra-kernel/kernel/kheap.c:11-15 | a block's payload meets no other block and no other header |
| `HeapSpec.InitInv` | terra-kernel/kernel/kheap.c:19-26 | heap_init establishes the invariant |
| `HeapSpec.KallocInv` | terra-kernel/kernel/kheap.c:28-64 | kalloc keeps the invariant and every byte |
| `HeapSpec.KfreeInv` | terra-kernel/kernel/kheap.c:78-89 | kfree keeps the invariant and every byte |
| `HeapSpec.ExtendInv` | terra-kernel/kernel/kheap.c:92-112 | growing in place keeps the invariant and loses exactly 32 bytes |
| `HeapSpec.ExtendGuard` | terra-kernel/kernel/kheap.c:96 | when the 64-bit comparison means what it should, exactly |
| `HeapSpec.KreallocInv` | terra-kernel/kernel/kheap.c:114-168 | krealloc keeps the invariant on all paths, counting one more extension iff it grew in place |
| `HeapSpec.KreallocAnswer` | terra-kernel/kernel/kheap.c:114-168 | NULL iff the block has to move and nothing fits; faults iff the last block is to grow; else the lowest fitting chunk if it has to move, and its own pointer with exactly the size if not; an equal size changes nothing |
| `HeapSpec.MoveAnswer` | terra-kernel/kernel/kheap.c:131-162 | a move goes to the lowest chunk that fits, and answers NULL iff there is none |
| `HeapSpec.KreallocList` | terra-kernel/kernel/kheap.c:93-151 | the list after growing or shrinking in place, chunk by chunk |
| `HeapSpec.KreallocMoves` | terra-kernel/kernel/kheap.c:131-162 | the list after a move: kalloc of the new block, then kfree of the old |
| `HeapSpec.KreallocKeepsBlocks` | terra-kernel/kernel/kheap.c:114-168 | every other block in use stays where and as it is |
| `HeapSpec.KfreeKeepsBlocks` | terra-kernel/kernel/kheap.c:78-89 | kfree keeps every other block in use |
| `HeapSpec.KallocKeepsBlocks` | terra-kernel/kernel/kheap.c:28-64 | kalloc keeps every block in use |
| `HeapRuns.RunInv` | terra-kernel/kernel/kheap.c:19-168 | in every reachable state: ordered, aligned, no overlap, coalesced, and total plus 32 per in-place extension equals avail |
| `HeapSpec.OneChunk` | terra-kernel/kernel/kheap.c:66-76 | a heap without blocks in use is one chunk of avail - 32 - 32k bytes after k extensions |
| `HeapRuns.KfreeInUse` | terra-kernel/kernel/kheap.c:78-89 | exactly the freed block leaves the blocks in use |
| `HeapRuns.KreallocPayloads` | terra-kernel/kernel/kheap.c:114-168 | krealloc exchanges its pointer for its answer, on all paths |
| `HeapRuns.StepPayloads` | terra-kernel/kernel/kheap.c:28-168 | each call changes the pointers in use as it changes the outstanding ones, except that heap_end is never taken back |
| `HeapRuns.OutstandingExactly` | terra-kernel/kernel/kheap.c:28-168 | over any run the pointers in use are those handed out and not given back, while heap_end was not handed out |
| `HeapRuns.EndIsForever` | terra-kernel/kernel/kheap.c:80 | once handed out, heap_end stays in use |
| `HeapRuns.AllFreed` | terra-kernel/kernel/kheap.c:19-168 | with everything given back the heap is one free chunk, 32 bytes smaller per extension, iff heap_end was never handed out |
| `HeapRuns.AllBytesFreed` | terra-kernel/kernel/kheap.c:19-168 | which holds for every run whose requests are for at least one byte |
| `HeapRuns.FaultOccurs` | terra-kernel/kernel/kheap.c:93 | on a fresh heap, growing a block that fills it faults |
| `HeapRuns.GapOccurs` | terra-kernel/kernel/kheap.c:98-105 | on a fresh heap, growing from 16 to 32 bytes leaves a gap of 32 bytes |
| `HeapRuns.MisfireOccurs` | terra-kernel/kernel/kheap.c:96 | on a fresh heap, a block of one byte and a request of 2^64 - 20 pass the wrapped comparison |
| `HeapRuns.EndOccurs` | terra-kernel/kernel/kheap.c:80 | a run in which kalloc answers heap_end and freeing it changes nothing |
| `HeapSpec.TilesUnlessExtended` | terra-kernel/kernel/kheap.c:19-112 | the chunks tile the heap exactly iff no block was ever extended in place |
| `HeapMemory.SpliceRepresents` | terra-kernel/kernel/kheap.c:52-58 | headers written inside the span of the replaced chunks turn the list in memory into the spliced list |
| `HeapMemory.PayloadsKept` | terra-kernel/kernel/kheap.c:28-89 | writes to a free chunk's span or to a header touch no payload in use |
| `HeapMemory.PayloadWrite` | terra-kernel/kernel/kheap.c:135 | writes inside one payload keep every header and every other payload |
| `Kheap.Heap.Init` | terra-kernel/kernel/kheap.c:19-26 | one free chunk covers the heap |
| `Kheap.Heap.FindFit` | terra-kernel/kernel/kheap.c:35-43 | following the links in memory finds the first fit |
| `Kheap.Heap.Kalloc` | terra-kernel/kernel/kheap.c:28-64 | the bytes in memory realise the list operation; no payload in use changes; NULL changes nothing |
| `Kheap.Heap.CoalesceChunks` | terra-kernel/kernel/kheap.c:66-76 | the in-place loop terminates with the coalesced list in memory; no payload in use changes |
| `Kheap.Heap.Kfree` | terra-kernel/kernel/kheap.c:78-89 | realises the list operation, including the ignored pointers and the second free; no payload in use changes |
| `Kheap.Heap.ExtendInPlace` | terra-kernel/kernel/kheap.c:92-112 | grows, declines, or faults as specified with every payload kept iff the comparison does not go wrong; otherwise the header claims more than the heap |
| `Kheap.Heap.ShrinkInPlace` | terra-kernel/kernel/kheap.c:141-152 | the rest is split off and coalesced; the kept part and all other blocks hold their bytes |
| `Kheap.Heap.MoveBlock` | terra-kernel/kernel/kheap.c:131-138 | allocate, copy, free: the new block starts with the old block's bytes, others are untouched |
| `Kheap.Heap.Krealloc` | terra-kernel/kernel/kheap.c:114-168 | for every request: list, answer, first min(old, new) bytes kept, all other blocks untouched, NULL and fault change nothing, iff the extension's comparison does not go wrong |
| `Kheap.OutgrowBlock` | terra-kernel/kernel/kheap.c:96-107 | on a fresh heap of four pages, the comparison that goes wrong, on the bytes |

## Left out

- Bootloader, mode switches, disk and E820 calls, IDT, interrupts, VGA, syscall and SSE set-up: device and assembly code without deep state; the memory map is a parameter.
- The end of `load_elf`: registers, stack switch and `sysret`. The model stops once the stack page is mapped.
- Panic and unchecked failures end the model's run as outcomes: a false answer of `MapPage` is panic, `Starved` is the NULL of `pmm_alloc` that `load_elf` does not notice (elf_parser.c:35), after which physical page 0 would be mapped; `Fault` is the null link of krealloc.
- The TLB caches only translations of pages that are accessed. A processor that fills speculatively could also cache the old word that `MapPath.LinkShowsOldContents` shows.
- Stale cached translations of overwritten or unmapped ordinary pages are tracked (`stale`), not invalidated, as in the code; the model makes no claim about accesses through them.
- Permissions: flags are stored as the code stores them, in page entries and in links between tables, but no access is refused because of them. Huge pages are never created by this code and a walk does not treat them apart.
- Vmm.Machine.MapPage: does not map over the window or over the linear addresses of the kernel's own four tables, because afterwards `temp_map` would edit whatever frame was put there.
- Vmm.Machine.GetPhysicalAddress: only for pages whose tables exist, because the code does not look at present bits and would read frame 0 as a table.
- Vmm.Machine.MapThenTranslate: as MapPage, and the root's own address must not be on the page being mapped, because the second call would go through the changed entry.
- Vmm.Machine.UnmapPage: only for pages whose tables exist, because the code does not look at present bits and would clear a word of frame 0; and, like MapPage, not for the window and the kernel's own four tables.
- Pmm.FrameAllocator.constructor: needs one usable non-empty entry, ends that fit 64 bits and room in the pool, because the code computes `page_count - 1` unguarded and does not check `alloc_page`. The sum `usable_ram` is never used and is not modelled.
- Loader.LoadElf: segments must share no page (counting the extra page after one that ends on a boundary), lie in the lower half clear of the stack, have `p_filesz` at most `p_memsz`, and be shorter than 2^31 bytes, because a second mapping of a page would hide the first, bytes beyond `p_memsz` would go to unmapped pages, and `memcpy` counts with an `int`. The zero fill between `p_filesz` and `p_memsz` is absent from the code and not claimed.
- Loader.Memcpy: the image is passed by value, because reads of the kernel's own data do not change the state.
- Boot.KernelMain: needs a usable frame below 2 GiB, because `tmp + KERNEL_BASE` otherwise leaves the upper 2 GiB.
- Kheap.Heap.Kfree: excludes pointers into the heap that are no block's and whose preceding bytes read as a header in use, because the code would believe them.
- Kheap.Heap.Krealloc: for NULL and blocks in use; a stale pointer would be believed.
- The heap's bytes and the frame bitmap are arrays of their own, not frames of `Vmm.Machine`; that the heap's pages are contiguous mapped pool pages is `Boot.HeapPages` and the linear map.
- `e_phentsize` is ignored as in the code: headers are read 56 bytes apart. `ToCHS` and other easy helpers are left out.
- `memset` of a page and the stores of one table are done a word at a time.
- Concurrency: the kernel has no locking and no scheduler; operations are sequential.

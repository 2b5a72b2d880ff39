# VV4OS in Dafny

A verified model of the parts of the VV4OS kernel where a mistake would be hardest to see: the kernel heap (liballoc),
x86 paging together with the physical frame bitmap, the FAT32 reader, the round-robin scheduler, number formatting and
parsing, and the text terminal. `dafny verify dfyconfig.toml` checks everything.

Code that changes state in C is imperative Dafny here: classes with the C fields, arrays where the C code has arrays, the
same loops and the same branches. Each such method is proved against a value (a heap layout, a machine, a cluster chain, a
list of process ids, a numeral, a transcript), and the promises are theorems about those values, most of them over every
run of operations.

| files | what they describe |
|---|---|
| `Bitwise`, `Bitmap`, `BitmapRuns` | the packed bitmap with its dead zone and `first_free` hint, and every run of allocate and free |
| `HeapLayout`, `HeapRuns` | regions ("majors") and blocks ("minors") as a value; what one call does to it; every run of calls |
| `Bytes`, `HeapHeaders`, `HeapStore`, `Liballoc` | the headers by address, the alignment tags and the bytes; `malloc`, `free`, `realloc` in place |
| `HeapHint`, `HeapClients` | the search hint; what clients own, how much is in use and where a request goes, told from the calls |
| `HeapPages` | the two hooks between the heap and the virtual memory manager |
| `PhysMem` | the physical frame allocator |
| `PageTables`, `FrameOwnership` | page tables as values, the flat view of an address space, and the law that frames are conserved |
| `AccessRights` | who may reach what along the hardware's two-level walk |
| `AddressSpaces`, `KernelPages`, `Paging` | contiguous allocation, process creation and stacks, as values and in place |
| `Fat32Chain`, `Fat32Disk`, `Fat32File` | the bytes of a cluster chain, what the disk stores for it, and the reader |
| `SchedulerRuns`, `Scheduler` | the scheduler as a state machine, and the linked list it is made of |
| `Numerals`, `Terminal` | `digits`, `utoa`, `itoa`, `atoi`; the VGA terminal |

## Main results

- Heap. After any sequence of calls the heap is well formed, and in place all headers, both doubly linked lists, `usage`,
  `l_inuse`, `l_allocated`, `l_memRoot` and `l_bestBet` agree with it. `malloc` asks for pages exactly when no gap anywhere
  fits and fails exactly when it asked and was refused; otherwise it takes the first gap in scan order. `free` undoes
  `malloc`. `realloc` carries the contents over and touches no other block. The heap holds exactly the pointers its clients
  own, told from the calls alone.
- Paging. The two-level tables refine a flat map. A frame is held by exactly one place if its bit is set and by none
  otherwise, through allocation, release, process creation and stack growth. Over every run kernel pages stay closed to
  processes, and a process may write exactly where something is mapped for it.
- Properties that are false of the code, each with the exact condition under which it holds and an input that breaks it:
  - frames are conserved by a contiguous allocation when no run of pages exists (`Paging.Mmu.AllocateContiguous`; broken by
    `Paging.Mmu.AskForEveryPage`);
  - page tables stay in order when an entry is set or a stack is made (`Paging.Mmu.SetPte`, `Paging.Mmu.CreateStack`; broken
    when a page takes the last frame and its table none, `AddressSpaces.LastFrameNoTable`);
  - what the page allocator gives to the heap is storage of its own (`HeapPages.AllocatedRunIsAGrant`; broken when memory has
    run out, `HeapPages.NoFramesNoBacking`);
  - freeing a pointer twice is caught (`Liballoc.Heap.FreeTwice`; broken by `Liballoc.Heap.FreeLoneBlockTwice`);
  - a read yields the requested slice of a file (`Fat32File.ReadAnswersRequestIff`; broken by `Fat32Chain.ShortReadOverfills`).
- FAT32. A read yields the slice of the chain's bytes at the position, reading in two parts is reading at once, and each byte
  is the one the disk stores at the place the specification gives it.
- Scheduler. What runs is live; a process is listed exactly from the load that made it to its exit; and the ticks a process waits are exactly its distance plus the loads that delayed it.

Where a comment and the code disagree, the code is followed: `l_bestBet` is described as the major with the most free
memory (kernel/src/mem/liballoc/liballoc.c:97) but is only kept as a hint; `itoa` returns a pointer behind the sign.

## Model

| member | source | states |
|---|---|---|
| `Bitwise.PackedBitAfterStore` | kernel/src/util/bitwise.h:9-19 | a bit stored into packed words is read back at its position, and every other position, also across word boundaries, reads as before |
| `Bitwise.ShiftIsRemainder` | kernel/src/util/bitmap.c:45-45 | position k is bit k % 32 of its word |
| `Bitwise.MaskReadsPackedBit` | kernel/src/util/bitmap.c:22-22 | the mask test of the search loop reads the same bit as `GetBit` |
| `Bitmaps.MarkedAfterStore` | kernel/src/util/bitmap.c:44-46 | one store through `SetBit` adds or removes exactly one position of the set the words denote |
| `Bitmaps.Bitmap.constructor` | kernel/src/util/bitmap.c:34-38 | from arbitrary storage: exactly the described positions are marked, or none, and the hint is sound |
| `Bitmaps.Bitmap.MarkInBitmap` | kernel/src/util/bitmap.c:40-54 | exactly the range is marked or unmarked, the hint moves as in the source, and nothing below it is free afterwards |
| `Bitmaps.Bitmap.FindInBitmap` | kernel/src/util/bitmap.c:17-32 | the hinted search answers as a naive one: the leftmost free run, or failure exactly when there is none |
| `Bitmaps.Bitmap.AllocateInBitmap` | kernel/src/util/bitmap.c:56-64 | the leftmost free run becomes marked and nothing else changes; a failure changes nothing |
| `Bitmaps.Bitmap.FreeInBitmap` | kernel/src/util/bitmap.c:66-69 | exactly the range becomes free |
| `BitmapRuns.RunsStayAccounted` | kernel/src/util/bitmap.c:40-69 | over every run, live ranges are pairwise disjoint, outside the dead zone, and together exactly the marked positions |
| `BitmapRuns.FreeUndoesAlloc` | kernel/src/util/bitmap.c:56-69 | giving a successful allocation back restores the bitmap |
| `BitmapRuns.Replay` | kernel/src/util/bitmap.c:56-69 | the word-packed bitmap follows a run of the state machine that answers exactly the given requests |
| `HeapLayout.GapsSumToFreeBytes` | kernel/src/mem/liballoc/liballoc.c:338-352 | a major's gaps sum to `size - usage` |
| `HeapLayout.FreeBytesBoundGaps` | kernel/src/mem/liballoc/liballoc.c:352-380 | fewer free bytes than needed means no gap fits, so CASE 1 may skip the major unseen |
| `HeapLayout.PagesFor` | kernel/src/mem/liballoc/liballoc.c:198-211 | the page count has room for the request and both headers, is at least 16, and is minimal above that |
| `HeapLayout.PayloadInside` | kernel/src/mem/liballoc/liballoc.c:28-52 | the aligned pointer, its tag and the requested bytes lie inside the block, and unaligning gets back to the header |
| `HeapRuns.PayloadMissesHeaders` | kernel/src/mem/liballoc/liballoc.c:28-52 | every live pointer is 16-byte aligned, leads back to its header, and its tag and bytes lie behind its own header, inside its major, clear of every major header |
| `HeapRuns.LivePayloadsAreSafe` | kernel/src/mem/liballoc/liballoc.c:28-52 | the bytes and tag of one live block meet no header, tag or payload of another |
| `HeapRuns.MallocKeepsSound` | kernel/src/mem/liballoc/liballoc.c:249-592 | `malloc` keeps majors apart and minors sorted, disjoint and inside, and leaves no major empty |
| `HeapRuns.FreeKeepsSound` | kernel/src/mem/liballoc/liballoc.c:602-725 | so does `free` |
| `HeapRuns.ReallocKeepsSound` | kernel/src/mem/liballoc/liballoc.c:747-836 | so does `realloc`, on both paths |
| `HeapRuns.RunsStaySound` | kernel/src/mem/liballoc/liballoc.c:249-836 | after every sequence of calls on an empty heap the heap is well formed and has no empty major |
| `HeapRuns.FreeUndoesMalloc` | kernel/src/mem/liballoc/liballoc.c:602-725 | freeing what `malloc` returned restores every major and every minor |
| `HeapHeaders.HeadersAfterPlace` | kernel/src/mem/liballoc/liballoc.c:387-541 | linking a block into a front, middle or tail gap leaves every header of every major and minor right |
| `HeapHeaders.HeadersAfterRemove` | kernel/src/mem/liballoc/liballoc.c:679-691 | unlinking a block leaves every remaining header right, and a live magic still means a live block |
| `HeapHeaders.HeadersAfterDrop` | kernel/src/mem/liballoc/liballoc.c:696-705 | so does unlinking an emptied major |
| `HeapHeaders.HeadersAfterRelease` | kernel/src/mem/liballoc/liballoc.c:704-704 | the pages given back held no header of a remaining major or minor |
| `HeapHeaders.HeadersAfterAppend` | kernel/src/mem/liballoc/liballoc.c:566-570 | linking a new major behind the last leaves every header right |
| `HeapStore.UnlinkedIsLinkedOut` | kernel/src/mem/liballoc/liballoc.c:684-691 | the stores of `free` unlink exactly the block, wherever it stands in its list |
| `HeapStore.MajorUnlinkedIsLinkedOut` | kernel/src/mem/liballoc/liballoc.c:698-702 | the stores for an emptied major unlink exactly that major |
| `HeapStore.PlacedIsFirstFit` | kernel/src/mem/liballoc/liballoc.c:321-576 | a gap found after passing every earlier region, with or without a restart from the root, is the first fit in scan order |
| `HeapStore.UnalignFindsBlock` | kernel/src/mem/liballoc/liballoc.c:618-623 | unaligning a live pointer finds exactly the minor `malloc` created |
| `HeapStore.ReadableIffShared` | kernel/src/mem/liballoc/liballoc.c:618-626 | after a `free` the header behind the pointer can be read, marked dead, exactly when its major kept another block |
| `HeapStore.LoneBlockIsAlone` | kernel/src/mem/liballoc/liballoc.c:696-704 | the only block of a heap is one whose header goes with its pages |
| `HeapStore.PayloadStoreKeepsTags` | kernel/src/mem/liballoc/liballoc.c:44-52 | a client's stores into its requested bytes never disturb an alignment tag |
| `HeapStore.MoveKeepsOthers` | kernel/src/mem/liballoc/liballoc.c:830-835 | a new tag and a filled new payload leave every older block's bytes alone |
| `HeapStore.OverrunIsLowByte` | kernel/src/mem/liballoc/liballoc.c:631-635 | the three overrun tests together ask only for the lowest byte of the magic number |
| `HeapHint.TrackLooks` | kernel/src/mem/liballoc/liballoc.c:338-346 | one look keeps the hint at the best region seen, the old one being preferred when it is as good |
| `HeapHint.FreeKeepsBestHint` | kernel/src/mem/liballoc/liballoc.c:708-714 | below 2 GB the hint after `free` has at least as many bytes free as the freed block's major and as before |
| `HeapClients.MallocHolds` | kernel/src/mem/liballoc/liballoc.c:249-592 | a successful `malloc` adds its pointer and request to what the heap holds, and nothing else |
| `HeapClients.FreeHolds` | kernel/src/mem/liballoc/liballoc.c:602-725 | `free` takes away its pointer and nothing else |
| `HeapClients.ReallocHolds` | kernel/src/mem/liballoc/liballoc.c:747-836 | `realloc` replaces its pointer and request by the new ones, and nothing else |
| `HeapClients.ReallocMovesIff` | kernel/src/mem/liballoc/liballoc.c:819-835 | `realloc` leaves a block where it is exactly when it was asked for with at least as many bytes |
| `HeapClients.HeapHoldsWhatIsOwned` | kernel/src/mem/liballoc/liballoc.c:249-836 | after every sequence of calls the heap holds exactly the pointers handed out and not given back, with the bytes last asked for |
| `HeapClients.MallocAddsBytes` | kernel/src/mem/liballoc/liballoc.c:258-264 | a request puts 32 bytes more than asked for into use, and pages are taken only when asked for |
| `HeapClients.WhereMallocGoes` | kernel/src/mem/liballoc/liballoc.c:321-544 | the hinted major if it has more than the needed bytes free and a gap that fits; without such a hint the first major that can; the lowest gap in it |
| `HeapClients.NothingFitsNewRegion` | kernel/src/mem/liballoc/liballoc.c:566-570 | when no major can take the request: a new last major holding the block alone, or null and no change |
| `Liballoc.Heap.AllocateNewPage` | kernel/src/mem/liballoc/liballoc.c:193-243 | the header of the new major and the total; a refusal only counts a warning |
| `Liballoc.Heap.Align` | kernel/src/mem/liballoc/liballoc.c:28-41 | the payload pointer, with the distance stored in front of it and no other byte changed |
| `Liballoc.Heap.PlaceInEmpty` | kernel/src/mem/liballoc/liballoc.c:387-414 | CASE 2 places the block at the front of an empty major |
| `Liballoc.Heap.PlaceAtFront` | kernel/src/mem/liballoc/liballoc.c:421-450 | CASE 3 places it before the first minor |
| `Liballoc.Heap.PlaceAtEnd` | kernel/src/mem/liballoc/liballoc.c:464-498 | CASE 4.1 places it behind the last minor |
| `Liballoc.Heap.PlaceBetween` | kernel/src/mem/liballoc/liballoc.c:503-541 | CASE 4.2 places it between two minors |
| `Liballoc.Heap.PlaceInRegion` | kernel/src/mem/liballoc/liballoc.c:387-544 | within one major the leftmost gap that fits is taken, or nothing changes and no gap fits |
| `Liballoc.Heap.LeaveRegion` | kernel/src/mem/liballoc/liballoc.c:352-380 | leaving a major hops on, restarts from the root, or asks for pages only when nothing fits anywhere |
| `Liballoc.Heap.Look` | kernel/src/mem/liballoc/liballoc.c:338-346 | the hint moves to the major looked at exactly if that has more bytes free |
| `Liballoc.Heap.Search` | kernel/src/mem/liballoc/liballoc.c:336-576 | the search terminates, finds the first fit, and fills a major it appends in the same call |
| `Liballoc.Heap.Malloc` | kernel/src/mem/liballoc/liballoc.c:249-592 | first fit in scan order; pages are asked for exactly when no gap of any major fits; null, with a warning, exactly when they were asked for and refused; the hint is the old one or the best major looked at, whichever has more bytes free; only the new tag byte changes; headers, lists and totals stay right |
| `Liballoc.Heap.Free` | kernel/src/mem/liballoc/liballoc.c:602-725 | the block leaves and its header is marked dead, or an emptied major goes back with every header on its pages; the hint is cleared, moved or kept as the free bytes say; a null pointer counts a warning, and a header without the magic counts an error, and neither changes lists, headers, totals or hint |
| `Liballoc.Heap.MallocThenFree` | kernel/src/mem/liballoc/liballoc.c:249-725 | restores every major, minor and usage, `l_inuse` and `l_allocated` |
| `Liballoc.Heap.FreeTwice` | kernel/src/mem/liballoc/liballoc.c:602-725 | a second free of the same pointer finds a header and is caught, counting one error, exactly when the major kept another block |
| `Liballoc.Heap.FreeLoneBlockTwice` | kernel/src/mem/liballoc/liballoc.c:696-705 | on a heap of one block the second free is not caught |
| `Liballoc.Heap.CopyBytes` | kernel/src/mem/liballoc/liballoc.c:123-146 | word loop and byte loop together copy exactly the `n` bytes |
| `Liballoc.Heap.Move` | kernel/src/mem/liballoc/liballoc.c:830-835 | a `malloc`, the old contents carried over, a `free`; other live blocks keep their bytes |
| `Liballoc.Heap.Realloc` | kernel/src/mem/liballoc/liballoc.c:747-836 | all entry cases; in place exactly when the block already holds the request; a live block keeps its first min(old, new) bytes and every other live block all of its own |
| `HeapPages.AllocatedRunIsAGrant` | kernel/src/mem/liballoc/hooks.c:29-31 | a run of unmapped pages overlaps no live major; older majors stay backed; the new one is backed by frames of its own exactly when there were as many free frames as pages |
| `HeapPages.NoFramesNoBacking` | kernel/src/mem/liballoc/hooks.c:29-31 | when memory has run out every page of the run maps frame 0 and the region is not backed |
| `HeapPages.BackedPagesAreSeparate` | kernel/src/mem/liballoc/hooks.c:29-31 | different pages of backed majors are different frames |
| `HeapPages.ReleasedRunKeepsOthers` | kernel/src/mem/liballoc/hooks.c:33-36 | unmapping one major's pages leaves the others backed |
| `PhysMem.FrameAllocator.constructor` | kernel/src/arch/x86/mem/phys_mem_mgr_x86.c:21-31 | all frames of RAM above the kernel image are free, and the image lies in the dead zone |
| `PhysMem.FrameAllocator.AllocateFrame` | kernel/src/arch/x86/mem/phys_mem_mgr_x86.c:33-39 | the lowest free frame is marked, or 0 exactly when every frame is marked |
| `PhysMem.FrameAllocator.FreeFrame` | kernel/src/arch/x86/mem/phys_mem_mgr_x86.c:41-43 | exactly that frame becomes free |
| `PageTables.EntryWritten` | kernel/src/arch/x86/mem/virt_mem_mgr_x86.c:107-110 | a store into one page table is seen by exactly one page of exactly one address space |
| `PageTables.TableCreated` | kernel/src/arch/x86/mem/virt_mem_mgr_x86.c:84-96 | a fresh page table changes no lookup in any address space |
| `PageTables.SetInNewTable` | kernel/src/arch/x86/mem/virt_mem_mgr_x86.c:98-110 | creating a table and storing into it replaces one entry of the flat map |
| `PageTables.TableInFrameZero` | kernel/src/arch/x86/mem/virt_mem_mgr_x86.c:84-110 | a table made when no frame is free sits in frame 0 and the tables are no longer in order |
| `PageTables.SpaceAdded` | kernel/src/arch/x86/mem/virt_mem_mgr_x86.c:225-227 | a new directory is an empty space and every other space is as before |
| `FrameOwnership.UnmapConserves` | kernel/src/arch/x86/mem/virt_mem_mgr_x86.c:281-288 | unmapping a kernel page and freeing its frame conserves frames |
| `FrameOwnership.UnmapUndoesMap` | kernel/src/arch/x86/mem/virt_mem_mgr_x86.c:266-290 | releasing a contiguous allocation restores table and bitmap, even if memory ran out on the way |
| `FrameOwnership.TransferConserves` | kernel/src/arch/x86/mem/virt_mem_mgr_x86.c:224-298 | handing an image over to a process conserves frames |
| `FrameOwnership.UserMappedConserves` | kernel/src/arch/x86/mem/virt_mem_mgr_x86.c:308-312 | mapping a user page conserves frames, also when a page table had to be made |
| `AccessRights.WalkIsLookup` | kernel/src/arch/x86/mem/virt_mem_mgr_x86.c:49-56 | the hardware's walk by address bits finds the entry of the flat view |
| `AccessRights.WritableIffMapped` | kernel/src/arch/x86/mem/virt_mem_mgr_x86.c:84-136 | a process may write at an address of its half, through both levels, exactly when a page is mapped there |
| `AccessRights.RunMappedGuards` | kernel/src/arch/x86/mem/virt_mem_mgr_x86.c:266-275 | a contiguous allocation maps cached memory, writable and for the kernel only |
| `AccessRights.UserMappedGuards` | kernel/src/arch/x86/mem/virt_mem_mgr_x86.c:308-312 | a user page, and the table made for it, are open to the process, and all other rights are kept |
| `AccessRights.TransferGuards` | kernel/src/arch/x86/mem/virt_mem_mgr_x86.c:224-298 | handing an image over keeps kernel pages closed and opens the image and its page tables |
| `AccessRights.ImageIsUsable` | kernel/src/arch/x86/mem/virt_mem_mgr_x86.c:224-298 | every address of the image is writable by the process and is the physical address the kernel had there |
| `AddressSpaces.BuildingNext` | kernel/src/arch/x86/mem/virt_mem_mgr_x86.c:228-233 | one more page of the image moved; page tables appear only when needed, each in a frame that was free |
| `AddressSpaces.BuildingEnds` | kernel/src/arch/x86/mem/virt_mem_mgr_x86.c:292-298 | once the kernel unmaps the image it has been transferred, and all new frames are accounted for |
| `AddressSpaces.TableRoomNext` | kernel/src/arch/x86/mem/virt_mem_mgr_x86.c:307-313 | mapping a stack page leaves the question whether the frames suffice for the missing tables exactly as it was |
| `AddressSpaces.LastFrameNoTable` | kernel/src/arch/x86/mem/virt_mem_mgr_x86.c:308-312 | a page whose table is missing, reached with one free frame, is a case in which they do not |
| `AddressSpaces.RoomUnderOneTable` | kernel/src/arch/x86/mem/virt_mem_mgr_x86.c:300-315 | for a stack under one table they suffice exactly when the table is there or the free frames are not exactly one |
| `KernelPages.RunMappedNext` | kernel/src/arch/x86/mem/virt_mem_mgr_x86.c:268-273 | one more page of a run maps a frame that was free, or frame 0 only when memory has run out |
| `KernelPages.OverwritingEnds` | kernel/src/arch/x86/mem/virt_mem_mgr_x86.c:266-275 | when no run was found, frames stay conserved exactly when none was free and none was mapped on the pages written over |
| `KernelPages.BootRequestLosesFrame` | kernel/src/arch/x86/mem/virt_mem_mgr_x86.c:241-275 | after start-up, with a frame free, a request for all pages finds no run, meets no directory, and loses a frame |
| `KernelPages.StepConserves` | kernel/src/arch/x86/mem/virt_mem_mgr_x86.c:266-315 | each step (kernel page taken, kernel page released, image handed over, user page mapped) conserves frames |
| `KernelPages.RunsConserve` | kernel/src/arch/x86/mem/virt_mem_mgr_x86.c:266-315 | over every run a frame under the bitmap is held by exactly one place if marked and by none otherwise |
| `KernelPages.BootIsGuarded` | kernel/src/arch/x86/mem/virt_mem_mgr_x86.c:255-262 | after start-up every mapped page is for the kernel only |
| `KernelPages.StepGuards` | kernel/src/arch/x86/mem/virt_mem_mgr_x86.c:266-315 | each step keeps every right as its place demands |
| `KernelPages.RunsKeepKernelClosed` | kernel/src/arch/x86/mem/virt_mem_mgr_x86.c:117-136 | over every run what the kernel maps is writable and closed to users |
| `KernelPages.RunsProtect` | kernel/src/arch/x86/mem/virt_mem_mgr_x86.c:84-136 | over every run page tables of processes stay open to them, and a process may write exactly where something is mapped for it |
| `KernelPages.StackIsUsable` | kernel/src/arch/x86/mem/virt_mem_mgr_x86.c:300-315 | every byte of the pages a stack was given is writable by the process |
| `Paging.Mmu.constructor` | kernel/src/arch/x86/mem/virt_mem_mgr_x86.c:241-264 | the low megabyte mapped to itself and uncached, the kernel image cached at the kernel half, nothing else, all of it for the kernel only; conservation from the start |
| `Paging.Mmu.MapRange` | kernel/src/arch/x86/mem/virt_mem_mgr_x86.c:138-146 | exactly the range is mapped, in order |
| `Paging.Mmu.FindContiguousFreeFrames` | kernel/src/arch/x86/mem/virt_mem_mgr_x86.c:154-170 | the lowest run of unmapped pages, or null exactly when none exists |
| `Paging.Mmu.AllocateMap` | kernel/src/arch/x86/mem/virt_mem_mgr_x86.c:206-210 | a window at a kernel-half page that was unmapped, nothing else changed |
| `Paging.Mmu.GetPte` | kernel/src/arch/x86/mem/virt_mem_mgr_x86.c:68-82 | the entry of the flat map; the temporary window is exactly undone |
| `Paging.Mmu.CreatePageTable` | kernel/src/arch/x86/mem/virt_mem_mgr_x86.c:84-96 | a free frame, or frame 0 exactly when there is none, becomes a zeroed table; the temporary window is exactly undone |
| `Paging.Mmu.SetPte` | kernel/src/arch/x86/mem/virt_mem_mgr_x86.c:98-115 | that page reads back the entry, every other user page of every space is as before, the kernel's table is unchanged, and at most one free frame became a page table; the tables stay in order exactly when the page table or a frame for it was at hand |
| `Paging.Mmu.AllocateContiguous` | kernel/src/arch/x86/mem/virt_mem_mgr_x86.c:266-275 | the lowest run above page 0, or above the start of the kernel half; each page cached, writable, kernel-only and with its own frame; frames conserved even when memory runs out; when no run exists the exact condition for conservation |
| `Paging.Mmu.FreeContiguous` | kernel/src/arch/x86/mem/virt_mem_mgr_x86.c:277-290 | exactly the pages are unmapped and exactly their frames become free |
| `Paging.Mmu.AskForEveryPage` | kernel/src/arch/x86/mem/virt_mem_mgr_x86.c:266-275 | with no process and a frame free, a request for all pages breaks conservation |
| `Paging.Mmu.AllocateThenFree` | kernel/src/arch/x86/mem/virt_mem_mgr_x86.c:266-290 | restores the kernel's table and the bitmap |
| `Paging.Mmu.MapImage` | kernel/src/arch/x86/mem/virt_mem_mgr_x86.c:228-233 | every page of the image has moved into the new space, writable and open to users |
| `Paging.Mmu.CopyKernelHalf` | kernel/src/arch/x86/mem/virt_mem_mgr_x86.c:234-237 | the kernel half of the new directory is the kernel's own and the user half is untouched |
| `Paging.Mmu.CreateAddressSpace` | kernel/src/arch/x86/mem/virt_mem_mgr_x86.c:292-298 | user page i maps the frame `k_base + i` mapped, and the process may write all of it; the kernel no longer maps the image; kernel half shared; other spaces untouched; frames conserved, rights kept |
| `Paging.Mmu.CreateStack` | kernel/src/arch/x86/mem/virt_mem_mgr_x86.c:300-315 | every page of the stack maps a frame of its own and is writable by the process, all other user pages as before, frames conserved; null only when memory ran out, with the lowest pages mapped; all this exactly when no page with a missing table is reached with one free frame |
| `Fat32Chain.SliceIsUnique` | kernel/src/io/disk/fs/fat.c:186-238 | position and length determine the bytes of a slice |
| `Fat32Chain.SlicesCompose` | kernel/src/io/disk/fs/fat.c:177-238 | a slice followed by the slice behind it is the slice of both lengths |
| `Fat32Chain.ReadsSliceIff` | kernel/src/io/disk/fs/fat.c:203-213 | what is set out to be read is the requested slice exactly when the request covers the rest of the current cluster or nothing can be read there |
| `Fat32Chain.ShortReadOverfills` | kernel/src/io/disk/fs/fat.c:208-211 | a one-byte request inside a readable 512-byte cluster fills at least 511 bytes |
| `Fat32Disk.NextDecodes` | kernel/src/io/disk/fs/fat.c:177-184 | a little-endian table entry, under any top four bits, is decoded to the next cluster, or to 0 from 0x0FFFFFF8 on |
| `Fat32Disk.FirstSectorIs` | kernel/src/io/disk/fs/fat.c:148-148 | the sectors read for a cluster are its sectors in the data area |
| `Fat32Disk.ClustersInOrder` | kernel/src/io/disk/fs/fat.c:148-148 | cluster 2 starts the data area and every cluster follows the one before |
| `Fat32Disk.ClustersApart` | kernel/src/io/disk/fs/fat.c:148-153 | different clusters are read from different sectors |
| `Fat32Disk.ChainFollowsLinks` | kernel/src/io/disk/fs/fat.c:177-202 | following the table visits exactly the clusters it links, then ends |
| `Fat32Disk.ByteOnDisk` | kernel/src/io/disk/fs/fat.c:145-184 | the byte at a position of a file is the byte the disk stores for it |
| `Fat32Disk.NothingBehind` | kernel/src/io/disk/fs/fat.c:216-219 | behind its last cluster a file holds nothing |
| `Fat32File.ReadAnswersRequestIff` | kernel/src/io/disk/fs/fat.c:186-238 | a read at `seek` yields the requested slice exactly when the request covers the leading part or nothing can be read there |
| `Fat32File.SecondRequest` | kernel/src/io/disk/fs/fat.c:194-195 | after a first read that meets its leading-part condition the second starts at the new position and asks for what it says |
| `Fat32File.FileDescriptor.ReadCluster` | kernel/src/io/disk/fs/fat.c:145-155 | succeeds exactly when all sectors can be read, filling exactly the cluster's bytes |
| `Fat32File.FileDescriptor.Skip` | kernel/src/io/disk/fs/fat.c:195-202 | the k-th cluster of the chain, 0 if it ends before that |
| `Fat32File.FileDescriptor.ReadLeading` | kernel/src/io/disk/fs/fat.c:203-213 | the bytes up to the next cluster boundary |
| `Fat32File.FileDescriptor.ReadWhole` | kernel/src/io/disk/fs/fat.c:214-225 | whole clusters until fewer bytes than a cluster are left or one cannot be read |
| `Fat32File.FileDescriptor.ReadTrailing` | kernel/src/io/disk/fs/fat.c:226-234 | the bytes behind the last whole cluster |
| `Fat32File.FileDescriptor.ReadOp` | kernel/src/io/disk/fs/fat.c:186-238 | the buffer holds the chain's bytes from the position on, as many as set out for or as there are; count and position follow in 32 and 64 bits; a directory yields nothing |
| `Fat32File.FileDescriptor.ReadTwice` | kernel/src/io/disk/fs/fat.c:186-238 | two reads in a row yield the slice of both lengths, with the position behind it |
| `Fat32File.FileDescriptor.ReadBothWays` | kernel/src/io/disk/fs/fat.c:186-238 | reading in two parts and reading at once give the same bytes, count and final position |
| `SchedulerRuns.TickApproaches` | kernel/src/user/process.c:42-64 | a tick dispatches the process at distance 0 and brings every other one nearer by one |
| `SchedulerRuns.ExitKeepsDistance` | kernel/src/user/process.c:71-81 | the exit of the current process leaves every other process's distance alone |
| `SchedulerRuns.LoadDelays` | kernel/src/user/process.c:150-152 | a load delays, by one, exactly those whose turn comes after the list is started over |
| `SchedulerRuns.RunsStayValid` | kernel/src/user/process.c:42-157 | over every run process ids are unique, non-zero and in range, and the cursor is in the list |
| `SchedulerRuns.ListedIffLive` | kernel/src/user/process.c:71-157 | over every run an id is listed exactly when a load handed it out and no exit has happened while it ran |
| `SchedulerRuns.LastPidCounts` | kernel/src/user/process.c:119-150 | loads hand out 1, 2, 3 and so on, up to the last id |
| `SchedulerRuns.NewestFirst` | kernel/src/user/process.c:150-152 | over every run the list is ordered, the newest process first |
| `SchedulerRuns.ExitLeaves` | kernel/src/user/process.c:71-81 | an exit leaves one process fewer, and the one that left is not dispatched next |
| `SchedulerRuns.WaitIsExact` | kernel/src/user/process.c:42-157 | for a process that has not run, ticks so far plus its distance now equal its first distance plus the loads that delayed it |
| `SchedulerRuns.DispatchedInTime` | kernel/src/user/process.c:42-157 | a live process runs in every run with more ticks than its distance plus the loads that delay it, which are at most all loads |
| `Scheduler.ProcessTable.Tick` | kernel/src/user/process.c:42-64 | the next process in list order, always a live one; none exactly when the list is empty |
| `Scheduler.ProcessTable.Load` | kernel/src/user/process.c:116-157 | a new process with the next id at the head, or 0 when ids have run out |
| `Scheduler.ProcessTable.GetProcess` | kernel/src/user/process.c:110-114 | the live process with that id, or null exactly when there is none |
| `Scheduler.ProcessTable.ExitCurrent` | kernel/src/user/process.c:71-81 | exactly the current process leaves the list, and stays current until the next tick |
| `Numerals.NumeralDenotes` | kernel/src/stdlib/stdlib.c:24-35 | the numeral has only digits of its base, no leading zero, and denotes the number |
| `Numerals.NumeralIsUnique` | kernel/src/stdlib/stdlib.c:24-35 | it is the only string that does |
| `Numerals.DigitCharacter` | kernel/src/stdlib/stdlib.c:27-27 | digits are '0' to '9' and then capital letters |
| `Numerals.Digits` | kernel/src/stdlib/stdlib.c:16-22 | the length of the numeral |
| `Numerals.Utoa` | kernel/src/stdlib/stdlib.c:24-35 | the numeral and a terminator, no other character changed; nothing for a base outside 2 to 36 |
| `Numerals.Itoa` | kernel/src/stdlib/stdlib.c:50-56 | the sign and the numeral, terminated; the answer points behind the sign |
| `Numerals.Atoi` | kernel/src/stdlib/stdlib.c:117-137 | the number after white space and one optional sign, up to the first character that is no digit |
| `Numerals.ParsedByParts` | kernel/src/stdlib/stdlib.c:117-137 | blanks, at most one sign and the digits behind it decide the number, and what follows the digits does not |
| `Numerals.ParsedText` | kernel/src/stdlib/stdlib.c:50-137 | parsing the base-10 text of a number gives the number back |
| `Numerals.RoundTrip` | kernel/src/stdlib/stdlib.c:50-137 | `atoi` of what `itoa` wrote is the value, for every int above the least |
| `Terminal.VgaTerminal.constructor` | kernel/src/io/vga_terminal.c:78-87 | a blank screen is the window onto the empty transcript |
| `Terminal.VgaTerminal.Scroll` | kernel/src/io/vga_terminal.c:54-66 | every row moves up by one despite copying in place, and the last one is blank |
| `Terminal.VgaTerminal.AdvanceCursor` | kernel/src/io/vga_terminal.c:68-76 | the cursor stays on the screen, and passing the bottom shows the transcript one row further |
| `Terminal.VgaTerminal.PutChar` | kernel/src/io/vga_terminal.c:89-98 | the screen is the 25-row window onto the transcript with that character added |
| `Terminal.VgaTerminal.SwitchColorScheme` | kernel/src/io/vga_terminal.c:104-106 | what is on the screen stays as it is, and what is written later has the new colour |
| `Terminal.Replay` | kernel/src/io/vga_terminal.c:54-106 | for any inputs the screen is the window onto the transcript of all of them |
| `Terminal.TranscriptIsLossless` | kernel/src/io/vga_terminal.c:54-98 | the transcript holds every printed character in order and colour, and rows break only at newlines and at the right edge |
| `Terminal.ColorInForce` | kernel/src/io/vga_terminal.c:104-106 | the colour in force is the last one switched to, at first the default |
| `Terminal.CharacterStays` | kernel/src/io/vga_terminal.c:89-98 | every character stays, in the colour then in force, at the row and column it was written to |
| `Terminal.CharacterIsOnScreen` | kernel/src/io/vga_terminal.c:54-98 | a character is on the screen, at its row and column, until 25 rows have been begun behind its own |

## Left out

- Liballoc.Heap.Malloc: requires that the sizes derived from the request stay below 2^32, so the branch for a wrapped size of 0 is not there; the page provider's answer is a parameter, 0 for a refusal.
- Liballoc.Heap.Free: requires a header to be readable behind the pointer, so what the code reads from pages already given back is not modelled; headers are kept by address apart from the bytes, so neither is a payload byte written over a stale header. `l_bestBet` is proved to be what the code makes it, not the major with the most free memory.
- Liballoc.Heap.Realloc: excludes a failed inner `malloc`, after which the code copies to address 0.
- Liballoc.Heap.CopyBytes: for ranges that do not overlap, as in its only caller.
- `calloc`, the interrupt lock around the heap, and the debugging output.
- Bitmaps.Bitmap.MarkInBitmap: ranges lie between the dead zone and the end, and the words cover them.
- Paging.Mmu.GetPte: process directories are consulted for user-half pages only; for a kernel-half page the temporary window can be the very entry that is read. A free kernel-half page is required for the window.
- Paging.Mmu.SetPte: user-half pages only and a free kernel-half page, as `GetPte`; the TLB flush through CR3 is not modelled.
- Paging.Mmu.AllocateContiguous: in the kernel directory; when no run of pages exists, the pages written over must hold no process directory.
- Paging.Mmu.FreeContiguous: in the kernel directory, for pages that hold no process directory and no frame of the kernel image.
- Paging.Mmu.CreateAddressSpace: the image must be mapped, end below the kernel half and hold no directory, and the frames for directory and page tables must be available.
- Paging.Mmu.CreateStack: the pages must be unmapped, end below the kernel half and not reach page 0 (which the code never maps); a free kernel-half page is required.
- Paging.Mmu.constructor: the kernel image covers at least the low megabyte, as its own 4 MB page table makes sure of.
- `X86DeleteAddressSpace` (both loops stop at the first unmapped page, so it does not release everything), directory switching, page fault reports.
- Fat32File.FileDescriptor.ReadOp: 512-byte sectors, readable table entries for the clusters of the chain, a non-zero first cluster unless reading at 0, and a buffer for what the code sets out to read; `malloc` inside the reader succeeds, and the scratch buffer of `NextCluster` that is never freed is ignored. The code does not look at the file's size, so neither does the model.
- Fat32File.FileDescriptor.ReadTwice: each read meets its leading-part condition and positions stay below 2^32 clusters.
- Path traversal, directory entries, mounting, partitions and disks.
- Scheduler.ProcessTable.Load: the list and id part; the address space, kernel stack and files of the process are left out.
- Scheduler.ProcessTable.ExitCurrent: only the current process is removed, as in the callers; the static `next`, which nothing ever sets, is left out.
- Numerals.Itoa: excludes the least int, whose negation overflows; the lower-case variants are the same code with another alphabet.
- Numerals.Atoi: excludes texts whose digits exceed an int.
- Terminal.VgaTerminal.AdvanceCursor: for the arguments of its two callers; the hardware cursor ports are left out.
- Formatted output, the GDB stub, system calls, interrupts, PCI, IDE, UART and all other device access.

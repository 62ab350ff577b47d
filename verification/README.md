# LambOS memory stack, verified in Dafny

This project models the memory stack of the LambOS kernel and the small library
components that have a simple specification to agree with, and proves what they
promise. From the bottom up:

| file | module | models |
|---|---|---|
| `Options.dfy` | `Options` | a value that may be absent |
| `BitSet.dfy` | `BitSets` | the bitmap of 32-bit units, refined to a set of indices |
| `PageFrameAllocator.dfy` | `PageFrames` | next-fit allocation of physical frames |
| `PageTables.dfy` | `PageTables` | the two-level page walk, the recursive self-map, who owns which frame |
| `Mmu.dfy` | `Mmus` | table creation, both forms of page allocation, page release |
| `Boot.dfy` | `Boot` | reserving the kernel, the growing identity map, turning paging on |
| `PagingRuns.dfy` | `PagingRuns` | any interleaving of page allocations and releases |
| `HeapModel.dfy`, `HeapLinks.dfy`, `HeapState.dfy` | `HeapModel`, `HeapLinks`, `HeapStates` | the abstract heap, its linked headers, the invariant and the edits that keep it |
| `HeapSearch.dfy` | `HeapSearches` | which block serves a request, and what the best-bet hint becomes |
| `Heap.dfy` | `Heaps` | `malloc`, `free`, `realloc` as they run |
| `HeapRuns.dfy` | `HeapRuns` | the heap as its clients see it, over whole runs |
| `HeapResidue.dfy`, `HeapLoans.dfy` | `HeapResidue`, `HeapLoans` | allocations that are all returned, in any order, leave no trace |
| `SharedMemory.dfy` | `SharedMemory` | the heap and everyone else who holds pages, in one address space |
| `ElfSegments.dfy`, `ElfTransaction.dfy`, `ElfLoader.dfy`, `ElfRuns.dfy` | the same names | program segments, the state of a load, loading and unloading, a loaded program among other activity |
| `FileReader.dfy` | `FileReaders` | the random-access cache over a stream |
| `Bytes.dfy`, `Transcript.dfy`, `Console.dfy` | `Bytes`, `Transcripts`, `Consoles` | overlapping copies, what a console must show, the scrolling console |
| `Digits.dfy` | `Digits` | the two integer printers |
| `Tokenizer.dfy` | `Tokenizers` | the two tokenizers |

The layers are connected: the heap's system calls are the page allocator of
`Mmus`, whose frames come from the bitmap, and the ELF loader is a transaction
over the same page allocator that keeps its list on the same heap. Nothing below
a layer is assumed.

How the model reads the code:

- A `panic` does not return. Methods report it (`Panicked`, `Aborted`,
  `OutOfFrames`, `ok == false`) and promise only why it happened; whoever calls
  them stops there.
- Undefined behaviour is an outcome, not a precondition: a scan past the bitmap
  (`past`), a read past the file cache (`Overrun`), a copy to address 0 when
  `realloc` has contents to move and no room for them (`CopiesToNull`), a list
  node at address 0 when the heap is exhausted during a load (`NodeAtNull`), a
  negation that overflows (`ok == false`). Each contract states when it happens.
- Free frames are counted by `FreeCount`, which is the size of the set of free
  frames (`FreeCountIsSize`).
- Page tables live in physical memory, frame by frame. Every access after paging
  is on goes through the page walk, so that the self-map theorem is what makes
  the code's table accesses correct. The walk is that of section 4.3, "32-Bit
  Paging", of the Intel SDM, volume 3A.
- Words are natural numbers below 2^32 and the bit operations on them are written
  out arithmetically.
- The heap's headers are maps from addresses to records and its payload bytes a
  map from addresses to values. That the two never meet is proved
  (`PayloadsDisjoint`, `PayloadOffBlockHeader`, `PayloadInside`).
- Class state has a ghost abstract value (`contents`, `blocks`, `owner`) that
  `Valid()` ties to the real fields. A block of the heap records the frames its
  pages are on, so that an unchanged block list means unmoved pages.
- Who else holds pages beside the heap is a ghost object (`Others`) that no heap
  operation modifies; the heap's invariant says that their pages have not moved.
- Large invariants are stated one side at a time (`Facet`, `Side`, `Concern`,
  `Matter`), so that a proof looks only at the side it needs.

## Model

| member | source | states |
|---|---|---|
| BitSets.BitOfOrMask | libsys/include/util/BitSet.hpp:44-49 | or-ing a mask into a unit sets that bit and no other |
| BitSets.BitOfAndNotMask | libsys/include/util/BitSet.hpp:51-56 | and-ing with a complemented mask clears that bit and no other |
| BitSets.BitSet.constructor | libsys/include/util/BitSet.hpp:32-33 | a new set is empty, or full when asked for |
| BitSets.BitSet.Contains | libsys/include/util/BitSet.hpp:36-36 | the word-level test is membership |
| BitSets.BitSet.Set | libsys/include/util/BitSet.hpp:44-49 | adds one index, reports whether it was there, touches no other index |
| BitSets.BitSet.Unset | libsys/include/util/BitSet.hpp:51-56 | removes one index, reports whether it was there |
| BitSets.BitSet.Assign | libsys/include/util/BitSet.hpp:24-24 | assignment through the proxy adds or removes one index |
| PageFrames.PageFrameAllocator.LoadMemoryMap | kernel/src/arch/i386/mem/PageFrameAllocator.cpp:28-42 | exactly the frames of available regions become usable |
| PageFrames.PageFrameAllocator.MarkFrameUsable | kernel/src/arch/i386/mem/PageFrameAllocator.cpp:44-48 | changes the usable state of one frame |
| PageFrames.PageFrameAllocator.RequestFrameIndex | kernel/src/arch/i386/mem/PageFrameAllocator.cpp:56-64 | succeeds exactly on a usable free frame, and then takes only it |
| PageFrames.PageFrameAllocator.FindFrames | kernel/src/arch/i386/mem/PageFrameAllocator.cpp:72-91 | takes a window exactly when all of it is usable and free; a window that reaches past the bitmap is read past its end |
| PageFrames.PageFrameAllocator.Alloc | kernel/src/arch/i386/mem/PageFrameAllocator.cpp:66-111 | the next-fit window after the last allocation with wraparound; no frame exactly when no window exists; only its bits flip; runs past the bitmap exactly when several frames are asked for and no window lies at or after the starting point |
| PageFrames.PageFrameAllocator.FreeFrames | kernel/src/arch/i386/mem/PageFrameAllocator.cpp:113-119 | removes exactly the range from the used frames |
| PageTables.MappedEntryForm | kernel/include/mem/PageTable.hpp:39-45 | building an entry and setting its flags gives the frame and the two flags |
| PageTables.MappedEntryFields | kernel/include/mem/PageTable.hpp:42-48 | masking an entry gives back its frame and its flags |
| PageTables.SelfMap | kernel/src/arch/i386/mem/MMU.cpp:22-43 | with the last directory entry pointing at the directory, walking 0xFFC00000 + 4096 i + 4 j reaches entry j of table i exactly when that table exists; i = 1023 reaches the directory |
| PageTables.WithTableSound | kernel/src/arch/i386/mem/MMU.cpp:216-233 | hanging a new cleared table keeps ownership sound and changes no translation below the self-map window |
| PageTables.EntryWalk | kernel/include/mem/PageTable.hpp:94-98 | writing one table entry changes the translation of that page alone |
| PageTables.MapSound | kernel/src/arch/i386/mem/MMU.cpp:257-263 | mapping an unmapped page to a free frame keeps ownership sound |
| PageTables.UnmapSound | kernel/src/arch/i386/mem/MMU.cpp:196-202 | unmapping a page and returning its frame keeps ownership sound |
| PageTables.NoTwoOwners | kernel/src/arch/i386/mem/MMU.cpp:190-274 | the frame of a dynamic page is used, usable, not the directory, not a page table, and mapped by no other page, identity-mapped pages included |
| PageTables.DynamicWritable | kernel/src/arch/i386/mem/MMU.cpp:251-274 | at any time every dynamic page is mapped present and writable with no other flag, and so is its table |
| Mmus.ScanStep | kernel/src/arch/i386/mem/MMU.cpp:139-156 | one step of the scan: the count is the run of unmapped pages just behind, and no earlier run was long enough |
| Mmus.RunsAvoidWindow | kernel/src/arch/i386/mem/MMU.cpp:130-164 | once every directory entry is present, no run of unmapped pages reaches the self-map window |
| Mmus.Mmu.ClearTable | kernel/src/arch/i386/mem/MMU.cpp:216-233 | clearing through the self-map zeroes exactly that table |
| Mmus.Mmu.GetOrCreateTable | kernel/src/arch/i386/mem/MMU.cpp:216-233 | the table exists afterwards; translations are unchanged and only a table frame was taken; fails exactly for an index above 1023 or a missing table with no free frame |
| Mmus.Mmu.AllocatePages | kernel/src/arch/i386/mem/MMU.cpp:251-274 | every page of the run gets a frame of its own that was free, with the entry present and writable and no other flag; every other mapped page keeps its whole entry; panics exactly when fewer than n frames are free; page by page the next frame in next-fit order |
| Mmus.Mmu.Palloc | kernel/src/arch/i386/mem/MMU.cpp:130-164 | the lowest run of n unmapped pages, across directory entries and outside the self-map window; its pages writable, all others with the entry they had; null exactly when there is none or n is 0; panics exactly when the free frames are fewer than the tables lacking up to the end of that run plus n, or than all lacking tables when there is no run; exactly the tables lacking on the way are made; the new tables, slot by slot, and then the pages get the next frames in next-fit order, and no other frame is drawn |
| Mmus.Mmu.PallocAt | kernel/src/arch/i386/mem/MMU.cpp:166-188 | succeeds exactly for a non-null aligned address whose pages are all unmapped; its pages are then writable and all others keep their entries; refused, it changes no translation; panics exactly when the address is aligned and the free frames are fewer than the tables lacking up to the first mapped page plus, with none mapped and the address not null, n; exactly the tables lacking on the way are made; frames are drawn in the same order |
| Mmus.Mmu.Pfree | kernel/src/arch/i386/mem/MMU.cpp:190-210 | unmaps exactly the range and returns exactly its frames; -1 and no change for an empty range; tables and the next-fit position stay |
| Boot.ReserveKernel | kernel/src/arch/i386/mem/MMU.cpp:58-75 | low memory becomes unusable and the kernel's frames used; fails exactly when one of them is not available |
| Boot.CreateDirectory | kernel/include/arch/i386/mem/MMU.hpp:44-44 | the directory gets the lowest free frame |
| Boot.FillNext | kernel/src/arch/i386/mem/MMU.cpp:104-120 | one more frame identity-mapped keeps the half-built map |
| Boot.BuildIdentityMap | kernel/src/arch/i386/mem/MMU.cpp:95-123 | the loop whose bound grows as it allocates tables ends with every frame up to the last table mapped, one table for each 1024 frames |
| Boot.FinishedIsSound | kernel/src/arch/i386/mem/MMU.cpp:122-127 | installing the self-map on the finished map gives a sound address space |
| Boot.Install | kernel/src/arch/i386/mem/MMU.cpp:77-128 | everything up to the bound is identity-mapped, read-only where it must be, all tables and the directory included; everything above is unmapped; only tables were added to the used frames; with exactly the tables this takes |
| Boot.StartPaging | kernel/src/arch/i386/mem/MMU.cpp:58-128 | from the memory map to a sound address space: constructor, directory and install together; it fails only when a kernel frame is not available or frames run out; the directory in the lowest frame left |
| PagingRuns.FramesApart | kernel/src/arch/i386/mem/MMU.cpp:190-274 | disjoint sets of dynamic pages have disjoint frames, and none is a page table |
| PagingRuns.AllocateAnywhere | kernel/src/arch/i386/mem/MMU.cpp:130-164 | adds the lowest run of n pages to what is held, and nothing exactly when there is none; the held ranges stay where they are; exact panic condition |
| PagingRuns.AllocateAt | kernel/src/arch/i386/mem/MMU.cpp:166-188 | adds the range asked for, or changes no translation; exact panic condition |
| PagingRuns.ReleaseExtent | kernel/src/arch/i386/mem/MMU.cpp:190-210 | gives back one held range and leaves the others mapped as they were |
| PagingRuns.Step | kernel/src/arch/i386/mem/MMU.cpp:130-210 | one operation does what it promises, stated as a relation between the states before and after; it panics exactly when it demands more frames than are free |
| PagingRuns.Execute | kernel/src/arch/i386/mem/MMU.cpp:130-274 | every interleaving is a run of that relation, up to exactly the first operation that demands more frames than are free at that point; used frames are those at the start, the page tables and the frames of held pages; with nothing held every translation is what it was |
| PagingRuns.AllocThenFree | kernel/src/arch/i386/mem/MMU.cpp:130-210 | allocation in either form and release restore every translation and add exactly the page tables created; when it is granted, when it panics, and the state in between |
| HeapModel.CellsOrdered | libc/src/stdlib/liballoc.c:77-88 | allocations of a block are ordered by address and disjoint |
| HeapModel.GapsAreWhatIsUnused | libc/src/stdlib/liballoc.c:320-334 | the gaps of a block add up to its size minus its usage |
| HeapModel.SkipIsSound | libc/src/stdlib/liballoc.c:333-334 | a block with less unused memory than needed has no gap large enough |
| HeapModel.InsertedIsOk | libc/src/stdlib/liballoc.c:366-514 | an allocation placed at the start of a large enough gap keeps the block well formed, and usage grows by its size and header |
| HeapModel.RemovedIsOk | libc/src/stdlib/liballoc.c:637-649 | removing an allocation keeps the block well formed |
| HeapModel.RemoveUndoesInsert | libc/src/stdlib/liballoc.c:637-649 | removing what was inserted restores the list |
| HeapModel.PayloadInside | libc/src/stdlib/liballoc.c:24-37 | the payload is 16-aligned, inside its own allocation, with room for the alignment word in front |
| HeapModel.GrossSizeSuffices | libc/src/stdlib/liballoc.c:248-253 | the adjusted size has room for any alignment exactly when the addition does not wrap |
| HeapModel.PagesSuffice | libc/src/stdlib/liballoc.c:189-205 | the pages asked for hold the request and both headers exactly when their sum does not wrap |
| HeapModel.PagesFor | libc/src/stdlib/liballoc.c:191-204 | the least number of at least 16 pages that holds the size with both headers |
| HeapLinks.InsertedCells | libc/src/stdlib/liballoc.c:404-514 | the pointer writes of the placing cases link the new header between its neighbours |
| HeapLinks.RemovedCells | libc/src/stdlib/liballoc.c:642-649 | the pointer writes of `free` unlink the header and mark it dead |
| HeapLinks.MajorsAfterAppend | libc/src/stdlib/liballoc.c:353-357 | hooking a block behind the last one keeps the block list linked |
| HeapLinks.MajorsAfterUnhook | libc/src/stdlib/liballoc.c:656-660 | unhooking a block keeps the rest of the list linked |
| HeapStates.TakeGapKeepsInv | libc/src/stdlib/liballoc.c:366-514 | placing an allocation keeps the whole heap invariant: lists, usage, both totals, hint, alignment words |
| HeapStates.FreeCellKeepsInv | libc/src/stdlib/liballoc.c:637-649 | removing an allocation keeps it |
| HeapStates.GrowKeepsInv | libc/src/stdlib/liballoc.c:353-357 | adding a block keeps it |
| HeapStates.ShrinkKeepsInv | libc/src/stdlib/liballoc.c:654-662 | giving back an empty block keeps it |
| HeapStates.ResizeKeepsInv | libc/src/stdlib/liballoc.c:766-769 | recording a smaller request keeps it |
| HeapStates.WriteKeepsInv | libc/src/stdlib/liballoc.c:40-48 | an owner's writes inside its payload keep it, alignment words included, and touch no other allocation |
| HeapStates.CellsDisjoint | libc/src/stdlib/liballoc.c:239-563 | two allocations never overlap, in one block or across blocks |
| HeapStates.HousedStays | libc/src/stdlib/liballoc_hook.cpp:18-20 | page tables that change for no held range leave every block on its frames |
| HeapStates.NewPagesApart | libc/src/stdlib/liballoc_hook.cpp:18-20 | a range nobody holds is disjoint from every existing block |
| HeapStates.NoRoomForEverything | libc/src/stdlib/liballoc.c:239-563 | no heap, on whatever page tables, has room for a request of 0xFFC00000 bytes or more |
| HeapStates.GrowingToEverythingFails | libc/src/stdlib/liballoc.c:774-779 | an input that shows the copy to address 0: any allocation of at least one byte, grown to 0xFFC00000 bytes or more, on every heap |
| Heaps.Heap.AllocateNewPage | libc/src/stdlib/liballoc.c:187-236 | a new block large enough for the request at the lowest run of pages, or no change exactly when there is no run |
| Heaps.Heap.AppendBlock | libc/src/stdlib/liballoc.c:353-357 | the heap with one more empty block |
| Heaps.Heap.PlaceIn | libc/src/stdlib/liballoc.c:364-520 | cases 2 to 4: the first gap that fits, or proof that the block has none |
| Heaps.Heap.PlaceFirst | libc/src/stdlib/liballoc.c:366-393 | case 2 places in an empty block |
| Heaps.Heap.PlaceFront | libc/src/stdlib/liballoc.c:399-428 | case 3 places before the first allocation |
| Heaps.Heap.PlaceBehind | libc/src/stdlib/liballoc.c:435-517 | case 4 walks the list to the first gap that fits |
| Heaps.Heap.AlignPointer | libc/src/stdlib/liballoc.c:24-37 | the aligned pointer, with the distance back written in front of it |
| Heaps.Heap.Advance | libc/src/stdlib/liballoc.c:340-357 | hop, restart at the root, grow or stop; each lowers the termination measure, and the restart makes sure every block is visited |
| Heaps.Heap.Search | libc/src/stdlib/liballoc.c:307-547 | the outer loop ends on every heap and hint, with the request placed or every block visited; the block that serves the request is the first with room on the way from the hinted block, or the first one, round the list |
| HeapSearches.TurnTaken | libc/src/stdlib/liballoc.c:320-345 | one turn of the search: what is known of the blocks passed by, and the best bet so far, on the first round and the second |
| HeapSearches.BestIsChampion | libc/src/stdlib/liballoc.c:324-328 | the best bet is the first block looked at with the most unused memory, unless the old one is as good as any |
| Heaps.Heap.Malloc | libc/src/stdlib/liballoc.c:239-563 | the search begins at the hinted block if that has more unused memory than needed, else at the first; the first block with room on the way round serves the request, at its first gap that fits; a new block, at the lowest run of pages, only when no gap of any block fits; the page tables change only for a new block; null exactly when the system has no pages either; the hint and the counters afterwards; other contents kept; invariant kept |
| Heaps.Heap.PayloadReadable | libc/src/stdlib/liballoc.c:40-48 | undoing the alignment of a returned pointer finds its header |
| Heaps.Heap.MagicMeansLive | libc/src/stdlib/liballoc.c:586-589 | a header with the magic number is that of a live allocation |
| Heaps.Heap.Unlink | libc/src/stdlib/liballoc.c:637-649 | removes exactly that allocation from its list |
| Heaps.Heap.ReturnBlock | libc/src/stdlib/liballoc.c:654-662 | an emptied block leaves the list and its pages and frames go back |
| Heaps.Heap.Free | libc/src/stdlib/liballoc.c:566-680 | a live pointer loses its allocation and an emptied block is returned; a dead one only counts an error; null only counts a warning; the hint afterwards: forgotten with its block, or the freed block if it now has more unused memory; the counters; the page tables, which change only when the block is returned |
| Heaps.Heap.CopyBytes | libc/src/stdlib/liballoc.c:119-140 | the word-then-byte copy copies every byte |
| Heaps.Heap.MoveLarger | libc/src/stdlib/liballoc.c:774-779 | allocate, copy, free: the contents move, everything else stays; the unchecked copy to null happens exactly when there was no room and there are bytes to copy; a zero-byte allocation without room is freed and null returned; blocks and hint are what that `malloc` and that `free` make of them |
| Heaps.Heap.Realloc | libc/src/stdlib/liballoc.c:698-780 | the first min(old, new) bytes survive and so does every other allocation; all its cases, size 0, null and zero-byte allocations included; a panic only when it must allocate, no gap fits and no frame is left; in each case what becomes of blocks, hint and counters |
| HeapRuns.PayloadsDisjoint | libc/src/stdlib/liballoc.c:239-563 | no payload meets another payload or another allocation's header |
| HeapRuns.PayloadOffBlockHeader | libc/src/stdlib/liballoc.c:65-88 | no payload meets a block header |
| HeapRuns.ClientView | libc/src/stdlib/liballoc.c:239-563 | live pointers are non-null and 16-aligned, hold what was stored and do not overlap |
| HeapRuns.Step | libc/src/stdlib/liballoc.c:239-780 | each operation does to the heap what it does to a map of private buffers; null exactly when there is no room, and a zero-byte buffer grown without room is gone; why it stops; and what it does to blocks, hint and page tables |
| HeapRuns.Execute | libc/src/stdlib/liballoc.c:239-780 | every run of `malloc`, `free`, `realloc` (of null, of zero-byte buffers and to size 0 included) and stores is a run of a map of private buffers, to its end or to an operation that needs an allocation no gap can serve while no frame is left, or that would copy contents to address 0; at each step blocks, hint and page tables become exactly what that operation makes of them |
| HeapRuns.MallocThenFree | libc/src/stdlib/liballoc.c:239-680 | with any stores through the pointer in between, the identity on the block list, all allocation lists, usage and both totals, whichever case served the request |
| HeapResidue.ResidueAfterMalloc | libc/src/stdlib/liballoc.c:239-563 | an allocation that is disregarded changes nothing of the rest of the heap |
| HeapResidue.ResidueAfterFree | libc/src/stdlib/liballoc.c:566-680 | freeing a disregarded allocation changes nothing of the rest, a returned block included |
| HeapLoans.Borrow | libc/src/stdlib/liballoc.c:239-563 | an allocation to be returned; everyone else's pages stay where they are |
| HeapLoans.Return | libc/src/stdlib/liballoc.c:566-680 | gives one back; everyone else's pages stay where they are |
| HeapLoans.AllReturned | libc/src/stdlib/liballoc.c:239-680 | once all are returned, in any order, the heap is block for block what it was |
| SharedMemory.NeverMeet | libc/src/stdlib/liballoc_hook.cpp:18-20 | the pages of a heap block are nobody else's, and neither are the frames behind them |
| SharedMemory.EveryFrameAccounted | kernel/src/arch/i386/mem/MMU.cpp:130-274 | every frame in use was in use at the start, is a page table, or backs a page that the heap or someone else holds |
| SharedMemory.Start | libc/src/stdlib/liballoc_hook.cpp:18-20 | an empty heap over an address space just set up |
| SharedMemory.TakeAnywhere | kernel/src/arch/i386/mem/MMU.cpp:130-164 | someone else's allocation leaves the heap valid and every block on its frames |
| SharedMemory.TakeAt | kernel/src/arch/i386/mem/MMU.cpp:166-188 | the same for a fixed address, with the exact condition |
| SharedMemory.GiveBack | kernel/src/arch/i386/mem/MMU.cpp:190-210 | the same for a release |
| SharedMemory.StepHeap | libc/src/stdlib/liballoc.c:239-780 | a heap operation leaves everyone else's pages where they are |
| SharedMemory.StepPages | kernel/src/arch/i386/mem/MMU.cpp:130-210 | a page operation leaves the heap and every payload alone; it panics exactly when it demands more frames than are free |
| SharedMemory.Execute | kernel/src/arch/i386/mem/MMU.cpp:130-274 | any interleaving of heap and page operations is a run in which each does what it does alone |
| ElfSegments.BytesApart | kernel/src/proc/elf/Executable.cpp:219-249 | different bytes of dynamic pages are different bytes of physical memory |
| ElfSegments.SegmentSurvives | kernel/src/proc/elf/Executable.cpp:226-241 | filling one segment leaves another as it was |
| ElfSegments.NextLoadable | kernel/src/proc/elf/Executable.cpp:226-234 | with earlier segments in place, the next is accepted exactly when it asked for unmapped pages clear of theirs and of what others have taken since |
| ElfSegments.PageCount | kernel/src/proc/elf/Executable.cpp:228-228 | the least number of pages that holds the segment |
| ElfSegments.LoadableIsWelcome | kernel/src/proc/elf/Executable.cpp:219-251 | what can be loaded, told byte by byte, without counting pages |
| ElfTransaction.OnlySinceIsNew | kernel/src/proc/elf/Executable.cpp:219-251 | during a load every page mapped before is where it was, and the new ones are the segments' and the heap's |
| ElfTransaction.BackAsBefore | kernel/src/proc/elf/Executable.cpp:219-267 | with the same ranges held and the same blocks, every translation is back and only page tables were added |
| ElfTransaction.StagesKeepPages | kernel/src/proc/elf/Executable.cpp:234-234 | a heap with room for the list takes no page during a load |
| ElfTransaction.StageMaps | kernel/src/proc/elf/Executable.cpp:219-251 | what a segment finds mapped is what was mapped at the start, the segments before it and what the heap has taken since; so where the heap grows next can be told beforehand |
| ElfLoader.Executable.Fill | kernel/src/proc/elf/Executable.cpp:236-240 | file bytes, then zeros up to the memory size; no other dynamic byte changes |
| ElfLoader.Executable.MapNext | kernel/src/proc/elf/Executable.cpp:228-232 | a segment is mapped exactly when it was loadable and the heap has not taken its pages |
| ElfLoader.Executable.Enqueue | libsys/include/util/LinkedList.hpp:134-143 | an entry takes two allocations from the heap; in which gap or at which lowest run each went, which pages that mapped, and that nothing held moves |
| ElfLoader.Executable.Destroy | kernel/src/proc/elf/Executable.cpp:24-29 | every armed range is given back and every node freed |
| ElfLoader.Executable.LoadSegments | kernel/src/proc/elf/Executable.cpp:219-251 | all or nothing: succeeds exactly when every segment is at an aligned address, no byte of one lies on a mapped page or on a page of another, and the heap has not taken those pages meanwhile, with room for the list exactly when the first two hold; then shows every segment and holds exactly the pages its bytes lie on; refused, every translation is restored; either way the heap is block for block what it was and bytes mapped before are kept |
| ElfLoader.Executable.UnloadSegments | kernel/src/proc/elf/Executable.cpp:253-267 | gives back exactly the segments; panics exactly when one of them has no memory |
| ElfRuns.RunBeside | kernel/src/proc/elf/Executable.cpp:219-251 | a loaded program's bytes survive any heap and page operations of others |
| ElfRuns.LoadRunUnload | kernel/src/proc/elf/Executable.cpp:219-267 | load, anything else, unload: nothing of the program is held, and if the others hold what they held every translation is back |
| ElfRuns.HeapInTheWay | libsys/include/mem/ArcPtr.hpp:214-215 | an input for which loadable segments are refused: the list node of the first takes the page the second wants |
| FileReaders.FileReader.ReadStream | libsys/include/io/InputStream.hpp:65-76 | appends what the stream has to the cache |
| FileReaders.FileReader.Read | libsys/src/io/FileReader.cpp:9-37 | the file's byte or the end of file; the cache stays a prefix of the stream; the capacity afterwards; overruns exactly when an uncached offset inside the file is at least twice the capacity |
| FileReaders.FileReader.ReadRange | libsys/src/io/FileReader.cpp:39-60 | exactly the bytes of the file in the range, the rest of the buffer untouched |
| FileReaders.FileReader.ReadAll | libsys/src/io/FileReader.cpp:62-66 | the whole file is cached, without overrun |
| FileReaders.ReadEach | libsys/src/io/FileReader.cpp:9-37 | reads in any order answer as the file does; one overruns exactly when, the end not met before, it leaps over a whole doubling of the capacity that all before it stayed below |
| FileReaders.ReadEachNew | libsys/src/io/FileReader.cpp:9-37 | for a new reader: whether any read overruns, and which, from the offsets and the length of the file alone |
| FileReaders.ReadAllThenEach | libsys/src/io/FileReader.cpp:9-66 | after `readAll`, reads in any order never overrun |
| FileReaders.FarRead | libsys/src/io/FileReader.cpp:16-22 | the first read of a new reader overruns exactly at offsets from 1024 up to the end of the file |
| Bytes.MemMove | libc/include/bits/string-inl.h:46-60 | the block arrives intact for every overlap and nothing else changes |
| Transcripts.TranscriptStep | kernel/src/arch/i386/device/display/VGATextConsole.cpp:68-88 | what one more character does to the laid-out text |
| Transcripts.LinesKeep | kernel/src/arch/i386/device/display/VGATextConsole.cpp:70-75 | joining the lines gives back the text |
| Transcripts.LinesAreLines | kernel/src/arch/i386/device/display/VGATextConsole.cpp:70-75 | no line contains a newline |
| Transcripts.CutKeeps | kernel/src/arch/i386/device/display/VGATextConsole.cpp:77-84 | the rows of a line are 80 wide but the last, and together are the line |
| Transcripts.ScreenExtend | kernel/src/arch/i386/device/display/VGATextConsole.cpp:62-66 | a character changes one cell of the visible part |
| Transcripts.ScreenNewRow | kernel/src/arch/i386/device/display/VGATextConsole.cpp:90-103 | a new row scrolls the visible part when it is full |
| Transcripts.ColourKept | kernel/src/arch/i386/device/display/VGATextConsole.cpp:13-18 | or-ing the sign-extended character with the shifted colour keeps the colour exactly for characters below 0x80 (or colour 0xFF) |
| Consoles.RowsMoved | kernel/src/arch/i386/device/display/VGATextConsole.cpp:94-94 | moving bytes moves whole rows of cells |
| Consoles.VgaTextConsole.constructor | kernel/src/arch/i386/device/display/VGATextConsole.cpp:34-38 | a new console shows the empty text |
| Consoles.VgaTextConsole.Clear | kernel/src/arch/i386/device/display/VGATextConsole.cpp:40-50 | a cleared console shows the empty text |
| Consoles.VgaTextConsole.MoveTo | kernel/src/arch/i386/device/display/VGATextConsole.cpp:105-112 | moves the cursor, and the display's cursor only when it is visible |
| Consoles.VgaTextConsole.PutCharAt | kernel/src/arch/i386/device/display/VGATextConsole.cpp:62-66 | writes one cell |
| Consoles.VgaTextConsole.Scroll | kernel/src/arch/i386/device/display/VGATextConsole.cpp:90-103 | rows move up, blanks come in below, the cursor stays |
| Consoles.VgaTextConsole.PutChar | kernel/src/arch/i386/device/display/VGATextConsole.cpp:68-88 | the screen stays the last 25 rows of the transcript, the cursor just behind its last character |
| Consoles.VgaTextConsole.SetCursorVisible | kernel/src/arch/i386/device/display/VGATextConsole.cpp:143-151 | the display's cursor is at the console's cursor when visible and parked when not |
| Consoles.VgaTextConsole.WriteString | kernel/src/arch/i386/device/display/VGATextConsole.cpp:119-131 | after any text the screen is the last 25 rows of the unbounded 80-column transcript, padded with blanks |
| Digits.ParseNumeral | libc/src/stdlib/itoa.c:9-36 | a numeral parses back to its value |
| Digits.NumeralParse | libc/src/stdlib/itoa.c:9-36 | it is the only digit string without a leading zero that does |
| Digits.NoLeadingZero | libc/src/stdlib/itoa.c:17-33 | only zero starts with the digit 0 |
| Digits.NumeralLength | libc/src/stdlib/itoa.c:16-22 | a value of w bits has at most w digits |
| Digits.CountDigits | libc/src/stdlib/itoa.c:16-20 | the counting loop counts the digits the filling loop writes |
| Digits.WriteUnsigned | libc/src/stdlib/itoa.c:9-36 | the numeral and its terminator, with nothing else in the buffer changed |
| Digits.WriteSigned | libc/src/stdlib/itoa.c:38-50 | a sign and the magnitude; undefined exactly for the least value of a type of 32 bits or more |
| Digits.Xtoa | libc/src/stdlib/itoa.c:52-63 | the base clamped to 2..32; base 10 is signed, the others print two's complement; the text reads back as the value, or as its bits |
| Digits.PrintedParses | libc/src/stdlib/itoa.c:52-63 | every printed value reads back: in base 10 the value itself, in any other the number of w bits that differs from it by a multiple of 2^w; no leading zero; length bounded by the width |
| Digits.AppendUnsigned | libsys/include/util/String.hpp:35-49 | appends the same numeral by reversing |
| Digits.AppendSigned | libsys/include/util/String.hpp:51-60 | appends what the buffer writer prints; the text reads back as the value, or as its bits |
| Digits.PrintersAgree | libsys/include/util/String.hpp:35-60 | both printers give the same string for every value and base |
| Tokenizers.RunsAreRuns | libsys/src/util/StringTokenizer.cpp:18-29 | what is found are maximal non-empty runs free of delimiters, in order |
| Tokenizers.RunsExactly | libsys/src/util/StringTokenizer.cpp:18-68 | a span is found exactly when it is such a run |
| Tokenizers.StringTokenizer.HasNextToken | libsys/src/util/StringTokenizer.cpp:13-16 | true exactly while runs remain |
| Tokenizers.StringTokenizer.NextToken | libsys/src/util/StringTokenizer.cpp:18-29 | the next run, or the empty string when none remains |
| Tokenizers.StringTokenizer.Reset | libsys/src/util/StringTokenizer.cpp:31-35 | starts over on another text |
| Tokenizers.StringTokenizer.TokenStart | libsys/src/util/StringTokenizer.cpp:37-54 | the first index that is not a delimiter |
| Tokenizers.StringTokenizer.TokenEnd | libsys/src/util/StringTokenizer.cpp:57-68 | the last index before the next delimiter |
| Tokenizers.Tokenize | libsys/src/util/StringTokenizer.cpp:13-68 | iterating gives every run once, in order |
| Tokenizers.Strtok.Next | libc/src/string/strtok.c:7-49 | the next run, cut off in place; null exactly when none remains |
| Tokenizers.TokenizeInPlace | libc/src/string/strtok.c:7-49 | iterating gives every run, and each is still readable at the end |
| Tokenizers.TokenizersAgree | libc/src/string/strtok.c:7-49 | both tokenizers give the same tokens |

## Left out

- Heaps.Heap.Malloc: requires that the request plus 80 bytes of overhead stays below 2^32, since the code does not check for wrap-around; GrossSizeSuffices and PagesSuffice prove that this is exactly where its size computations hold. The same condition is on Realloc and the runs.
- Heaps.Heap.AllocateNewPage: requires, for the same reason, that the size with both headers stays below 2^32.
- Heaps.Heap.Free: takes pointers whose alignment word and header can be read; a wild pointer reads memory that is not part of this model. Overwritten headers (payload overruns) are not modelled, so the magic number of a header is always live or dead.
- HeapRuns.Execute: a client uses only null and pointers it holds; what `free` and `realloc` do with a dead pointer is in their own contracts.
- Mmus.Mmu.PallocAt: the range must stay below the self-map window and not wrap around 2^32.
- SharedMemory.TakeAt: the same limit on the range.
- Mmus.Mmu.Pfree: the range must be dynamically mapped; the code frees whatever the entries hold.
- PageFrames.PageFrameAllocator.LoadMemoryMap: regions lie below 4 GiB; the list is a sequence of regions, not records to step through by their size field.
- Boot.StartPaging: available frames lie below the self-map window, and the read-only part ends before the kernel does.
- ElfLoader.Executable.Fill: a segment's file bytes do not exceed its memory size.
- ElfLoader.Executable.LoadSegments: wanted segments lie below the self-map window and their file bytes do not exceed their memory size; parsing the headers is left out. When the heap is exhausted the list node is constructed at address 0 and loading is not followed further.
- ElfLoader.Executable.Enqueue: a node takes 20 bytes and its reference count 16, their sizes on i386; what is stored in them is not modelled, only that they are allocated and freed.
- ElfLoader.Executable.UnloadSegments: every segment has alignment 0x1000; the code also frees segments that loading skipped.
- ElfRuns.LoadRunUnload: no segment is skipped or empty, and the others give back nothing they held at the start.
- Transcripts.Screen: one colour from clearing on; colour changes in between are not modelled.
- Consoles.VgaTextConsole.WriteString: the text is a sequence, so finding its terminator is left out.
- FileReaders.FileReader.Read: offsets are unbounded and the cache can always be enlarged. In the code, `1 + (offset - extent)` wraps to 0 at offset 2^32 - 1 of an empty cache, and a failed allocation of the larger cache is not checked.
- FileReaders.FarRead: the same two limits.
- FileReaders.FileReader.ReadRange: the end of the range does not wrap around 2^32.
- Bytes.MemMove: both blocks are in one buffer, which is where they can overlap.
- A program's bytes are kept by physical address and heap payloads by virtual address; NeverMeet proves that neither pages nor frames are shared.
- `size == 0` in `malloc` cannot happen, because the adjusted size is at least 32. A comment calls the hint the block with the most free memory; the code does not keep it so, and the model follows the code.
- `calloc`, the lock hooks (empty in this port) and debug output.
- TLB invalidation, control registers and enforcement of read-only pages: only the walk and the entries are modelled.
- Port I/O; the cursor position a display was last told is a field.
- `cloneDirectory` and address spaces other than the active one.
- HashMap, array lists, string ordering, the scheduler, ISO 9660, `printf`, the shell and device drivers.

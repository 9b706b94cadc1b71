# TrollOS: models and proofs

TrollOS is a small kernel for m68k machines. This project models its parts that change shared state in
the most intricate ways and proves what they keep: the 68040 memory manager, the process table with fork
and the scheduler, the kernel heap, the romfs driver with the path resolver above it, and the packet layer
of the debugger stub. `dafny verify dfyconfig.toml` checks everything.

## How it is built

Code that updates state is a class with the source's fields and loops. Beside it stands a value that holds
the whole state, a step function for each change, and lemmas saying what a step keeps; a method's contract
equates the new state with the step applied to the old one. Nested loops of the source are one method a level.

**Memory manager** (`Descriptors`, `Ownership`, `Translation`, `Growth`, `Mapping`, `Lifetimes`, `UserCopy`,
`Boot`, `Mmu040`). Physical memory is a map of frames of 1024 words, a word being cut into the fields of a
descriptor as in section 3 (Memory Management Unit) of the MC68040 User's Manual. A ghost map gives each
frame one role: free at a place of the list, held, or node of one tree under one entry of one parent. The
invariant says that roles agree, both ways, with the links and descriptors stored in the frames. While a
tree is torn down, entries whose frame was given back but which still look resident are kept in the ghost
set `dead`; the proofs show that none of them is read again. Every access goes through a mapping window;
each method says that the windows in use are kept, so that access through a window is access to the frame.

- `_free_frame` does not raise the counter, so the invariant is that the counter is at most the list's length.
- `alloc_at` and `init_userspace` called by `process_create` do not look at a failed allocation, so `AllocAt`
  demands a counter that covers the frames it takes, and `ProcessCreate` and `Fork` a counter above zero.
- Nothing tests whether a frame is on the list when it is freed. `FreeKeepsChain` says that the list stays a
  chain exactly if it was not; ending a process that has ended makes it a loop (`EndingTwiceLoops`).
- Entries 0 to 95 of the supervisor root mirror the current user root and own nothing; entry 112 leads to
  the windows.
- The boot scan assumes a table per frame. Its counter is exact if and only if the boot pages leave no gap;
  `Init` gives the invariant of the other operations exactly then; `GapMachine` is a memory without it.

**Processes** (`Schedule`, `Processes`). The searches over the table are loops over the class's array. Fairness
is proved over runs whose other steps may change the table in any way. What the source does and the model
keeps: a zombie may be scheduled; the slot whose number the creation counter has on entry is never taken, and
a full table makes the search run for ever once the counter has passed the table size (`FullTableEndsOnlyBelowTableSize`);
fork leaves the user root register at the child, after a failure at a root that has been freed; a child that
cannot be completed in slot 0 or 1 panics.

**Heap** (`HeapBlocks`, `Coalescing`, `Carving`, `KernelHeap`, `LostBlock`). Ghost blocks tile the grown heap; each is live, in
flight, free on one of the five lists, or lost. `kfree` restarts its scan after a lower merge. If it has met the
upper neighbour first, the merged block is on the list already, and a lower neighbour met afterwards is
unlinked and never re-inserted: `LostExactly` gives the condition, `LoseABlock` a run.

**Files** (`RomfsFormat`, `RomfsTree`, `Romfs`, `Paths`, `Vfs`, `RomfsFiles`). The format is the documented romfs one.
`HeaderAt` and `ListAt` say how any image, in any layout, holds a tree; `Write` lays a tree out depth first and
`ImageHolds` says that the result holds it. The driver's answers are functions of the image (`LookupAt`, `StatAt`,
`BytesOf`); its methods compute them on every image that holds a tree, and they are the tree's answers. The file
system operations of a mount are function-valued fields of `Vfs`, as the source's table of function pointers; the
driver's functions are put in their place in `RomfsFiles`, which goes from a written image to the bytes read through
a descriptor. A hard link reads as a pipe, so no path leads on through one (`HardLinkEndsPath`); the root lists
itself first. The resolver skips further slashes only after the first component; a later empty component looks the
directory itself up.

**Debugger packets** (`GdbPackets`), after the remote serial protocol of the GDB manual. The other side is an input
sequence; a method that would wait for more returns `ready == false`.

## Model

| member | source | states |
|---|---|---|
| `Ownership.TakeKeepsWf` | kernel/mmu/mmu040.c:94-114 | popping the top free frame and zeroing it keeps one role per frame, backed by the descriptors and links in memory |
| `Ownership.GiveKeepsWf` | kernel/mmu/mmu040.c:116-122 | pushing a frame that nothing hangs below keeps the same, although its first word is overwritten and the old entry still looks resident |
| `Ownership.HangKeepsWf` | kernel/mmu/mmu040.c:425-426 | storing a descriptor for an empty held frame in a free entry makes it that entry's child and changes nobody else's owner |
| `Ownership.PointerEntryCleared` | kernel/mmu/mmu040.c:262-276 | freeing the pages of a page table leaves only that table's entries stale, and the table itself childless |
| `Ownership.RootEntryCleared` | kernel/mmu/mmu040.c:253-280 | the same one level up: interleaved frees never turn an entry that is still read into garbage |
| `Ownership.ChildlessRootIsAlone` | kernel/mmu/mmu040.c:235-285 | once a root has no entry left, no frame belongs to its tree |
| `Lifetimes.FreeListIsExact` | kernel/mmu/mmu040.c:94-122 | the chain holds exactly the frames that are free, each once |
| `Lifetimes.LinksFollowTheList` | kernel/mmu/mmu040.c:94-122 | following the stored links from the head visits the list in order |
| `Lifetimes.LinksEnd` | kernel/mmu/mmu040.c:94-122 | the chain ends in NULL after exactly its length: it has no cycle |
| `Lifetimes.DoubleFreeLoops` | kernel/mmu/mmu040.c:116-122 | pushing a frame that is on the list makes its links a loop that never reaches NULL |
| `Lifetimes.FreeKeepsChain` | kernel/mmu/mmu040.c:116-122 | after a push the links reach NULL if and only if the frame was not on the list |
| `Lifetimes.EndingTwiceLoops` | kernel/process.c:88 | ending a process that has just ended: its root is pushed again and the list becomes a loop |
| `Lifetimes.OneOwner` | kernel/mmu/mmu040.c:94-122 | two walks that reach the same page frame start at the same root with the same indices, and the frame is not free |
| `Mapping.WalkOwned` | kernel/mmu/mmu040.c:181-186 | a table walk from a root stays inside the frames that the root's tree owns |
| `Mapping.IndicesDeterminePage` | kernel/mmu/mmu040.c:181-186 | the three table indices determine the page number |
| `Translation.AddressIsSplit` | kernel/mmu/mmu040.c:181-186 | the page number i * 8192 + j * 64 + k has indices i, j and k, and its translation is what the processor's walk of those three entries finds, told by the type bits |
| `Descriptors.TableAddresses` | kernel/mmu/mmu040.h:89-125 | the address fields of root, pointer and page descriptors leave out the low 9, 7 and 12 bits of a word |
| `Mmu040.Mmu.MappingPush` | kernel/mmu/mmu040.c:70-87 | the next window shows the frame, resident and for the supervisor only; the windows in use are not remapped |
| `Mmu040.Mmu.MappingPop` | kernel/mmu/mmu040.c:89-92 | releases the top window |
| `Mmu040.Mmu.Zero4k` | kernel/mmu/mmu040.c:108 | clears exactly the mapped frame |
| `Mmu040.Mmu.AllocFrame` | kernel/mmu/mmu040.c:94-114 | NULL exactly when the counter is 0; otherwise the top frame of the list, zeroed, and never NULL |
| `Mmu040.Mmu.FreeFrame` | kernel/mmu/mmu040.c:116-122 | the frame is the new top of the list; the counter is not raised |
| `Mmu040.Mmu.ClearPageTable` | kernel/mmu/mmu040.c:265-273 | every page of a page table is given back |
| `Mmu040.Mmu.ClearPointerTable` | kernel/mmu/mmu040.c:256-277 | every page table under a pointer table is given back with its pages |
| `Mmu040.Mmu.ClearUserspace` | kernel/mmu/mmu040.c:235-285 | every frame of the tree but the root is free, no other frame changed, the root translates nothing, and the windows in use are kept |
| `Mmu040.Mmu.FreeUserspace` | kernel/mmu/mmu040.c:224-233 | the same for the root too |
| `Lifetimes.EmptyTranslatesNothing` | kernel/mmu/mmu040.c:235-285 | an emptied root translates no page |
| `Lifetimes.GoneElsewhere` | kernel/mmu/mmu040.c:235-285 | clearing or freeing one space leaves every translation and page of all others alone |
| `Mmu040.Mmu.CopyFrame` | kernel/mmu/mmu040.c:371 | a page copy between two windows changes exactly the target frame |
| `Mmu040.Mmu.ClonePage` | kernel/mmu/mmu040.c:354-374 | a page is copied to a fresh frame with the same attribute bits, or nothing changes |
| `Mmu040.Mmu.CloneTable` | kernel/mmu/mmu040.c:348-375 | copies all pages of a table; fails exactly when the counter is smaller than their number |
| `Mmu040.Mmu.ClonePointerTable` | kernel/mmu/mmu040.c:327-379 | copies all page tables; fails exactly when the counter is smaller than the cost |
| `Mmu040.Mmu.CloneUserspace` | kernel/mmu/mmu040.c:287-389 | succeeds exactly when the counter covers every table and page of the source; the source is unchanged, a partial copy is a well-formed tree, and every return restores the window depth |
| `Lifetimes.CopyTranslatesAlike` | kernel/mmu/mmu040.c:287-389 | source and copy map the same pages with the same attribute bits to different frames of equal contents |
| `Lifetimes.GrownElsewhere` | kernel/mmu/mmu040.c:287-389 | building a copy moves no page of any other space |
| `Growth.GrownKeepsTree` | kernel/mmu/mmu040.c:287-389 | taking frames for one tree keeps the copy cost and the tables of another |
| `Mmu040.Mmu.Descend` | kernel/mmu/mmu040.c:418-438 | maps the next table, hanging a fresh one where there is none |
| `Mmu040.Mmu.MapPage` | kernel/mmu/mmu040.c:440-451 | maps a fresh zeroed frame; an old page is recycled and comes back as the same frame |
| `Mmu040.Mmu.AllocAt` | kernel/mmu/mmu040.c:400-458 | a map update: the page gets the returned zeroed frame with the requested bits, every other page of every space keeps translation and contents, the counter drops by the frames needed |
| `Mapping.AllocAtMaps` | kernel/mmu/mmu040.c:400-458 | the translation of the page afterwards, and where its frame came from |
| `Mapping.AllocAtMovesOnly` | kernel/mmu/mmu040.c:400-458 | no other page of any address space is moved or changed by the three steps |
| `Mapping.AllocAtJoinsOnly` | kernel/mmu/mmu040.c:400-458 | no frame is lost: each keeps its owner, or was free and joined the tree |
| `Mmu040.Mmu.InitUserspace` | kernel/mmu/mmu040.c:203-222 | a fresh empty root becomes the space and the current user root |
| `Mmu040.Mmu.SwitchUserspace` | kernel/mmu/mmu040.c:391-398 | the user root register is the handle's, EINVAL without a handle |
| `Mmu040.Mmu.MapCurrentUserspace` | kernel/mmu/mmu040.c:536-558 | entries 0 to 95 of the supervisor root become those of the user root, nothing else changes |
| `Lifetimes.MirrorTranslatesAlike` | kernel/mmu/mmu040.c:536-558 | for every page below 0xC0000, the lower 3 GB, the supervisor then translates as the user does |
| `Mmu040.Mmu.CopyFromUserspace` | kernel/mmu/mmu040.c:480-506 | every byte is the one that translating its own address gives, for any start and length |
| `Mmu040.Mmu.CopyToUserspace` | kernel/mmu/mmu040.c:508-534 | memory is what storing the bytes one by one, translating each address, gives |
| `UserCopy.PutThenGet` | kernel/mmu/mmu040.c:508-534 | bytes of the range are stored where they belong and every other user byte is unchanged |
| `UserCopy.CopyRoundTrip` | kernel/mmu/mmu040.c:480-534 | copying to a mapped range and back returns the bytes |
| `UserCopy.WordIsBytes` | kernel/mmu/mmu040.c:480-534 | a word in memory is its four bytes, the highest first |
| `UserCopy.FrameAtIsInjective` | kernel/mmu/mmu040.c:480-534 | different pages of a space lie in different frames |
| `Boot.FirstFreeOfConcat` | kernel/mmu/mmu040.c:134-168 | the scan of two page lists one after the other is the scan of both |
| `Boot.PageScanned` | kernel/mmu/mmu040.c:151-162 | one page entry: the candidate and the counter move on exactly at a resident page at or above the candidate |
| `Boot.TableScanned` | kernel/mmu/mmu040.c:142-165 | one pointer table entry: a resident one scans its page table |
| `Boot.RootScanned` | kernel/mmu/mmu040.c:134-168 | one root entry: a resident one scans its pointer table |
| `Boot.AboveEveryPage` | kernel/mmu/mmu040.c:158-161 | the first listed frame lies above every resident boot page |
| `Boot.CounterIsExactWithoutGaps` | kernel/mmu/mmu040.c:158-161 | the counter drops by the number of skipped frames if and only if each page met above the candidate is the candidate itself |
| `Boot.GapOvercounts` | kernel/mmu/mmu040.c:158-161 | a boot page above a gap leaves the counter too high |
| `GapMachine.ScanMeets` | kernel/mmu/mmu040.c:134-168 | a memory with boot tables in which the scan meets just one page, above a gap |
| `GapMachine.StartWithGap` | kernel/mmu/mmu040.c:189-200 | started on that memory, the counter exceeds the list by the eight frames of the gap |
| `Mmu040.Mmu.ScanRoot` | kernel/mmu/mmu040.c:134-168 | the three nested loops compute the candidate and the counter of the pages in table order |
| `Mmu040.Mmu.BuildFreeList` | kernel/mmu/mmu040.c:170-176 | the list holds every frame from the candidate to the end of DRAM |
| `Mmu040.Mmu.Init` | kernel/mmu/mmu040.c:189-200 | list and counter after boot; the invariant of every later operation holds exactly when the boot pages leave no gap |
| `Processes.Kernel.SwitchTo` | kernel/process.c:129-134 | the process becomes current with its address space mirrored |
| `Processes.Kernel.NextEligible` | kernel/process.c:158 | the first slot in cyclic order that is present and not blocked; ends if there is one |
| `Processes.Kernel.Scheduler` | kernel/process.c:153-165 | that slot becomes current, the user root register is its space, and entries 0 to 95 of the supervisor root are the ones of that space |
| `Schedule.FirstAfterIsUnique` | kernel/process.c:158 | at most one slot is first |
| `Schedule.DistanceIs` | kernel/process.c:158 | the cyclic distance counts steps upwards, from slot 1023 on to slot 0 |
| `Schedule.SwitchComesCloser` | kernel/process.c:153-165 | a switch reaches an eligible process or shrinks the cyclic distance to it |
| `Schedule.Fairness` | kernel/process.c:153-165 | in any run of switches, exits and arbitrary other table changes, a process that stays present and unblocked becomes current within as many switches as its distance, at most 1024 |
| `Processes.Kernel.FindSlot` | kernel/process.c:20-51 | the slot search takes the first free slot after the one the counter names, which it never takes; EAGAIN exactly when no other slot is free |
| `Schedule.TakesExactlyWhenFree` | kernel/process.c:20-51 | a slot is taken exactly when one is free other than the start slot |
| `Schedule.FullTableEndsOnlyBelowTableSize` | kernel/process.c:20-51 | with a full table the search ends if and only if the counter is still below the table size |
| `Processes.Kernel.ProcessCreate` | kernel/process.c:20-51 | a new process with no files open and an empty space in the first free slot, or EAGAIN and nothing changed |
| `Processes.Kernel.ProcessExit` | kernel/process.c:53-91 | the frames of its space are free, it is a zombie with the return value; if it was current, the next present process is current, the user root register is its space, entries 0 to 95 of the supervisor root are what the ones of that space were, and every frame outside the dead tree but the supervisor root keeps its contents; processes 0 and 1 panic |
| `Lifetimes.ReleasedAfterSwitch` | kernel/process.c:78-88 | mirroring the next space and then freeing the old tree: what becomes of each frame and of each entry of the supervisor root |
| `Processes.Kernel.ProcessWait` | kernel/process.c:102-127 | reaps a zombie, blocks on a live process, and the two error results |
| `Processes.Kernel.Fork` | kernel/syscall/fork.c:8-35 | succeeds exactly when the counter exceeds the cost of the copy; then every frame that was in use and every translation is as before the call, and the child translates each page as the parent did then, with the same low bits, to another frame with what the page held then; otherwise ENOMEM with every frame free or used as before the call |
| `Processes.Kernel.CopyOrAbandon` | kernel/syscall/fork.c:20-34 | the same for the part after the child was created, against the state before |
| `Processes.Kernel.AbandonChild` | kernel/syscall/fork.c:20-25 | the child's whole tree is freed and its slot empty |
| `Processes.Kernel.CopyProcess` | kernel/syscall/fork.c:27-32 | the child gets the parent's registers and files, and 0 as its result |
| `Lifetimes.PlantedAndGrown` | kernel/syscall/fork.c:14-20 | creating a root and building a tree under it leaves every frame in use its role and contents |
| `Lifetimes.CopyIsOfOld` | kernel/syscall/fork.c:20-34 | since nothing of the source moved, its copy holds page for page what the source held before |
| `Lifetimes.UndoneChild` | kernel/syscall/fork.c:20-25 | creating a space, growing it and releasing it returns every frame taken, whichever level ran out |
| `Lifetimes.PlantingKeepsCost` | kernel/syscall/fork.c:14-20 | creating the child does not change what copying the parent costs |
| `HeapBlocks.Partition` | kernel/util/mem.c:76-88 | every byte of the grown heap lies in exactly one block: live, free or lost |
| `HeapBlocks.SplitKeepsFit` | kernel/util/mem.c:158-164 | splitting keeps blocks disjoint, links right and free neighbours apart |
| `HeapBlocks.SplitKeepsLive` | kernel/util/mem.c:158-164 | and changes no live block |
| `HeapBlocks.UnlinkKeepsFit` | kernel/util/mem.c:166 | taking a block off a list keeps the same |
| `HeapBlocks.InsertKeepsFit` | kernel/util/mem.c:245-247 | putting a block on a list keeps the same, but for a free block it may touch from above |
| `HeapBlocks.MergeLowerWorks` | kernel/util/mem.c:253-257 | the lower merge keeps the fit and all live blocks |
| `HeapBlocks.MergeUpperWorks` | kernel/util/mem.c:259-264 | the upper merge keeps them, and the merged block takes the neighbour's place on the list |
| `HeapBlocks.DropWorks` | kernel/util/mem.c:253-258 | a lower neighbour met after the upper merge is lost, and the heap fits again |
| `Coalescing.AfterLower` | kernel/util/mem.c:253-258 | after a lower merge no lower neighbour is left |
| `Coalescing.AfterUpper` | kernel/util/mem.c:259-264 | after an upper merge no upper neighbour is left |
| `Coalescing.MeetLower` | kernel/util/mem.c:251-258 | each restart of the scan continues a correct scan |
| `Coalescing.MeetUpper` | kernel/util/mem.c:259-264 | so does each upper merge |
| `Coalescing.EndOfScan` | kernel/util/mem.c:251-270 | at its end the scan has coalesced the block with both neighbours, or lost one |
| `Coalescing.CoalescedKeeps` | kernel/util/mem.c:251-270 | freeing leaves no two touching blocks on the general list and keeps all live blocks |
| `Coalescing.CoalescedBlocks` | kernel/util/mem.c:251-270 | the exact blocks afterwards, in the five ways the scan can go |
| `Coalescing.LostExactly` | kernel/util/mem.c:251-270 | a block is lost if and only if the list has the upper neighbour before the lower one, and then it is the lower one |
| `Coalescing.CoalescedRow` | kernel/util/mem.c:251-270 | the general list afterwards, block by block |
| `Coalescing.FreedIsFree` | kernel/util/mem.c:251-270 | the freed bytes and their neighbours end up in one free block |
| `Coalescing.OthersStay` | kernel/util/mem.c:251-270 | all other blocks stay |
| `LostBlock.FreeBetween` | kernel/util/mem.c:251-270 | freeing a block whose upper neighbour is on the list before its lower one loses the lower one, in any heap |
| `LostBlock.LoseABlock` | kernel/util/mem.c:124-271 | a run from an empty heap that ends with a lost block: four kmallocs, then three kfrees |
| `Carving.CarveOne` | kernel/util/mem.c:178-182 | each cell cut off a fresh page keeps the heap's fit |
| `Carving.CarvedKinds` | kernel/util/mem.c:175-185 | afterwards the page is free cells and one lost tail |
| `KernelHeap.Allocator.Search` | kernel/util/mem.c:146 | the first block of the list that is large enough |
| `KernelHeap.Allocator.Take` | kernel/util/mem.c:156-169 | the block found is handed out, split when the rest holds more than a header |
| `KernelHeap.TakenIsHandedOut` | kernel/util/mem.c:156-169 | the exact blocks and lists afterwards: the rest of a split block takes its place on the list, a block that is not split leaves it |
| `KernelHeap.Allocator.Ksbrk` | kernel/util/mem.c:10-32 | the heap end moves by the signed increment; when it grows, every page above the first is asked for exactly once |
| `KernelHeap.LargeRequestMovesBack` | kernel/util/mem.c:107-109 | the increment of a request is negative if and only if its rounded size is half the address space or more |
| `KernelHeap.Allocator.Getmore` | kernel/util/mem.c:104-115 | a fresh block of whole pages at the top of the heap |
| `KernelHeap.Allocator.Carve` | kernel/util/mem.c:175-185 | the quick list begins with the cells of the page in address order, 4096 / (class + 8) blocks of the class size; at most the tail of the page is lost |
| `KernelHeap.FirstCellFits` | kernel/util/mem.c:175-185 | the first cell of a page just cut is the first block that fits |
| `KernelHeap.FreshIsFreed` | kernel/util/mem.c:188 | a fresh block merges downwards only: freeing it loses nothing and leaves a block that is large enough |
| `KernelHeap.Allocator.Kmalloc` | kernel/util/mem.c:124-193 | the first block that fits, or one from a refill: aligned, not live before, large enough and at most a header too large; no other live block changes; the heap grows once, exactly when nothing on the list fits, and then hands out the start of the fresh page up to 64 bytes, the first fitting block of the refilled general list above; at most the tail of a carved page is lost |
| `KernelHeap.Allocator.Scan` | kernel/util/mem.c:250-266 | the scan with its restarts ends and does what the coalescing lemmas say |
| `KernelHeap.Allocator.Kfree` | kernel/util/mem.c:230-271 | every other live block keeps its bytes; a payload of up to 8, 16, 32 or 64 bytes goes to the front of list 0, 1, 2 or 3 and no other block or list changes; a larger one is coalesced as the lemmas say, with the exact blocks and the exact general list |
| `KernelHeap.FreedKeeps` | kernel/util/mem.c:230-271 | the specification of kfree keeps the fit and the live blocks, for both kinds of block |
| `KernelHeap.FreedIsPlaced` | kernel/util/mem.c:242-270 | where the specification leaves the block: in front of the list of its size, or merged into the general list |
| `KernelHeap.FreeThenAllocate` | kernel/util/mem.c:124-247 | what kfree of a small block gives back, the next kmalloc of its class hands out again if it covers the size, and the heap does not grow |
| `KernelHeap.Allocator.Memcpy` | kernel/util/mem.c:42-50 | copies the bytes and writes nothing else |
| `KernelHeap.Allocator.Krealloc` | kernel/util/mem.c:205-222 | the four cases; a moved block keeps its contents up to the smaller size, and the old one is then freed as kfree places it |
| `RomfsFormat.ImageHolds` | kernel/modules/fs/romfs.c:213-243 | an image written for any tree holds that tree, whatever its checksums and whatever follows it |
| `RomfsFormat.WrittenIsHeld` | kernel/modules/fs/romfs.c:189-210 | so does every entry with everything below it, anywhere in an image |
| `RomfsFormat.HeaderHeld` | kernel/modules/fs/romfs.c:189-210 | link, kind, executable bit, special word and size are read back as written |
| `RomfsFormat.HeaderLayout` | kernel/modules/fs/romfs.c:202-208 | the byte offsets of a header's link, flags, special word, size, name and contents |
| `RomfsFormat.WordBytes` | kernel/modules/fs/romfs.c:42 | a word is its four bytes, the highest first |
| `RomfsTree.InListFinds` | kernel/modules/fs/romfs.c:202-208 | a lookup finds the first entry of that name, and fails exactly when there is none |
| `RomfsTree.ModeTells` | kernel/modules/fs/romfs.c:83-102 | the whole mode and the device number follow from the kind, the executable bit and the special word; a hard link reads as a pipe |
| `RomfsTree.ModeTable` | kernel/modules/fs/romfs.c:83-102 | the mode of each kind as a number |
| `RomfsTree.NoHeaderTwice` | kernel/modules/fs/romfs.c:202-208 | no header occurs twice in a chain that ends, so a chain is shorter than its image |
| `RomfsTree.FindPicks` | kernel/modules/fs/romfs.c:202-208 | following the links of an image finds the tree's entry or none |
| `RomfsTree.LookupAnswers` | kernel/modules/fs/romfs.c:189-210 | the lookup as a function of the image gives the tree's answer at every node |
| `RomfsTree.BytesAnswer` | kernel/modules/fs/romfs.c:143-161 | so does the read, for names below 272 bytes |
| `Romfs.Driver.ReadUnaligned` | kernel/modules/fs/romfs.c:53-80 | EINVAL below zero; otherwise the bytes of the image, as far as it goes, and the rest of the buffer is stale |
| `Romfs.Driver.MemblkRead` | kernel/modules/blockdev/memblk.c:60-77 | the bytes of the device, clipped at its end |
| `Romfs.Driver.Mount` | kernel/modules/fs/romfs.c:213-243 | finds the root header behind any volume name below 496 bytes, and the error results |
| `Romfs.Driver.Scan` | kernel/modules/fs/romfs.c:202-208 | the sibling chain ends; the header found is the one that the links of the image give, and the tree's |
| `Romfs.Driver.StatName` | kernel/modules/fs/romfs.c:189-210 | finds a name exactly when the tree has it, with its inode, mode, size and device, and equals the lookup as a function of the image |
| `Romfs.Driver.StatInode` | kernel/modules/fs/romfs.c:164-186 | every field of the answer, for the node at an inode |
| `Romfs.Driver.ReadDirectory` | kernel/modules/fs/romfs.c:105-140 | the entry at a position of the directory's list, with its inode, mode and name; nothing past its end |
| `RomfsTree.NameBlockIs` | kernel/modules/fs/romfs.c:151-159 | the name scan finds where the data begins if and only if the name is below 272 bytes |
| `Romfs.Driver.NameScan` | kernel/modules/fs/romfs.c:151-157 | the block that ends the name, at most 16 |
| `Romfs.Driver.Read` | kernel/modules/fs/romfs.c:143-161 | the bytes at the offset, clipped at the end, and equal to the read as a function of the image |
| `Paths.ComponentsJoin` | kernel/vfs.c:68-78 | names joined by slashes, one more at the end or not, are cut into the same names |
| `Paths.FollowOn` | kernel/vfs.c:121-152 | names are followed in two goes, if the first ends at a directory |
| `Paths.HardLinkEndsPath` | kernel/vfs.c:139-146 | no path leads on through a hard link, as . and .. below the root are |
| `Paths.WithinFollows` | kernel/vfs.c:121-152 | the replies of a file system that answers for a volume follow its tree |
| `Paths.WalkCrosses` | kernel/vfs.c:126-132 | where the first names lead to a mount point, the walk of all goes on in the mounted root |
| `Paths.WalkFollows` | kernel/vfs.c:121-152 | where nothing is mounted on the way, the walk finds the node that the names denote, or fails as they do |
| `Paths.PathCrosses` | kernel/vfs.c:95-158 | a path through a mount point denotes what its other names denote in the second volume's tree |
| `Paths.PathDenotesNode` | kernel/vfs.c:95-158 | so does a whole path in the volume mounted as root |
| `RomfsFiles.DriverAnswers` | kernel/modules/fs/romfs.c:189-210 | the driver answers for every volume mounted |
| `RomfsFiles.DriverHolds` | kernel/modules/fs/romfs.c:143-161 | its reads give the data of every file with a name below 272 bytes |
| `RomfsFiles.OpensNode` | kernel/vfs.c:288-323 | opening a path of plain names gives a descriptor of the node that the names denote, or their error |
| `RomfsFiles.FileIsRead` | kernel/vfs.c:224-260 | a file of the root volume, opened by path and read in pieces of any sizes, gives its data in order and then nothing |
| `RomfsFiles.WrittenFileIsRead` | kernel/vfs.c:224-260 | the same from a written image of any tree to the bytes read |
| `Vfs.Vfs.ExtractComponent` | kernel/vfs.c:68-78 | the first component and what is left of the path |
| `Vfs.Vfs.IsMountpoint` | kernel/vfs.c:81-92 | the first mount point in use on an inode |
| `Vfs.Vfs.Descend` | kernel/vfs.c:121-152 | the in-place loop equals the recursive walk that crosses at every mount point but the last component |
| `Vfs.Vfs.Resolve` | kernel/vfs.c:95-158 | the meaning of a path; only a path that starts with a slash resolves, and only if a file system is mounted as root; ends because the position grows |
| `Paths.Refusals` | kernel/vfs.c:101-117 | the error numbers before any lookup: 31 after 32 links, 22 for the empty path, 2 for one without a leading slash or without a root |
| `Vfs.Vfs.Open` | kernel/vfs.c:288-323 | the first free descriptor at position 0 of what the path denotes, only for a path that starts with a slash, and the error results |
| `Vfs.OpeningIs` | kernel/vfs.c:300-318 | the entry of each kind of file: devices may be written and name their device number, directories are marked |
| `Vfs.Vfs.Read` | kernel/vfs.c:224-260 | what the file system gives at the position, which moves by as much; directories and descriptors not open for reading are refused |
| `Vfs.Vfs.Seek` | kernel/vfs.c:187-199 | the position from the start, the position or the end of the file |
| `Vfs.PiecesMakeTheFile` | kernel/vfs.c:224-260 | pieces of any sizes are together the file's bytes in order |
| `Vfs.NothingAfterTheEnd` | kernel/vfs.c:224-260 | from the end on every piece is empty |
| `Vfs.ReadsGiveTheFile` | kernel/vfs.c:224-260 | repeated reads through one descriptor give those pieces, and its position stays within the file |
| `GdbPackets.FrameIsReceived` | kernel/gdb-stub.c:551-619 | a frame after noise is received with a plus sign |
| `GdbPackets.RoundTrip` | kernel/gdb-stub.c:551-652 | the text sent is the text received, exactly when byte 2 of the buffer is no colon afterwards; for texts below two bytes that byte is stale; with a colon the two characters before it are echoed and the rest is received |
| `GdbPackets.Resynchronises` | kernel/gdb-stub.c:566-582 | any number of frames cut off by a new start character are dropped |
| `GdbPackets.OverlongIsDropped` | kernel/gdb-stub.c:572-585 | a frame too long for the buffer is dropped without an answer |
| `GdbPackets.ChecksumChanges` | kernel/gdb-stub.c:579 | changing one byte changes the checksum |
| `GdbPackets.ChecksumAdds` | kernel/gdb-stub.c:579 | the checksum of two texts one after the other is the sum of their checksums modulo 256 |
| `GdbPackets.HexIs` | kernel/gdb-stub.c:533-544 | a character stands for n exactly if it is the n-th of the sixteen digits, in lower or upper case |
| `GdbPackets.HexRefuses` | kernel/gdb-stub.c:533-544 | the answer is -1 exactly for every other character |
| `GdbPackets.GarbledIsRefused` | kernel/gdb-stub.c:587-600 | a frame with one byte of its text changed is answered with a minus sign |
| `GdbPackets.ChecksumDecides` | kernel/gdb-stub.c:588-616 | a frame with any two characters as checksum is accepted if and only if they stand for the checksum of its text |
| `GdbPackets.EitherCaseIsReceived` | kernel/gdb-stub.c:588-616 | a frame is received with its checksum written in digits of either case |
| `GdbPackets.FirstDigitPasses` | kernel/gdb-stub.c:588 | the exact condition for a damaged first character to pass: the same digit, or no digit in place of an f |
| `GdbPackets.SecondDigitPasses` | kernel/gdb-stub.c:590 | a damaged second character passes only if it is the same digit |
| `GdbPackets.BadDigitPasses` | kernel/gdb-stub.c:588-592 | every frame whose first digit should be f is accepted with a g there |
| `GdbPackets.LineIsReceived` | kernel/gdb-stub.c:551-619 | after any number of spoilt copies the intact one is received |
| `GdbPackets.SenderStops` | kernel/gdb-stub.c:632-650 | and with those answers the sender stops after one frame more than there were errors |
| `GdbPackets.FirstPlusEnds` | kernel/gdb-stub.c:650 | the first plus sign ends the sending, whatever came before |
| `GdbPackets.DumpThenLoad` | kernel/gdb-stub.c:663-700 | bytes dumped as hex digits are loaded again |
| `GdbPackets.EitherCaseIsLoaded` | kernel/gdb-stub.c:685-700 | bytes written in digits of either case are loaded |
| `GdbPackets.Stub.GetPacket` | kernel/gdb-stub.c:551-619 | the receiver's loops and its restart compute the specification that the lemmas are about |
| `GdbPackets.Stub.PutPacket` | kernel/gdb-stub.c:624-652 | frames are sent until the first plus sign |
| `GdbPackets.RepeatedAdds` | kernel/gdb-stub.c:632-650 | what is sent for m and n attempts is one after the other, and a frame for one |
| `GdbPackets.Mem2Hex` | kernel/gdb-stub.c:663-681 | two digits a byte and a terminator, nothing else written |
| `GdbPackets.Hex2Mem` | kernel/gdb-stub.c:685-700 | the bytes the digits stand for, nothing else written |

## Left out

- Processor: address translation by `ptestr` is a walk of the tables, the root pointer registers are fields, cache and TLB flushes do nothing; an unmapped page translates to frame 0.
- Memory manager: `free_at` (unimplemented), `fill_frame`, `print_status`; the panic of an exhausted window stack is a precondition on the depth.
- Mmu040.Mmu.ClearUserspace: the handle must name a live root; the source does not check.
- Mmu040.Mmu.FreeUserspace: the handle must name a live root; the source does not check, and `FreeKeepsChain` says what comes of a root that is free already.
- Mmu040.Mmu.CloneUserspace: the destination must be empty and another space than the source; the source would overwrite its entries and lose the frames below.
- Mmu040.Mmu.AllocAt: demands the frames it needs, and for the supervisor a page the supervisor root owns.
- Mmu040.Mmu.Descend: demands a frame if the next table is missing; the source hangs frame 0 without one.
- Mmu040.Mmu.MapPage: demands a frame; the source maps frame 0 without one.
- Mmu040.Mmu.CopyToUserspace: the root register must name a live user root, else a table could be written.
- Mmu040.Mmu.Init: boot pages lie in DRAM, below the last page number, and boot frames below the first listed one.
- Processes.Kernel.FindSlot: a full table with the counter outside it is excluded, where the search runs for ever; that it does is `FullTableEndsOnlyBelowTableSize`.
- Processes.Kernel.ProcessCreate: demands a counter above zero; the process record itself comes from `new`, not from the heap model, and cannot fail; the 32-bit wrap of the slot counter is not modelled.
- Processes.Kernel.ProcessExit: the process must not have ended, since the list would become a loop (`EndingTwiceLoops`); waiters and callbacks are not modelled.
- Processes.Kernel.ProcessWait: the current process must be present and not have ended; waiters are not modelled.
- Processes.Kernel.Fork: demands a counter above zero, because a failure to make the child's root goes unnoticed, and a current process that has not ended.
- Heap: a header word is one cell, payload bytes are one cell each; the memory map of the heap is apart from the memory manager's, `Ksbrk` records the pages it asks for and does not see whether that fails.
- KernelHeap.Allocator.Kmalloc: if the heap must grow, the size rounded to pages must be a positive signed number and fit in the address space; `LargeRequestMovesBack` says which are not.
- KernelHeap.Allocator.Getmore: the same.
- KernelHeap.Allocator.Krealloc: the same.
- KernelHeap.Allocator.Ksbrk: the heap's end stays in the address space; pages of a shrunk heap are not given back, as in the source.
- KernelHeap.Allocator.Memcpy: copies into the payload of a live block, from a range that does not overlap it.
- Heap strategies 1 to 3 and `memset`: compiled out, or easy.
- Romfs.Driver.Read: not of directories, and at offsets within the data only; images below 2 GB.
- RomfsTree.LookupAt, RomfsTree.StatAt, RomfsTree.BytesOf: on images that hold no tree they are not claimed to be the driver's answers.
- Romfs.Driver.Mount: of an image shorter than the magic nothing is said, since the comparison then reads bytes that were never written.
- Romfs device lookup: a device number stands for the bytes of its image; `blksize` is the memory device's 512.
- Vfs.Vfs.Read: devices, and descriptor -1, which passes the range test; `vfs_write`, `vfs_close`, `vfs_mount`, `vfs_read_directory` (it never moves the position) and the registration of file systems are not modelled.
- Vfs.Vfs.Seek: the end of the file needs an inode that can be inquired.
- Files opened on devices overlay the mount's number with the device number; nothing more is said of them.
- Debugger: command dispatcher, registers and exceptions; `remote_debug` output.
- Console output, chipset, UART, SPI, framebuffer, devfs, character devices, the ELF loader.

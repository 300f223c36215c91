# Verification of the stewieos kernel core

This project models the parts of the stewieos kernel where most of its state and arithmetic live, and proves
what they keep over whole runs:

- the kernel heap (`HeapLayout`, `HeapAlloc`, `HeapRuns`, `HeapMemory`, `KernelHeap`),
- block devices and the ext2 file system (`BlockDevice`, `Bits`, `Ext2Space`, `Ext2Allocator`, `Ext2BlockMap`,
  `Ext2FileIO`, `Ext2Dirent`, `Ext2Names`, `Ext2Directory`),
- frames and address spaces (`FrameMap`, `AddressSpaces`, `AddressSpaceRuns`, `PageDirectories`),
- semaphores and mutexes (`Semaphores`, `KernelSemaphore`),
- tasks and the scheduler's choice (`Lists`, `Tasks`, `Scheduler`),
- descriptors and open files (`Descriptors`, `DescriptorRuns`, `DescriptorTables`),
- directory entries and path lookup (`Dentries`, `Paths`, `PathLookup`, `PathMeaning`, `KernelVfs`),
- loading and relocating modules (`ElfRelocation`, `ElfLoader`),
- printing and reading numbers (`NumberFormat`).

`Options`, `Arithmetic`, `Lists` and `LittleEndian` hold what several of them share.

Each part has the same shape. A specification module gives the state as values and each operation as a
function or relation on it, proves what the operation means and what it keeps, and proves the invariant for
every run. A class then has the fields and loops of the C code, and each of its methods is proved to be the
specification's operation.

`dafny verify dfyconfig.toml` checks the project.

## How the code is read

- A region under a spin lock or with interrupts off is one step. Where a lock is left taken, that is part of
  the state (`KernelHeap.Heap`, `Semaphores`).
- Memory of the heap's headers and footers is kept as records at addresses; `HeapMemory.StructuresApart` shows
  that such records never overlap, so nothing is lost by it.
- Unsigned 32-bit arithmetic is written out where it matters: every sum and difference of heap_locate, heap_trim and
  heap_expand, tick deadlines, section ends, relocation words, block offsets, printed numbers.
- Where heap_locate, heap_trim or heap_expand would write over another block, past memmax, or hand out too little, the
  operation ends with a result that names which (`HeapAlloc.Fault`), the methods stop before that write, and a run
  ends there.
- A name that fills the 256 bytes of d_name has no terminator; strcmp then reads on into d_inode and what follows it.
  What it reads there is a parameter of the lookup and is taken to stay as the lookup left it.
- Where the kernel halts for want of memory, a method has a result that says so, with the exact condition.
- A path means what its names between slashes lead to one by one: "." and an empty name stay, ".." goes to the parent,
  from the root of a mount to that of its mount point, and what is mounted at an entry is seen in its place. With
  WP_PARENT it means the directory in which its last name is to be found, whether that exists or not.
- A null pointer that would be followed is a result of its own (`Dentries.Put` giving none, `Fault`).
- kmalloc is taken to succeed where the code does not look at its result, and to return unused addresses.
  What the heap itself promises is proved in its own part.
- The answer of a file system's lookup, of a permission check, of a driver's open and close, and the current
  tick are parameters.

## What the code does not keep

Each is proved with the exact condition for the code to behave. After the semicolon in the parentheses comes the lemma at
an input or over a run; where there is none, the condition itself names the input:

- An aligned heap_trim whose aligned header falls before or past the hole uses memory of a live block
  (`HeapAlloc.TrimOutcome`, `HeapAlloc.ScanOutcome`; `HeapRuns.AlignedHeaderInLiveBlock`).
- A request of 2^32 - 48 bytes or more wraps the sums of heap_locate and heap_trim: a hole that passes the test is cut
  into pieces whose headers overlap or handed out too small (`HeapAlloc.TrimOutcome`, `HeapAlloc.LocatePlain`;
  `HeapRuns.WrappedRequest`). One that rounds up to 2^32 makes heap_expand write a header for no memory
  (`HeapAlloc.LocatePlain`; `HeapRuns.HollowRequest`).
- heap_expand clamps to the distance from memstart, not from memend (`HeapAlloc.ExpansionInside`;
  `HeapRuns.RequestPastMax`).
- heap_alloc returns with the lock held when there is no memory (`KernelHeap.Heap.Alloc`; `HeapRuns.RequestRefused`).
- e2_free_inode clears a bit in a copy of `inodes_per_group / 8` bytes, so bits of a partly used last byte stay
  set (`Ext2Allocator.FreeInodeAgrees`; `Ext2Allocator.LastInodeStays`); e2_alloc_block reports failure as block 0,
  which may be a free block (`Ext2Space.ZeroIsFailure`; `Ext2Space.ZeroHandedOut`); a second free counts a bit twice
  (`Ext2Space.GiveInvIff`; `Ext2Space.FreedTwice`).
- The 32-bit offset of a block makes blocks past 4 GiB coincide with others (`Ext2FileIO.OffsetsApart`, which names the
  two blocks).
- e2_inode_write_block_map allocates a triple-indirect block that no entry needs (`Ext2BlockMap.Inode.WriteMap`;
  `Ext2BlockMap.TripleNeedless`), and with no block left for the single-indirect level writes block 0 and reports
  success (`Ext2BlockMap.Inode.WriteMap`).
- e2_inode_link writes the terminator of a name that fills its record into the next record
  (`Ext2Names.LinkedAgrees`; `Ext2Names.NeighbourDamaged`) or past the buffer (`Ext2Directory.Directory.Link`), and on a
  full disk writes the entry to block 0 and reports success (`Ext2Names.LinkedAgrees`; `Ext2Names.LinkLost`). It never
  returns when it has to write a block map of more than twelve blocks, or links a directory into itself, for want of a
  lock it holds (`Ext2Directory.Directory.Link`; `Ext2Names.ThirteenthBlock`), and neither does e2_inode_unlink of the
  directory itself (`Ext2Directory.Directory.Unlink`).
- A kernel page table created after other directories exist is missing from them, after which a private table
  is shared by a copy and writes are seen through it (`AddressSpaceRuns.AllocKeepsInv`,
  `AddressSpaceRuns.OutgrownShared`; `AddressSpaceRuns.PrivatePageShared`).
- sem_wait with SEM_NOWAIT returns with the lock held, after which the semaphore is dead (`Semaphores.LockLeaks`,
  `Semaphores.LockedForever`; `Semaphores.NoWaitLocks`); a wait whose deadline does not fit the tick counter is cut short by the next timer, and
  so is SEM_FOREVER, against sem.h, which says the task waits forever (`Semaphores.TimedOutEarly`); a signal
  between queueing and sleeping is lost, and the unit with it (`Semaphores.NextFindable`, `Semaphores.LostForever`;
  `Semaphores.WakeupLost`).
- task_kill of a task that waits leaves a task that is never freed (`Tasks.KillReapable`, `Tasks.NeverReaped`;
  `Tasks.KilledWaiting`). sys_waitpid for a group tests other fields of a child that has exited than task_free does of
  one that exits later, so that the order of exit and wait matters unless a task that leads its group waits for it
  (`Tasks.WaitsAgree`).
- dup2 onto itself closes the descriptor (`DescriptorRuns.Dup2Names`); a driver close that fails leaves a descriptor
  with a count of zero (`DescriptorRuns.CloseWithKeeps`); sys_relfd of a descriptor in use loses its reference
  (`DescriptorRuns.RelfdKeeps`; `DescriptorRuns.OneFileLost` for all three); dup2 to any slot may take a reserved one
  (`DescriptorRuns.Dup2Lowest`; `DescriptorRuns.ReservedTaken`).
- d_put of the last reference to a root follows a null parent (`Dentries.PutFaults`, `Dentries.PutFaultsHeld`;
  `Dentries.LastRootReference`); names of 256 characters or more are stored without a terminator or cut off, so that a
  second lookup makes a second entry (`Dentries.LookupNames`, `Dentries.LookupTwice`; `Dentries.NameOf256`,
  `Dentries.NameOf257`).
- path_lookup does not find what a path means, in some tree even with nothing mounted, exactly if a "." or ".." follows a
  ".", another name than a last ".." starts with two dots, or a slash is repeated: after ".." it does not advance, after
  "./" it does not look for dots, and an empty name is asked of the file system (`PathMeaning.PathsMean`,
  `PathMeaning.Unclear`; `PathMeaning.WrongPaths`). For the other paths it finds it exactly where the last name is "" or
  ".", or ".." in a directory that has a parent with nothing mounted on it, or another name with nothing mounted on its
  entry (`PathMeaning.WalkMeans`): a path to a mount point does not lead into what is mounted there, though sys_umount
  counts on it, and ".." from the root of a mount ends at the mount point (`PathMeaning.MountMissed`,
  `PathMeaning.MountNotLeft`; `PathMeaning.MountExists`). ".." at a root that is mounted nowhere follows a null pointer
  (`Paths.ParentBalanced`; `PathLookup.RootDotDot`).
- An allocated section that ends inside the ELF header makes the module nearly 4 GiB long (`ElfLoader.LengthLeast`;
  `ElfLoader.LengthWraps`), and one that ends in its last 24 bytes then tears the heap (`ElfLoader.LengthTears`); a
  section without bits that meets one from the file at a byte that is not zero is not cleared or clears the other
  (`ElfLoader.SectionIntact`, `ElfLoader.ModuleIntact`; `ElfLoader.BssOverlap`).
- A section without bits whose end does not fit 32 bits makes the module too short for it (`ElfLoader.SectionsInside`;
  `ElfLoader.LengthTooShort`). Relocations of sections that are not loaded are applied too, and the place, the symbol and
  its section are not checked: such a relocation is written outside the module or computed from what is no symbol
  (`ElfLoader.TableEnds`, `ElfLoader.AllEnds`; `ElfLoader.UnloadedTarget`).

## Model

| member | source | states |
|---|---|---|
| HeapLayout.InsertFacts | kernel/include/stewieos/linkedlist.h:89-105 | list_add_ordered keeps the hole list sorted by size and adds exactly the one block |
| HeapLayout.FreeKeepsInv | kernel/src/kheap.c:260-325 | freeing a live block, whatever merges happen, keeps the tiling, the sorted list of exactly the free blocks and that no two free blocks touch |
| HeapLayout.FreeFacts | kernel/src/kheap.c:260-325 | freeing removes exactly that block from the live blocks |
| HeapLayout.LiveDeterminesLayout | kernel/src/kheap.c:260-325 | two heaps of the same extent in order, with the same live blocks, have the same blocks and the same holes |
| HeapAlloc.TrimComparisons | kernel/src/kheap.c:169-179 | the unsigned comparisons pass a header outside the hole exactly when the header slot is outside it |
| HeapAlloc.TrimOutcome | kernel/src/kheap.c:162-234 | for a hole that passes the test of heap_locate: the header goes outside exactly when an aligned request meets a hole without its header slot, heap_trim gives up exactly on aligned requests that leave too little room, and otherwise the heap is torn or too little returned exactly when the size asked for wraps; without alignment, which of the two |
| HeapAlloc.TrimServes | kernel/src/kheap.c:162-234 | a successful trim yields a large enough, aligned block at most a header and footer too large, and a heap in order but for that block |
| HeapAlloc.ScanServes | kernel/src/kheap.c:113-153 | the walk returns a hole that serves; unaligned, a smallest one that is large enough |
| HeapAlloc.ScanOutcome | kernel/src/kheap.c:113-136 | exactly how the walk ends: nothing found, a header outside the hole, a torn or short block, each told by the first large enough hole that is not cramped, and otherwise a block that serves |
| HeapAlloc.ExpansionInside | kernel/src/kheap.c:55-110 | an expansion stays inside memmax exactly when it need not be clamped, and is then the rounded amount |
| HeapAlloc.ExpandKeepsInv | kernel/src/kheap.c:55-110 | an expansion inside memmax keeps the invariant and the live blocks and leaves a hole at least as large |
| HeapAlloc.LocateAllocates | kernel/src/kheap.c:113-153 | a found block is new, disjoint from all live ones, large enough, page-aligned when asked, the heap is in order again, and the size asked for does not wrap |
| HeapAlloc.LocatePlain | kernel/src/kheap.c:113-153 | without alignment, for every size_t: exactly when a block is found, the heap torn or too little returned, memory refused, memmax passed or a header written for no memory, after at most one expansion |
| HeapAlloc.BestFit | kernel/src/kheap.c:113-153 | first fit over the sorted list takes a smallest hole that is large enough |
| HeapAlloc.FreeUndoesAlloc | kernel/src/kheap.c:236-325 | freeing at once what was allocated without expansion gives back the same blocks and holes |
| HeapRuns.RunGood | kernel/src/kheap.c:236-336 | every run of heap_alloc and heap_free of held payloads, as far as no call goes wrong, keeps the invariant and what clients hold |
| HeapRuns.ReachableGood | kernel/src/kheap.c:16-336 | in every state reached from heap_init by calls none of which went wrong, blocks tile the heap, holes are listed once in order and do not touch, and held payloads are disjoint and inside |
| HeapRuns.AlignedHeaderInLiveBlock | kernel/src/kheap.c:169-205 | on every page-aligned heap of three pages or more, two calls reach an aligned request whose header lies in a live block |
| HeapRuns.WrappedRequest | kernel/src/kheap.c:125-222 | on every heap a first request of 2^32 - 24 bytes or more passes the test and cuts the hole inside its own header |
| HeapRuns.HollowRequest | kernel/src/kheap.c:63-102 | on every heap with room left a first request whose sum lies in the last page below 2^32 expands by nothing |
| HeapRuns.RequestPastMax | kernel/src/kheap.c:68-70 | on every heap of two pages a first request of a page or more runs past memmax |
| HeapRuns.RequestRefused | kernel/src/kheap.c:138-142 | on every heap of one page a first request of a page or more that does not wrap is refused |
| HeapMemory.StructuresApart | kernel/include/stewieos/kheap.h:18-62 | headers and footers of a tiling never overlap |
| HeapMemory.InsertedMeansHole | kernel/include/stewieos/linkedlist.h:35-39 | list_inserted holds exactly for the blocks on the hole list |
| HeapMemory.RemoveRepresents | kernel/include/stewieos/linkedlist.h:77-87 | list_rem on memory is removal from the hole list |
| HeapMemory.AddRepresents | kernel/include/stewieos/linkedlist.h:59-75 | list_add_before on memory is insertion at that place of the hole list |
| HeapMemory.CombineRepresents | kernel/src/kheap.c:274-291 | list_rem of the neighbour and head_init of the lower block join two blocks |
| HeapMemory.SplitRepresents | kernel/src/kheap.c:180-232 | the header writes of heap_trim cut a hole into two blocks |
| HeapMemory.GrowRepresents | kernel/src/kheap.c:90-102 | head_init at the old end adds a block |
| KernelHeap.Heap.constructor | kernel/src/kheap.c:16-32 | heap_init gives an empty heap in order |
| KernelHeap.Heap.AddHole | kernel/include/stewieos/kheap.h:64-68 | heap_add_hole with its search loop is insertion in order |
| KernelHeap.Heap.FreeNoLock | kernel/src/kheap.c:260-325 | the two merge loops on headers and footers are the specified free; an address outside is ignored |
| KernelHeap.Heap.Expand | kernel/src/kheap.c:55-110 | heap_expand on memory is the specified expansion, and stops exactly when it would pass memmax or write a header for no memory |
| KernelHeap.Heap.Trim | kernel/src/kheap.c:162-234 | heap_trim on memory is the specified trim, and stops exactly where that goes wrong, in the same way |
| KernelHeap.Heap.Search | kernel/src/kheap.c:113-136 | the loop over the list is the specified walk, with every outcome |
| KernelHeap.Heap.Locate | kernel/src/kheap.c:113-153 | search, expand, search again is the specified search, with every outcome |
| KernelHeap.Heap.Alloc | kernel/src/kheap.c:236-256 | for every size_t heap_alloc returns the located payload, or none, or goes wrong, as specified; the lock is left taken exactly when no payload is returned |
| KernelHeap.Heap.Free | kernel/src/kheap.c:327-336 | heap_free under the lock is the specified free |
| BlockDevice.Device.Read | kernel/src/block.c:142-211 | block_read fills the buffer with exactly disk[off..off+count), or fails exactly when a sector of the range is bad |
| BlockDevice.Device.Write | kernel/src/block.c:213-302 | block_write changes exactly those bytes of the disk; on a bad sector a prefix of them |
| BlockDevice.Device.ReadAligned | kernel/src/block.c:186-206 | whole sectors straight, a partial last one through the bounce buffer |
| BlockDevice.Device.WriteAligned | kernel/src/block.c:271-297 | the same for writing, with the number of bytes that reached the disk |
| Bits.WordIsBytes | kernel/src/ext2fs/block.c:49-55 | testing, setting and clearing a bit through 32-bit words is the same as through bytes |
| Ext2Space.SearchFinds | kernel/src/ext2fs/block.c:20-80 | with agreeing counts the search fails exactly when nothing is free, else finds the lowest free number |
| Ext2Space.SearchesAgree | kernel/src/ext2fs/inode.c:228-331 | the search by bytes in the first group that has any finds the same |
| Ext2Space.TakeKeepsInv | kernel/src/ext2fs/block.c:49-66 | an allocation keeps group counts and total equal to the clear bits |
| Ext2Space.GiveInvIff | kernel/src/ext2fs/block.c:82-115 | a release keeps them equal exactly when the bit was set |
| Ext2Space.FreedTwice | kernel/src/ext2fs/block.c:82-115 | in a group in which every number is free, any release makes the counts disagree |
| Ext2Space.GiveUndoesTake | kernel/src/ext2fs/block.c:20-115 | releasing at once what was allocated restores bitmaps, counts and total |
| Ext2Space.AllocateFresh | kernel/src/ext2fs/block.c:20-80 | no held number is handed out again |
| Ext2Space.SupplyIsVacant | kernel/src/ext2fs/block.c:26-77 | allocations until none is left hand out exactly the free numbers, each once |
| Ext2Space.RunKeeps | kernel/src/ext2fs/block.c:20-115 | over every run counts are the clear bits, held bits stay set, free plus held is constant |
| Ext2Space.ZeroIsFailure | kernel/src/ext2fs/block.c:20-80 | the result 0 means failure exactly when block 0 is not free |
| Ext2Space.ZeroHandedOut | kernel/src/ext2fs/block.c:20-80 | there the first allocation hands out block 0 |
| Ext2Allocator.Blocks.Alloc | kernel/src/ext2fs/block.c:20-80 | the loops over groups and bits are the specified search and allocation |
| Ext2Allocator.Blocks.Free | kernel/src/ext2fs/block.c:82-115 | e2_free_block is the specified release |
| Ext2Allocator.Inodes.Alloc | kernel/src/ext2fs/inode.c:228-331 | the loops over bytes are the specified search by bytes |
| Ext2Allocator.Inodes.Free | kernel/src/ext2fs/inode.c:333-375 | the release through a shorter buffer used as words clears exactly bits in whole bytes and always adds to the counts |
| Ext2Allocator.FindByte | kernel/src/ext2fs/inode.c:273-285 | the two loops find the lowest clear bit of the bytes, if any |
| Ext2Allocator.FreeInodeAgrees | kernel/src/ext2fs/inode.c:333-375 | e2_free_inode is the specified release exactly for bits in whole bytes of the group |
| Ext2Allocator.LastInodeStays | kernel/src/ext2fs/inode.c:333-375 | with a number of inodes per group that is no multiple of eight, releasing the last one of a full group makes the counts disagree |
| Ext2Allocator.InodeRunKeeps | kernel/src/ext2fs/inode.c:228-375 | with a multiple of eight, every run of e2_alloc_inode and e2_free_inode is one of lowest-free search and release: counts are the clear bits throughout, free plus held is constant |
| Ext2BlockMap.MapReadsBack | kernel/src/ext2fs/inode.c:490-584 | a map in place at the direct, single- and double-indirect levels is what the format reads |
| Ext2BlockMap.Inode.ReadMap | kernel/src/ext2fs/inode.c:380-449 | e2_inode_read_block_map returns the format's entries at every level |
| Ext2BlockMap.AllocatorPool | kernel/src/ext2fs/block.c:26-77 | the blocks e2_alloc_block hands out are distinct and not block 0, as writing the map counts on, exactly when block 0 is in use; and they are in no map whose blocks are held |
| Ext2BlockMap.Inode.WriteMap | kernel/src/ext2fs/inode.c:490-584 | after success the format reads back exactly the map, other blocks are untouched, a triple-indirect block is allocated exactly when the last indirect block is not full, and the single-indirect level goes to block 0 exactly when it had no block and none was left |
| Ext2BlockMap.TripleNeedless | kernel/src/ext2fs/inode.c:579-600 | one block more than the single-indirect level holds is such a map |
| Ext2FileIO.ContentsAt | kernel/src/ext2fs/inode.c:890-986 | block i of the file is that stretch of its bytes |
| Ext2FileIO.ContentsPatch | kernel/src/ext2fs/inode.c:890-986 | writing a block of a file of distinct blocks changes that stretch only |
| Ext2FileIO.File.Read | kernel/src/ext2fs/inode.c:890-986 | e2_inode_io reads the slice of the file, clamped at its size |
| Ext2FileIO.File.Write | kernel/src/ext2fs/inode.c:890-986 | e2_inode_io changes exactly the slice of the file, and no byte of the disk outside its blocks |
| Ext2FileIO.OffsetsApart | kernel/src/ext2fs/block.c:8-17 | blocks are read and written at places of their own exactly when they all fit in 4 GiB |
| Ext2Dirent.FilledDecodes | kernel/src/ext2fs/inode.c:1061-1087 | the bytes written for an entry decode to it |
| Ext2Dirent.ReplaceRecord | kernel/src/ext2fs/inode.c:1053-1087 | replacing a record by records of the same bytes keeps the rest of the tiling |
| Ext2Names.LinkFinds | kernel/src/ext2fs/inode.c:988-1103 | in one block: the new name is found, and the others keep their inodes exactly when no neighbour is damaged |
| Ext2Names.DirectoryLink | kernel/src/ext2fs/inode.c:988-1103 | the same for the whole directory |
| Ext2Names.DirectoryUnlink | kernel/src/ext2fs/inode.c:1105-1168 | unlink removes exactly the name |
| Ext2Names.LinkedAgrees | kernel/src/ext2fs/inode.c:988-1103 | a link of a fresh name makes the directory the map with that name added exactly when no neighbour is damaged and, if a block was needed, one was allocated |
| Ext2Names.NeighbourDamaged | kernel/src/ext2fs/inode.c:1086-1087 | a name that exactly fills a free record before a record in use: afterwards the directory is not the map with the name added |
| Ext2Names.ThirteenthBlock | kernel/src/ext2fs/inode.c:1006-1045 | one name more in a directory of twelve full blocks |
| Ext2Names.LinkLost | kernel/src/ext2fs/inode.c:1027-1045 | a first name linked on a full device is not in the directory, though success is reported |
| Ext2Names.UnlinkedAgrees | kernel/src/ext2fs/inode.c:1105-1168 | an unlink makes it the map without the name |
| Ext2Names.RunAgrees | kernel/src/ext2fs/inode.c:988-1168 | over every run of sound links and of unlinks the directory is the map they describe |
| Ext2Directory.FindName | kernel/src/ext2fs/inode.c:112-150 | the walk over the records of a block finds the first with the name, if any |
| Ext2Directory.FindRoom | kernel/src/ext2fs/inode.c:1012-1025 | the walk finds the first free record with room, if any |
| Ext2Directory.WriteEntry | kernel/src/ext2fs/inode.c:1047-1087 | splitting and filling the record byte by byte gives exactly the specified records with the file type, and writes the terminator past the buffer exactly when the name fills the last record |
| Ext2Directory.SmudgeRecords | kernel/src/ext2fs/inode.c:1086-1087 | the terminator on the first byte of the next record clears the low byte of its inode number |
| Ext2Directory.Directory.Lookup | kernel/src/ext2fs/inode.c:112-150 | e2_inode_lookup on bytes is the lookup on records |
| Ext2Directory.Directory.Link | kernel/src/ext2fs/inode.c:988-1103 | e2_inode_link on bytes is the specified link and keeps the tiling; on a full disk the entry goes to block 0; the terminator goes past the buffer exactly when the name fills the last record of its block; it waits for its own lock exactly when the directory is linked into itself or a map of more than twelve blocks is to be written |
| Ext2Directory.Directory.Unlink | kernel/src/ext2fs/inode.c:1105-1168 | e2_inode_unlink on bytes is the specified unlink and keeps the tiling; ENOENT exactly when there is no such name; it waits for its own lock exactly when the name is the directory itself |
| FrameMap.Frames.Find | kernel/src/pmm.c:35-48 | the lowest free frame other than 0, or none exactly when all are used |
| FrameMap.Frames.Reserve | kernel/src/pmm.c:50-54 | reserve_frame adds exactly that frame to those in use |
| FrameMap.Frames.Release | kernel/src/pmm.c:56-60 | release_frame removes exactly that frame |
| AddressSpaceRuns.WriteIsolated | kernel/src/paging.c:418-521 | a write through one directory is read back there and seen through no other page outside the kernel's tables |
| AddressSpaceRuns.FramesApart | kernel/src/paging.c:418-521 | two different pages, not both the kernel's, are in different frames |
| AddressSpaceRuns.AllocKeepsInv | kernel/src/paging.c:157-213 | alloc_page keeps the invariant exactly when it does not give the kernel a table other directories lack |
| AddressSpaceRuns.OutgrownShared | kernel/src/paging.c:497-514 | after such an allocation a copy of another directory shares its private table at that index, and a write through the copy is read through the original |
| AddressSpaceRuns.PrivatePageShared | kernel/src/paging.c:157-521 | a run of one allocation and one copy that ends so |
| AddressSpaceRuns.AllocMaps | kernel/src/paging.c:157-175 | the page is mapped with the permissions asked for, keeping the contents of a page that was there |
| AddressSpaceRuns.AllocView | kernel/src/paging.c:157-213 | no other directory sees it outside the kernel's tables |
| AddressSpaceRuns.CopyKeepsInv | kernel/src/paging.c:473-521 | copy_page_dir keeps the invariant |
| AddressSpaceRuns.CopyView | kernel/src/paging.c:418-521 | the copy maps what the source maps, with permissions and contents, and every directory still maps what it did |
| AddressSpaceRuns.FreeKeepsInv | kernel/src/paging.c:558-581 | free_page_dir keeps the invariant |
| AddressSpaceRuns.FreeInvIff | kernel/src/paging.c:558-581 | freeing any directory keeps it exactly when that is not the kernel's, or is the current one; otherwise the kernel has no directory left |
| AddressSpaceRuns.FreeView | kernel/src/paging.c:558-581 | no other directory sees it |
| AddressSpaceRuns.FreeUndoesCopy | kernel/src/paging.c:473-581 | freeing a fresh copy restores the frames in use, the tables and the directories exactly |
| AddressSpaceRuns.SwitchView | kernel/src/paging.c:330-337 | switch_page_dir keeps the invariant and what every directory maps |
| AddressSpaceRuns.RunKeepsInv | kernel/src/paging.c:157-581 | over every run of allocations, copies, switches, frees and writes each page outside the kernel's tables has a nonzero reserved frame of its own, tables are private or the kernel's, and no frame is lost |
| AddressSpaceRuns.RunIsolated | kernel/src/paging.c:157-581 | whatever is done in other directories, a directory maps the same pages with the same contents outside the kernel's tables |
| PageDirectories.TableStep | kernel/src/paging.c:497-514 | one more table copied extends the copy of a directory |
| PageDirectories.Paging.constructor | kernel/src/paging.c:85-88 | the kernel's empty directory satisfies the invariant |
| PageDirectories.Paging.AllocFrame | kernel/src/pmm.c:62-86 | the page gets the lowest free frame, or there is none |
| PageDirectories.Paging.GetTable | kernel/src/paging.c:190-213 | the table at an index, created empty if there was none |
| PageDirectories.Paging.AllocPage | kernel/src/paging.c:157-175 | alloc_page of an address is the specified allocation, and halts only for a new page without a free frame |
| PageDirectories.Paging.CopyTable | kernel/src/paging.c:418-461 | the loop over pages copies the table into frames that were free, and fails exactly when they are fewer than its pages |
| PageDirectories.Paging.CopyDir | kernel/src/paging.c:473-521 | copy_page_dir makes the specified copy exactly when there are as many free frames as pages to copy |
| PageDirectories.Paging.FreeFrame | kernel/src/pmm.c:96-103 | free_frame releases the frame of a present page unless it is frame 0 |
| PageDirectories.Paging.SwitchTo | kernel/src/paging.c:330-337 | switch_page_dir changes what is current and nothing else, and keeps the invariant |
| PageDirectories.Paging.FreeDirectory | kernel/src/paging.c:558-581 | free_page_dir of any directory gives back exactly the frames and tables of its own; the current directory is left alone; the invariant is lost exactly when the kernel's directory goes |
| Semaphores.EnterKeeps | kernel/src/sem.c:70-105 | sem_wait keeps the invariant |
| Semaphores.SignalKeeps | kernel/src/sem.c:108-128 | sem_signal by a holder keeps it: the first waiter, and it alone, is given the unit and told so |
| Semaphores.TickKeeps | kernel/src/sem.c:37-67 | sem_timeout keeps it and gives and takes no unit |
| Semaphores.TickQueue | kernel/src/sem.c:37-67 | sem_timeout leaves on the list those whose deadline is later, in order |
| Semaphores.TickTask | kernel/src/sem.c:37-67 | each waiter past its deadline is told so and woken, nobody else is touched |
| Semaphores.ResumeKeeps | kernel/src/sem.c:91-96 | a task is told it has a unit exactly if the ticket of its call was given one, and then has one |
| Semaphores.RunConserves | kernel/src/sem.c:37-128 | in every interleaving free and granted units add up to the initial number, nobody waits while a unit is free, and grants follow arrival |
| Semaphores.WaitTold | kernel/src/sem.c:68-128 | in every run a task that had to wait and goes on is told it got a unit exactly if its call was given one; it then has one unit more than before the call, and otherwise as many |
| Semaphores.MutexExclusive | kernel/include/stewieos/sem.h:63-74 | a mutex never has two holders, nor one twice |
| Semaphores.TimedOutEarly | kernel/src/sem.c:37-105 | a sem_wait that queues, the sleep and a timer before the time asked for: the task is off the list, told so and awake exactly when the deadline does not fit the tick counter; for SEM_FOREVER at every tick but 0 |
| Semaphores.LockLeaks | kernel/src/sem.c:70-128 | over every run the lock is left taken exactly when some sem_wait was told not to wait and found no unit |
| Semaphores.NoWaitLocks | kernel/src/sem.c:73-76 | one call told not to wait on a semaphore without units leaves it taken |
| Semaphores.LockedForever | kernel/src/sem.c:70-128 | after that the semaphore never changes |
| Semaphores.SleepFindable | kernel/src/sem.c:88-89 | going to sleep loses a task exactly when it is no longer on the list |
| Semaphores.NextFindable | kernel/src/sem.c:37-128 | no other step loses a task |
| Semaphores.LostForever | kernel/src/sem.c:37-128 | a lost task sleeps for good and keeps any unit given to it |
| Semaphores.WakeupLost | kernel/src/sem.c:70-128 | a run of four steps that loses the unit of a mutex |
| KernelSemaphore.EarliestIsLeast | kernel/src/sem.c:55-66 | the value computed by the loop is the earliest deadline left |
| KernelSemaphore.Semaphore.constructor | kernel/src/sem.c:6-19 | sem_alloc gives a semaphore with all units free |
| KernelSemaphore.Semaphore.Wait | kernel/src/sem.c:70-105 | sem_wait up to sleeping is the specified step, and its result says which branch was taken |
| KernelSemaphore.Semaphore.Finish | kernel/src/sem.c:91-96 | it returns 0 exactly if the call was given a unit, which the task has then, and else -ETIMEDOUT |
| KernelSemaphore.Semaphore.SignalUnit | kernel/src/sem.c:108-128 | sem_signal is the specified step |
| KernelSemaphore.Semaphore.Timeout | kernel/src/sem.c:37-67 | the loop that removes while it walks is the specified step, and the callback is set for the earliest deadline left |
| Lists.RemoveFacts | kernel/include/stewieos/linkedlist.h:77-87 | list_rem takes out exactly the item |
| Tasks.WaitKeeps | kernel/src/task.c:395-407 | task_wait keeps the invariant of the ready queue |
| Tasks.WakeupKeeps | kernel/src/task.c:440-455 | task_wakeup keeps it |
| Tasks.KillKeeps | kernel/src/task.c:791-805 | task_kill keeps it |
| Tasks.ForkKeeps | kernel/src/task.c:585-662 | fork keeps it |
| Tasks.FreeKeeps | kernel/src/task.c:298-373 | task_free keeps it, with the wakeup of a waiting parent |
| Tasks.FreeEffect | kernel/src/task.c:298-373 | task_free leaves every other task as it was, but the dead task's children lose their parent, and the parent becomes ready with pid and status exactly if it sleeps in sys_waitpid with -1, with the child's pid, or with the child's group, 0 standing for its own pid |
| Tasks.SleepsOn | kernel/src/task.c:298-455 | a task asleep in sys_waitpid sleeps on exactly through the steps that neither wake or kill it nor free a child it waits for |
| Tasks.WaiterTold | kernel/src/task.c:298-882 | so over every run, and the child whose freeing ends the sleep leaves it ready with that child's pid and status |
| Tasks.ForkWaitExit | kernel/src/task.c:357-882 | from every state: fork, wait for the child's pid, the child's exit and its freeing leave the parent ready with pid and status |
| Tasks.WakeupUndoesWait | kernel/src/task.c:395-455 | a running task that waits, with whatever flag, and is woken is as before, at the front of the queue |
| Tasks.ForkedChild | kernel/src/task.c:585-662 | the child goes first, with its parent's flags, its own pid and directory and its parent, and nobody else changes |
| Tasks.WaitsAgree | kernel/src/task.c:357-866 | sys_waitpid finds a child that has exited exactly if task_free of it would have ended the wait, for all children, exactly when the wait is for one child, for any, or for the group of a task that leads it |
| Tasks.RunKeepsInv | kernel/src/task.c:298-455 | over every run the ready queue has no duplicates and no waiting or zombie task |
| Tasks.KillReapable | kernel/src/task.c:791-805 | task_kill leaves every exiting task where the scheduler finds it exactly when the task killed is ready |
| Tasks.KilledWaiting | kernel/src/task.c:395-407 | a run of fork, wait and kill that ends with such a task |
| Tasks.NeverReaped | kernel/src/task.c:791-805 | a task killed while it waits is never freed |
| Scheduler.FreeOthers | kernel/src/task.c:298-373 | task_free makes nobody else exiting and leaves ready tasks ready and runnable ones runnable |
| Scheduler.StepNearer | kernel/src/task.c:211-229 | a step past a task that cannot run comes nearer to one that can |
| Scheduler.Processor.Select | kernel/src/task.c:204-229 | if some ready task can run, the loop ends at a ready task that is neither exiting nor waiting, having freed only exiting tasks of other address spaces; on its way, straight on from the task before or round from the front, it has left alone only exiting tasks of this address space and the first task; with none exiting it is the round-robin successor |
| Scheduler.WalkFrees | kernel/src/task.c:214-229 | freeing a dead task on the way, with a parent woken to the front, leaves the walk right behind it |
| Scheduler.Processor.Yield | kernel/src/task.c:196-229 | task_preempt takes back the request to reschedule, which changes nothing in the choice, and then chooses so |
| Scheduler.Processor.FreeTask | kernel/src/task.c:298-373 | task_free is the specified operation |
| Scheduler.Processor.WakeTask | kernel/src/task.c:440-455 | task_wakeup is the specified operation |
| Scheduler.Processor.SleepTask | kernel/src/task.c:395-407 | task_wait is the specified operation |
| Scheduler.Processor.KillTask | kernel/src/task.c:791-805 | task_kill is the specified operation |
| Scheduler.Processor.ForkTask | kernel/src/task.c:640-652 | the child goes to the front of the ready queue with its parent's flags |
| Descriptors.AttachKeeps | kernel/src/fs.c:853-854 | a slot that comes to name an open file, with one reference more, keeps all counts right |
| Descriptors.DetachKeeps | kernel/src/file.c:127-147 | a slot emptied, with file_close, keeps them right and closes the file at its last reference |
| Descriptors.OpenedKeeps | kernel/src/file.c:67-107 | a new file with one reference keeps them right |
| DescriptorRuns.ForkCopies | kernel/src/fs.c:206-216 | the child names exactly the parent's files in the same slots; reserved slots are not copied |
| DescriptorRuns.ExitKeeps | kernel/src/fs.c:225-235 | exit empties the task's table, leaves others alone and keeps counts right |
| DescriptorRuns.RunCounts | kernel/src/fs.c:815-950 | over every run of open, dup, dup2, close, fork, exit, reserving slots and releasing them each file has as many references as descriptors and kernel references, other slots hold no file, and the driver closed each file once or not yet |
| DescriptorRuns.ClosedIsGone | kernel/src/file.c:127-147 | a closed file is named by nothing |
| DescriptorRuns.OpenNames | kernel/src/fs.c:861-925 | sys_open makes the lowest free slot name a file that was never open, with one reference, and touches no other slot |
| DescriptorRuns.DupNames | kernel/src/fs.c:1040-1066 | sys_dup makes the lowest free slot name the descriptor's file, without its pipe bits; that file alone has one reference more and no other slot is touched |
| DescriptorRuns.CloseEmpties | kernel/src/fs.c:934-950 | sys_close empties the slot; its file alone has one reference less, or is closed with the last, and no other slot is touched |
| DescriptorRuns.Dup2Names | kernel/src/fs.c:832-857 | the target becomes the descriptor's slot exactly when it is another one |
| DescriptorRuns.Dup2Elsewhere | kernel/src/fs.c:832-857 | and no other slot is touched |
| DescriptorRuns.Dup2Lowest | kernel/src/fs.c:838-842 | with -1 the lowest free slot is taken exactly when the lowest that names no file is not reserved |
| DescriptorRuns.CloseWithKeeps | kernel/src/file.c:127-147 | counts stay right exactly when the driver succeeds or is not called |
| DescriptorRuns.RelfdKeeps | kernel/src/fs.c:827-830 | sys_relfd keeps them right exactly for a slot that names no file |
| DescriptorRuns.OneFileLost | kernel/src/file.c:127-147 | a task with one open file: a failing driver close and sys_relfd leave wrong counts, dup2 onto itself an empty slot |
| DescriptorRuns.ReleaseUndoesReserve | kernel/src/fs.c:815-830 | sys_relfd of the slot sys_resfd took restores the state |
| DescriptorRuns.ReservedTaken | kernel/src/fs.c:815-842 | after one sys_resfd dup2 to any slot takes the reserved slot 0, not the free slot 1 |
| DescriptorTables.Tables.SysOpen | kernel/src/fs.c:859-924 | sys_open takes the lowest free slot, or fails and leaves the table as it was |
| DescriptorTables.Tables.SysDup | kernel/src/fs.c:1040-1066 | sys_dup is the specified operation: the descriptor returned names the file of the one given; with its error codes |
| DescriptorTables.Tables.SysDup2 | kernel/src/fs.c:832-857 | sys_dup2 with its search is the specified operation, with its error codes |
| DescriptorTables.Tables.SysClose | kernel/src/fs.c:934-950 | sys_close is the specified operation, EBADF exactly for an invalid descriptor |
| DescriptorTables.Tables.CloseFile | kernel/src/file.c:127-147 | file_close drops one reference, and the file at the last |
| DescriptorTables.Tables.CopyVfs | kernel/src/fs.c:206-216 | the loop of copy_task_vfs is the specified fork |
| DescriptorTables.Tables.FreeVfs | kernel/src/fs.c:225-235 | the loop of free_task_vfs is the specified exit |
| Dentries.GetKeeps | kernel/src/dentry.c:119-124 | d_get adds one holder |
| Dentries.AllocKeeps | kernel/src/dentry.c:49-73 | d_alloc adds an entry with one holder and one reference to its parent |
| Dentries.PutKeeps | kernel/src/dentry.c:139-146 | d_put drops one holder; the cascade frees only entries without holder or child, and changes no other |
| Dentries.PutFaults | kernel/src/dentry.c:18-33 | d_put follows no null parent exactly when parents with one reference each lead from the entry to one that has not exactly one |
| Dentries.PutFaultsHeld | kernel/src/dentry.c:18-33 | for a held entry of a tree in order: exactly when it or an entry above it has another holder or another child |
| Dentries.LastRootReference | kernel/src/testfs.c:58-62 | the last reference to a root |
| Dentries.PutAnchored | kernel/src/dentry.c:139-146 | while roots are held besides, no d_put does |
| Dentries.LookupKeeps | kernel/src/dentry.c:161-204 | d_lookup adds one holder to the child it finds or loads; an error leaves every entry as it was; a name that fits with its terminator is the name of the child |
| Dentries.LookupNames | kernel/src/dentry.c:161-204 | siblings keep distinct name fields exactly when the child was found or what is stored of its name is new; names of less than 256 characters always do |
| Dentries.LookupTwice | kernel/src/dentry.c:58-171 | two lookups of a new name give one entry exactly when the name has less than 256 characters or what follows the field is the rest of it; otherwise two with the same field |
| Dentries.NameOf256 | kernel/src/dentry.c:58-171 | a name of 256 characters is looked up twice into two entries unless the inode pointer starts with a null byte |
| Dentries.NameOf257 | kernel/src/dentry.c:58-171 | and one of 257 unless the text there is its last character |
| Paths.CrossBalanced | kernel/src/fs.c:270-278 | crossing a mount exchanges one held path for another |
| Paths.ParentBalanced | kernel/src/fs.c:365-384 | path_get_parent does too, and follows a null pointer exactly at a root mounted nowhere |
| Paths.ChildBalanced | kernel/src/fs.c:325-351 | going to a child does too, and an error drops the path |
| PathLookup.LookupBalanced | kernel/src/fs.c:237-363 | a successful path_lookup adds exactly one reference to its entry and its mount, a failed one none |
| PathLookup.RunKeeps | kernel/src/fs.c:37-363 | over every run of lookups, each with its own working directory, which may be a held path, and its own mounts and file systems, and path_puts, with every root mounted, nothing faults, each count is the references held and pinned plus children, and siblings keep distinct names if the names asked for have less than 256 characters |
| PathLookup.RootDotDot | kernel/src/fs.c:365-384 | "/.." follows a null pointer where the root is mounted nowhere |
| PathMeaning.WalkMeans | kernel/src/fs.c:237-352 | in every tree, with whatever is mounted: for a path in which no "." or ".." follows a ".", no other name starts with two dots but a last "..", and no slash is repeated, the loop over characters finds what the names mean exactly where the last name is "" or ".", or ".." at an entry that has a parent with nothing mounted on it, or another name whose entry has nothing mounted on it |
| PathMeaning.UpRight | kernel/src/fs.c:365-384 | path_get_parent is what ".." means exactly at an entry that has a parent with nothing mounted on it |
| PathMeaning.Unclear | kernel/src/fs.c:280-302 | every path but those is resolved wrongly in a tree with nothing mounted |
| PathMeaning.PathsMean | kernel/src/fs.c:237-352 | so where nothing is mounted the code finds what a path means in every tree and with every file system exactly if it is such a path |
| PathMeaning.ChildIs | kernel/src/fs.c:312-348 | going to a name leads to an entry below the directory, in the same mount and with that name, or gives the file system's error |
| PathMeaning.ParentMeans | kernel/src/fs.c:268-363 | with WP_PARENT the loop leads to where all names but the last do, for a last name that need not exist, and otherwise to the parent of what the path leads to |
| PathMeaning.LookupAbsolute | kernel/src/fs.c:237-363 | path_lookup of a path that starts with a slash finds what the names after it mean from the root exactly where the walk does, and with WP_PARENT the directory of the last |
| PathMeaning.LookupRelative | kernel/src/fs.c:237-363 | and of any other path what its names mean from the working directory |
| PathMeaning.StartOnly | kernel/src/fs.c:260-266 | an absolute path leads to the same from every working directory, a relative one under every root |
| PathMeaning.HereAndRoot | kernel/src/fs.c:260-302 | "/" is the root and "." the working directory, or what is mounted there |
| PathMeaning.LookupRefused | kernel/src/fs.c:245-258 | no name and one of more than 511 characters are errors that change nothing |
| PathMeaning.LastSeen | kernel/src/fs.c:268-302 | with a slash or "/." at its end such a path is found in every tree, whatever is mounted |
| PathMeaning.MountMissed | kernel/src/fs.c:325-333 | a name of a mount point leads to the directory below the mount, not to the root of what is mounted there |
| PathMeaning.MountNotLeft | kernel/src/fs.c:365-384 | and ".." from that root leads to the mount point, not to the directory above it |
| PathMeaning.MountExists | kernel/src/fs.c:536-573 | a tree with one mount in which both happen |
| PathMeaning.WrongPaths | kernel/src/fs.c:280-302 | "../x", "..foo" and all that start so, all that start with "././", and all with two slashes in a row are resolved wrongly |
| PathMeaning.RightPaths | kernel/src/fs.c:280-302 | ".name", "./name", "name/." and "name/.." are not, where nothing is mounted |
| KernelVfs.Vfs.PutEntry | kernel/src/dentry.c:139-146 | d_put and d_free, calling each other, are the specified cascade |
| KernelVfs.Vfs.FreeEntry | kernel/src/dentry.c:18-33 | d_free takes the entry off its parent's list and puts the parent |
| KernelVfs.Vfs.FindChild | kernel/src/dentry.c:167-174 | the loop over children finds the first whose name field, read on where it has no terminator, is the name |
| KernelVfs.Vfs.LookupEntry | kernel/src/dentry.c:161-204 | d_lookup is the specified lookup |
| KernelVfs.Vfs.ParentOf | kernel/src/fs.c:365-384 | path_get_parent is the specified step |
| KernelVfs.Vfs.LookupFrom | kernel/src/fs.c:268-363 | the loop of path_lookup is the specified walk |
| KernelVfs.Vfs.LookupPath | kernel/src/fs.c:237-363 | path_lookup is the specified lookup |
| ElfRelocation.ResolveSame | kernel/src/elf32.c:332-363 | rewriting a symbol does not change the address it stands for |
| ElfRelocation.SequentialIsAtOnce | kernel/src/elf32.c:365-415 | for places apart, relocations one after another are all computed from the image as loaded and put at once |
| ElfRelocation.PlacedRight | kernel/src/elf32.c:394-408 | the word at a place then is right: R_386_32 holds S + A, R_386_PC32 the distance from the place to S + A, the other two S, modulo 2^32 |
| ElfRelocation.Moved | kernel/src/elf32.c:365-415 | loaded k bytes further on, words with addresses in the module grow by k, distances to the kernel shrink by k, and all others stay |
| ElfRelocation.KernelFirst | kernel/src/elf32.c:335-347 | an undefined symbol has the value of the first kernel symbol of its name, and none exactly if there is no such |
| ElfLoader.SymbolLoaded | kernel/src/elf32.c:226-388 | a section's symbol stands for the address at which the loader puts the byte of the section it names, which is there if no later section is loaded over it |
| ElfRelocation.AtOnceUnique | kernel/src/elf32.c:365-415 | there is one such image |
| ElfRelocation.AnyOrder | kernel/src/elf32.c:287-314 | the order of relocations does not matter |
| ElfLoader.SectionsInside | kernel/src/elf32.c:189-202 | an allocated section after the header lies inside the computed length exactly when its end fits 32 bits |
| ElfLoader.LengthTooShort | kernel/src/elf32.c:189-202 | a .bss of nearly 4 GiB gives a module of 76 bytes, in which it does not lie |
| ElfLoader.LengthLeast | kernel/src/elf32.c:189-202 | the length is no larger than needed exactly when no allocated section ends inside the header |
| ElfLoader.LengthWraps | kernel/src/elf32.c:199-201 | one section that ends inside the header gives a length just below 4 GiB |
| ElfLoader.LengthTears | kernel/src/elf32.c:199-215 | if it ends in the last 24 bytes of the header, kmalloc of that length as the first request tears the heap |
| ElfLoader.SectionIntact | kernel/src/elf32.c:226-236 | a byte of a section is loaded as it should be exactly when the last section there is of the same kind, cleared or from the file, or the byte of the file is zero |
| ElfLoader.ModuleIntact | kernel/src/elf32.c:226-236 | all bytes of all sections are exactly when no section to be cleared meets one from the file at a nonzero byte |
| ElfLoader.BssOverlap | kernel/src/elf32.c:226-236 | a .bss at the file offset of the next section, in both orders |
| ElfLoader.Loader.ModuleLength | kernel/src/elf32.c:189-202 | the loop computes that length, in which every allocated section after the header lies exactly when its end fits 32 bits |
| ElfLoader.Loader.LoadSections | kernel/src/elf32.c:226-236 | every byte is that of the last section written there, as far as the file goes; it stops exactly when a section would be written outside the module |
| ElfLoader.TableEnds | kernel/src/elf32.c:287-314 | a table of relocations ends well exactly when each can be done inside the module, and otherwise as the first that cannot does: an error, or a word outside the module or the tables |
| ElfLoader.AllEnds | kernel/src/elf32.c:238-321 | the same for all tables |
| ElfLoader.UnloadedTarget | kernel/src/elf32.c:239-314 | a relocation of a section that is not loaded and lies behind all that are goes outside the module |
| ElfLoader.Loader.Relocate | kernel/src/elf32.c:332-415 | one relocation, with the symbol rewritten, makes the word at its place right for the symbol as read; it fails exactly for an unresolved or common symbol or an unsupported type, and strays exactly for a symbol or section outside its table or a place outside the module |
| ElfLoader.Loader.RelocateTable | kernel/src/elf32.c:287-314 | a table of relocations is applied in order, and ends as specified |
| ElfLoader.Loader.RelocateAll | kernel/src/elf32.c:238-321 | all tables together end as specified, and for places apart equal doing all at once and make every word right |
| NumberFormat.DigitsDenote | kernel/src/ee_printf.c:107-118 | the digits denote the number, in every base from 2 to 36 |
| NumberFormat.NoLeadingZero | kernel/src/ee_printf.c:107-118 | there are no digits to spare |
| NumberFormat.LayoutLength | kernel/src/ee_printf.c:120-139 | the output has exactly max(width, sign + prefix + max(precision, digits)) characters |
| NumberFormat.DigitsCase | kernel/src/ee_printf.c:73-74 | letters among the digits are of the case asked for |
| NumberFormat.PrintedDenotes | kernel/src/ee_printf.c:67-142 | whatever the flags, width and precision, the text printed reads as the number: with its sign if it is signed, as an unsigned word if not |
| NumberFormat.SignPrinted | kernel/src/ee_printf.c:80-98 | "-" is printed exactly for a signed negative number, "+" exactly for another signed one when asked for |
| NumberFormat.ReadsBack | kernel/src/ee_printf.c:60-142 | a non-negative int printed without a sign is read back exactly when it is zero or no blank is in front |
| NumberFormat.TakeDigits | kernel/src/ee_printf.c:107-118 | the loop takes off the digits, lowest first |
| NumberFormat.SkipAtoi | kernel/src/ee_printf.c:60-65 | ee_skip_atoi reads the run of digits as the number it denotes |
| NumberFormat.Number | kernel/src/ee_printf.c:67-142 | ee_number's loops put exactly the specified layout, and nothing for an unknown base |

## Left out

- Spin-lock order, interrupts, TLB flushes and the switch code: locked regions are steps, copying a frame is one update.
- Drivers, the console, the timer list, ttys, pipes, messages, signals, sbrk, execve and the system call table.
- The heap's magic numbers as a check against corruption: they are kept, but the branch that reports corruption cannot be taken in a heap in order.
- Growing a file inside e2_inode_io, e2_inode_resize, e2_inode_truncate and e2_inode_mknod.
- The triple-indirect level of the block map: its loops use the wrong buffer, so the round trip stops at the double-indirect level.
- e2_alloc_block and e2_free_block both leave out the first data block in numbering; so does the model.
- KernelHeap.Heap: what is in memory after a call went wrong; the methods stop before the write.
- KernelHeap.Heap.Free: an address inside the heap that is no held payload, which the caller must not give and the code does not detect.
- Ext2FileIO.File.Write: writes that end past i_size, for which the code resizes the file first.
- Ext2Directory.Directory.Link: what the inode of the directory holds when it does not return; names of 256 bytes or more, whose length does not fit the record, are not modelled, and neither are the link count and the checks of type and device before the search; what lies after the buffer when the terminator is written there.
- Ext2Directory: records whose length is no multiple of four or less than eight, which no block written by this code has.
- FrameMap.Frames.Find: a number of frames that is no multiple of 32, of which the code never finds the last ones; frame numbers fit 20 bits, as in a 4 GiB machine.
- strip_page_dir, page_fault, map_page and temporary mappings.
- PageDirectories: a kmalloc that fails in copy_page_dir; the accessed and dirty bits, which hardware sets.
- Semaphores: sem_free, and whether a timer callback is registered for a deadline (earliest_timeout).
- KernelSemaphore.Semaphore.Wait: the log line and the registration of the timer callback.
- Scheduler.Processor.Select: saving registers, the time slice and signal_check; a ready queue without a task that can run, where the loop does not end.
- Tasks: the removal of a collected child by sys_waitpid, task_detach, and signals that stop or continue a task; task_free's message queue and tty list.
- DescriptorTables.Tables.SysOpen: path_lookup, sys_mknod and file_open are one parameter that says whether they succeed.
- Paths: mounting and unmounting as steps of a run; the lists of mounts do not change during a lookup. References are counted without bound, but one less than none is 2^32 - 1. A directory without an inode or without a lookup operation is an error answer of its file system.
- ElfLoader: program headers, ident checks and reading the tables from the file; the index sh_link or sh_info of a table of relocations outside the section table.
- ElfLoader.Loader.Relocate: what is read or written after a relocation has strayed; the methods stop before.
- NumberFormat: eaddr, iaddr, floating point and the parsing of the format; widths so large that int arithmetic overflows.

# Neonix kernel model

This project models parts of Neonix, a small x86_32 kernel, in Dafny and proves properties of
them. Each part has a specification written as functions on values, laws about it, and, where the
kernel changes state in loops, a class whose methods do the same loops in place and are proved
equal to the specification.

| part | kernel sources | files |
|---|---|---|
| copy-on-write paging | memory.c, task.c | PageTables, FrameCounts, PagingSteps, ForkExit, AddressSpaces, EagerCopy, PagingRefinement, PagingCompletes, MmapHazard, MemoryManager |
| file storage | bmap.c, inode.c, bitmap.c | FileBlocks, FileInvariant, IndexBlocks, FileContents, FileSpace, FileTruncate, FileRuns, StaleBlocks, FileSystem, Bitmaps |
| buffer cache | buffer.c | BufferCache, BufferPool, CacheHolds |
| files through the cache | bmap.c, inode.c, buffer.c | CachedFiles |
| disk elevator and lists | device.c, list.c | Elevator, LinkedList, Device |
| kernel heap | arena.c, memory.c | Heap, HeapSpace, KernelHeap |
| process tree | task.c | Tasks, TaskTable |
| open files | file.c, pipe.c, inode.c | Descriptors, FileTable |
| pipe | pipe.c, fifo.c | Pipe, Fifo |
| mutex and re-entrant lock | mutex.c, task.c, clock.c | Mutex, Scheduling |
| console | console.c | Console, ConsoleGrid, ConsoleSequences, ConsoleControls, ConsoleText, VideoConsole |
| arguments of a program | execve.c, crt1.c | ExecArgs |
| working directory | namei.c, string.c | Paths |
| numbers | vsprintf.c, stdlib.c | Numbers, NumberText |
| used by several | | Outcomes, Collections, Unsigned |

`dafny verify dfyconfig.toml` checks everything.

A panic or a failed assertion of the kernel is the outcome `Halt`; a law that says an operation is
`Done` says that none is reached. Code between two points where a task blocks runs with interrupts
off, so it is one step of a machine; runs are arbitrary sequences of enabled steps.
When an operation completes is a law of its own, said on what it needs: free frames, zones, pages and
table entries (`PagingCompletes`, `FileSpace`, `HeapSpace`, `ReadsIff`, `OpenInv`, `PipeServed`).

Where the code and its purpose differ, the model follows the code, a law gives the exact condition,
and another a case in which it fails:

- memory: `MapPageExact`, `MapPageUnseen`, `MmapExact` (fails in `ForkExposes`), `BrkOverpromises`
  (`BrkGrantsTooMuch`);
- files: `IndexBlockExact`, `BmapExact`, `WriteExact`, `RunExact` (`StaleIndexBlock`), `WritePastEnd`
  (`HoleLeft`), `TruncateEmpties` (`NeverFreed`), `TruncateClean`;
- buffer cache: `AssignExact` (`HashedTwice`);
- heap sizes near 4 GiB: `MallocInv`, `LargeServed` (`HugeGetsOnePage`);
- console: `DeleteLineExact` (`DeleteLineMissed`), `ErasesExact` (`ErasureMissed`), `CursorMovesExact`
  (`UpMovesDown`), `EscapeStays` (`SavedThenLost`), `SequenceEnds` (`StuckForever`),
  `StyleExact` (`ReverseHides`), `CharsExact` (`LetterLeft`);
- elevator: `WhoIsServedFirst` (`NeverServed`); mutex: `WokenEntersIff` and `PickedEnters`
  (`CanStarve`, `Starves`);
- a descriptor duplicated onto itself: `Dup2Exact`; paths: `StaysNormalIff` (`EmptyNameTakenBack`);
  the least integer: `AtoiReadsNumber`.

## Model

| member | source | states |
|---|---|---|
| `PagingRefinement.RunRefines` | src/kernel/memory.c:388-620 | over any run from boot of spawn, fork, exit, brk, mmap, munmap, faults and user stores, every state keeps the counting invariant and every step is a step of the machine in which fork copies every private page; excluded is a call of `sys_mmap` at a chosen address over a page that copy-on-write shares privately, after which it fails (`MmapExact`) |
| `PagingRefinement.StepFaithful` | src/kernel/memory.c:453-726 | each step other than a call of `sys_mmap` at a chosen address over a page that copy-on-write shares privately keeps the invariant, refines the copying machine, and fails none of the kernel's assertions about counts; it stops only for lack of memory or because the call or access is refused; when it completes is `PagingCompletes.StepServed` |
| `PagingRefinement.BootInv` | src/kernel/memory.c:134-296 | memory as `memory_map_init` and `mapping_init` leave it satisfies the invariant |
| `PagingRefinement.ForkStep` | src/kernel/task.c:392-446 | a fork refines copying all pages of the parent, and no other task's view changes |
| `PagingRefinement.ExitStep` | src/kernel/task.c:494-548 | an exit always completes and removes exactly the pages of the task that exits |
| `PagingRefinement.BrkStep` | src/kernel/memory.c:541-569 | `sys_brk` removes exactly the pages above a lowered break, moves the break up, or is refused without effect; which of these is `PagingCompletes.BrkServed` |
| `PagingRefinement.MmapStep` | src/kernel/memory.c:571-620 | `sys_mmap`, over no page that copy-on-write shares privately, maps exactly the requested pages with the requested protection, keeps the words of pages already there, and a newly shared page is shared with nobody; when it does is `PagingCompletes.MmapServed` |
| `PagingRefinement.MunmapStep` | src/kernel/memory.c:622-640 | `sys_munmap` removes exactly the pages and bits of its range; when it does is `PagingCompletes.MunmapServed` |
| `PagingRefinement.FaultStep` | src/kernel/memory.c:656-726 | a fault on a present page changes nobody's view, a demand fault adds one private writable page, and a fault outside user memory ends the task; when one is served is `PagingCompletes.AbsentServed` and `PresentServed` |
| `PagingRefinement.StoreStep` | src/kernel/memory.c:453-500 | a permitted user write changes the page it names, and other pages only if they are the same shared mapping |
| `PagingRefinement.MmapZoneSafe` | src/kernel/memory.c:579-582 | with no address given and the run inside the zone, `sys_mmap` takes only absent pages, so it cannot break copy-on-write |
| `PagingRefinement.MapPageExact` | src/kernel/memory.c:586-611 | mapping a page keeps the invariant if and only if the page is not one that other tasks hold privately and the call would make writable or shared; what others can see is `MapPageUnseen` |
| `PagingRefinement.WritableCountedOnce` | src/kernel/memory.c:703-708 | a present page that may be written and is not shared has count 1 |
| `PagingRefinement.WriteRetried` | src/kernel/memory.c:692-726 | after one handled write fault the processor permits the write |
| `PagingRefinement.SharedNeverFaults` | src/kernel/memory.c:698-699 | a shared page that may be written never faults on a write, which is why `page_fault` may assert that the page is not shared |
| `PagingRefinement.ForkFails` | src/kernel/memory.c:453-500 | a fork runs out of memory if and only if the parent has more page tables than there are free frames |
| `PagingRefinement.ForkUndone` | src/kernel/memory.c:503-539 | the exit of an untouched child puts every byte of `memory_map` and `free_pages` back as they were before the fork |
| `PagingRefinement.BrkOverpromises` | src/kernel/memory.c:561-565 | `sys_brk` grants growth for which frames are missing exactly in a band as wide as the number of kernel frames that `free_pages` still counts |
| `PagingCompletes.StepServed` | src/kernel/memory.c:453-726 | in every state that keeps the invariant each step completes if and only if what it asks for is there, said on page table entries, bits of the mapping zone and free frames, so no step is refused without need |
| `PagingCompletes.AbsentServed` | src/kernel/memory.c:718-730 | a fault on an absent page of user memory makes the page present if and only if it lies below the break or on the stack and there is a free frame for it and one for a missing table; otherwise the machine stops, for lack of memory only in the second case |
| `PagingCompletes.PresentServed` | src/kernel/memory.c:692-717 | a fault on a present page completes if and only if it is a write, the page is neither shared nor read-only, and either no other entry holds its frame or a frame is free |
| `PagingCompletes.BrkServed` | src/kernel/memory.c:541-569 | the break is moved where it was asked for if and only if that is in the heap and the growth does not exceed `free_pages`, which is the number of free frames and of the kernel frames it still counts; otherwise nothing changes |
| `PagingCompletes.MmapServed` | src/kernel/memory.c:571-611 | a mapping is made if and only if the address asked for, or for none the lowest run of clear bits, leaves it in the zone and there is a free frame for each absent page and each missing table of it |
| `PagingCompletes.MunmapServed` | src/kernel/memory.c:622-640 | a range is unmapped if and only if it lies in the zone and all its bits are set |
| `PagingCompletes.LinkExact` | src/kernel/memory.c:388-407 | `link_page` completes if and only if there are free frames for the page and for a missing table, takes just those, and adds no other page or table |
| `PagingCompletes.RangeExact` | src/kernel/memory.c:586-611 | the mapping loop completes if and only if there are as many free frames as pages absent and tables missing in the whole range |
| `EagerCopy.ForkCopies` | src/kernel/memory.c:453-500 | after a fork the child has exactly its parent's pages, with the same contents |
| `EagerCopy.StoreIsolated` | src/kernel/memory.c:692-726 | a write is seen at another page only when both are the same shared mapping |
| `EagerCopy.BitsAfter` | src/kernel/memory.c:586-611 | in the mapping zone a page is present if and only if its bit of `vmap` is set, after every step |
| `FrameCounts.CountsSmall` | src/kernel/memory.c:490 | a frame's count never exceeds the number of live address spaces, at most 64, so the `u8` assertion below 255 never fires |
| `FrameCounts.HoldersFew` | src/kernel/memory.c:473-495 | no address space maps a frame twice |
| `PagingSteps.GetPageCore` | src/kernel/memory.c:164-180 | `get_page` gives a frame nobody holds, and fails if and only if no count is zero |
| `PagingSteps.PutPageDone` | src/kernel/memory.c:183-206 | the assertions of `put_page` hold for every counted user frame |
| `PagingSteps.GetTableCore` | src/kernel/memory.c:305-324 | `get_pte` with `create` adds at most an empty table and keeps every page |
| `PagingSteps.LinkPageCore` | src/kernel/memory.c:388-407 | `link_page` makes the page present, counted once if new, and changes no other |
| `PagingSteps.UnlinkPageCore` | src/kernel/memory.c:410-432 | `unlink_page` removes the one page and gives its reference back |
| `PagingSteps.WriteFaultCore` | src/kernel/memory.c:692-717 | copy-on-write makes the page writable with the words it had, and leaves all other pages alone |
| `PagingSteps.MapPageUnsafe` | src/kernel/memory.c:589-601 | taking a privately shared page with `sys_mmap` breaks the invariant |
| `ForkExit.CopyDirectoryCore` | src/kernel/memory.c:453-500 | `copy_pde` gives the child the parent's entries, write-protects all that are not shared, and keeps counts exact |
| `ForkExit.ShareEntriesCore` | src/kernel/memory.c:473-492 | the inner loop of `copy_pde` counts one more holder for each present entry and never meets its assertions |
| `ForkExit.FreeDirectoryCore` | src/kernel/memory.c:503-539 | `free_pde` always completes and gives back every reference of the address space and no other |
| `ForkExit.ForkExitRestores` | src/kernel/memory.c:453-539 | fork and exit of the untouched child leave `memory_map` as it was |
| `MmapHazards.MapPageUnseen` | src/kernel/memory.c:586-611 | after a page was made writable, no write to it shows at a page that does not share it if and only if it was not one that other tasks hold privately |
| `MmapHazards.MmapExact` | src/kernel/memory.c:571-620 | after a call of `sys_mmap` for one page, every run that can follow is a run of the machine in which fork copies everything, if and only if the call did not take a page that copy-on-write shares privately |
| `MmapHazards.ForkExposes` | src/kernel/memory.c:453-611 | after any fork each private page of the parent is such a page: made writable by `sys_mmap`, it lets the child see what the parent writes |
| `MmapHazards.BrkGrantsTooMuch` | src/kernel/memory.c:561-565 | whenever the mapping zone is far enough away, growth by one page more than there are free frames is granted |
| `MemoryManagers.MemoryManager.constructor` | src/kernel/memory.c:134-296 | the boot state of `memory_map`, `free_pages` and the boot directory |
| `MemoryManagers.MemoryManager.GetPage` | src/kernel/memory.c:164-180 | the loop equals taking the lowest free frame |
| `MemoryManagers.MemoryManager.PutPage` | src/kernel/memory.c:183-206 | one reference less, with the three assertions proved |
| `MemoryManagers.MemoryManager.CopyPage` | src/kernel/memory.c:435-450 | a new frame with the contents of the old |
| `MemoryManagers.MemoryManager.GetTable` | src/kernel/memory.c:305-324 | the walk that creates a missing table |
| `MemoryManagers.MemoryManager.LinkPage` | src/kernel/memory.c:388-407 | in place, equal to its specification, keeping the counts |
| `MemoryManagers.MemoryManager.UnlinkPage` | src/kernel/memory.c:410-432 | in place, equal to its specification, keeping the counts |
| `MemoryManagers.MemoryManager.UnlinkRange` | src/kernel/memory.c:554-560 | the unlinking loop of `sys_brk` and `sys_munmap` |
| `MemoryManagers.MemoryManager.MapPage` | src/kernel/memory.c:588-609 | one round of the mapping loop, over any page |
| `MemoryManagers.MemoryManager.MapRange` | src/kernel/memory.c:586-611 | the mapping loop, over any pages |
| `MemoryManagers.MemoryManager.SysBrk` | src/kernel/memory.c:541-569 | any call does what its specification says: it stops on a break outside the heap, returns -1 exactly when growth is refused, and keeps the invariant |
| `MemoryManagers.MemoryManager.SysMmap` | src/kernel/memory.c:571-620 | any call does what its specification says, returns where it mapped, and keeps the invariant unless it takes a page that copy-on-write shares privately |
| `MemoryManagers.MemoryManager.SysMunmap` | src/kernel/memory.c:622-640 | any call does what its specification says: it stops on a range that is not mapped, and keeps the invariant |
| `MemoryManagers.MemoryManager.CopyOnWrite` | src/kernel/memory.c:692-717 | the copy-on-write branch, with its assertions proved |
| `MemoryManagers.MemoryManager.PageFault` | src/kernel/memory.c:656-730 | every branch of the fault handler, equal to the specification that `PagingCompletes.AbsentServed` and `PresentServed` are about |
| `MemoryManagers.MemoryManager.ShareEntries` | src/kernel/memory.c:473-492 | the inner loop of `copy_pde` in place |
| `MemoryManagers.MemoryManager.CopySlot` | src/kernel/memory.c:465-499 | one round of the outer loop of `copy_pde` |
| `MemoryManagers.MemoryManager.CopyDirectory` | src/kernel/memory.c:453-500 | `copy_pde` keeps the invariant |
| `MemoryManagers.MemoryManager.PutEntries` | src/kernel/memory.c:503-539 | the inner loop of `free_pde` in place |
| `MemoryManagers.MemoryManager.FreeDirectory` | src/kernel/memory.c:503-539 | `free_pde` keeps the invariant |
| `MemoryManagers.MemoryManager.TaskFork` | src/kernel/task.c:409-421 | the memory part of fork keeps the invariant |
| `MemoryManagers.MemoryManager.TaskExit` | src/kernel/task.c:511-514 | the memory part of exit keeps the invariant |
| `Bitmaps.Bitmap.Test` | src/lib/bitmap.c:21-38 | the bit as a boolean sequence has it |
| `Bitmaps.Bitmap.Set` | src/lib/bitmap.c:41-66 | sets that bit and no other |
| `Bitmaps.Bitmap.Search` | src/lib/bitmap.c:69-100 | finds the lowest run of clear bits, or reports that there is none |
| `Bitmaps.Bitmap.Scan` | src/lib/bitmap.c:69-116 | takes exactly the lowest run of clear bits, or changes nothing |
| `FileInvariant.BmapCreates` | src/fs/bmap.c:134-204 | when each zone handed to an empty index slot on the way reads as zeros, `bmap` with `create` maps the block, keeps every mapping there was, and keeps the blocks of all files pairwise distinct and marked used; nothing is asked of other free zones; when it completes is `FileSpace.BmapServed` |
| `FileInvariant.BmapLooks` | src/fs/bmap.c:134-204 | `bmap` without `create` changes nothing and returns what the three-level walk finds |
| `FileInvariant.BallocFresh` | src/fs/bmap.c:11-40 | `balloc` hands out a data zone that no slot of any file holds, and fails if and only if all are used |
| `FileInvariant.FillCore` | src/fs/bmap.c:180-203 | one round of the walk: the slot is filled afterwards, nothing else moved |
| `FileInvariant.IndexBlockExact` | src/fs/bmap.c:183-187 | filling an index slot keeps all blocks apart if and only if the block handed out reads as zeros, since `balloc` does not clear it |
| `FileInvariant.OtherSlot` | src/fs/bmap.c:134-204 | filling one slot changes the zone of no other slot of any file |
| `IndexBlocks.BmapExact` | src/fs/bmap.c:134-204 | when `bmap` with `create` completes, the blocks of all files are still apart if and only if each zone it handed to an empty index slot reads as zeros, whatever the later rounds did |
| `IndexBlocks.SettledClean` | src/fs/bmap.c:179-203 | with all index slots on the way filled, as for direct and for mapped blocks, nothing is asked of the free zones |
| `IndexBlocks.MappedSettled` | src/fs/bmap.c:179-203 | a mapped block has all index slots on its way filled |
| `IndexBlocks.FreeCleanPath` | src/fs/bmap.c:134-204 | on a volume whose free zones read as zeros the condition holds, and the zones still free do afterwards |
| `IndexBlocks.FilledStays` | src/fs/bmap.c:183-187 | on any volume, spoiled or not, filling an empty slot overwrites no slot that holds a zone |
| `FileContents.WriteSplices` | src/fs/inode.c:281-341 | for every offset up to the size and all data, when each zone handed to an empty index slot on the way reads as zeros, `inode_write` splices the data into the file's byte sequence, changes no other file, leaves no hole, and stops only when the volume is full or the file too large; which of these is `FileSpace.WriteServed` |
| `FileContents.WritePastEnd` | src/fs/inode.c:281-341 | for any data, after a write past the end the file has no hole, which `inode_read` asserts, if and only if all blocks before the written ones were mapped |
| `FileContents.NewFileGood` | src/fs/inode.c:161-177 | an inode with zero zones joins the others as an empty file |
| `FileContents.WriteBytes` | src/fs/inode.c:281-341 | `inode_write` at any offset, inside or past the end: exactly the blocks touched are mapped besides those that were, of all mapped bytes of all files exactly the written ones change, the size grows to the end of the data, and it stops only when the volume is full or the file too large; which of these is `FileSpace.WriteServed` |
| `FileContents.WriteExact` | src/fs/inode.c:281-341 | the blocks of all files stay apart through all rounds of a write if and only if each zone handed to an empty index slot reads as zeros |
| `FileContents.InPlaceSettled` | src/fs/inode.c:281-341 | a write below the size or within the direct blocks finds every index slot filled |
| `FileContents.SettledWriteClean` | src/fs/inode.c:281-341 | with every index slot on the way filled a write asks nothing of the free zones, in any of its rounds |
| `FileContents.FreeCleanWrite` | src/fs/inode.c:281-341 | on a volume whose free zones read as zeros any write gets what it asks, and the zones still free read as zeros afterwards |
| `FileContents.ReadBytes` | src/fs/inode.c:226-278 | the reading loop completes if and only if every block it needs is mapped, and then gives the bytes |
| `FileContents.ReadSlices` | src/fs/inode.c:226-278 | reading a file without a hole within its size gives the slice of its byte sequence |
| `FileContents.ChunkWrote` | src/fs/inode.c:292-335 | one round of the writing loop moves no block and changes exactly the bytes it writes |
| `FileSpace.BmapServed` | src/fs/bmap.c:134-204 | `bmap` with `create` completes if and only if the volume has as many free data zones as there are empty slots on the way to the block, and takes just so many |
| `FileSpace.WriteServed` | src/fs/inode.c:281-341 | `inode_write` runs out of space if and only if there are fewer free data zones than empty slots on the ways to all blocks it touches, is refused if and only if there are enough and the file would become too large, and completes otherwise |
| `FileSpace.FillExact` | src/fs/bmap.c:179-190 | one round of the walk: an empty slot is filled if and only if a data zone is free, takes one, and leaves every other slot empty or filled as it was |
| `FileTruncate.TruncateEmpties` | src/fs/inode.c:343-392 | `inode_truncate` completes if and only if every zone of the file is one `bfree` can handle; then exactly the blocks reachable from the inode are freed, each once, all its slots are empty, and every other slot and every block is as before |
| `FileTruncate.TruncateClean` | src/fs/inode.c:343-392 | free zones that read as zeros before a truncation do so afterwards if and only if all blocks of the file did |
| `FileTruncate.FreeOne` | src/fs/bmap.c:43-74 | `bfree` clears one bit, and is refused if and only if the zone number exceeds BLOCK_BITS |
| `FileTruncate.FreeSlot` | src/fs/inode.c:343-363 | `inode_bfree` frees the whole tree below a slot, each block once |
| `FileTruncate.TruncatedContents` | src/fs/inode.c:343-392 | the truncated file is empty, every other file has the bytes it had, and no file has a hole |
| `FileRuns.RunPlain` | src/fs/inode.c:226-392 | any run of creating, writing, reading and truncating several files behaves, reply by reply, as files that are plain byte sequences, whenever each zone a write puts into an empty index slot reads as zeros; blocks freed by truncation may be taken again, and none is freed twice; it stops if and only if at some call the free zones are too few, the file would be too large or a zone is too high for `bfree` |
| `FileRuns.CallPlain` | src/fs/inode.c:226-392 | one call does to the files and returns what it does on byte sequences; it stops for want of space if and only if there are fewer free zones than empty slots on its ways, and is refused if and only if the file would become too large or a zone is too high for `bfree` |
| `FileRuns.RunExact` | src/fs/inode.c:226-392 | for a run that completes that condition is exact: the blocks of all files stay apart through every round of every write if and only if it holds |
| `FileRuns.CarefulRunPlain` | src/fs/inode.c:226-392 | a condition on the calls alone: on a volume whose free zones read as zeros any calls will do up to the first truncation; after it, and on any volume, those whose writes stay below the size or within the direct blocks; such a run too stops just where `RunPlain` says |
| `StaleBlocks.StaleIndexBlock` | src/fs/bmap.c:183-187 | on every volume that is large enough: a file of eight blocks is written and truncated, another is written, and its eighth block lies in a zone that `balloc` hands out to the next that asks |
| `StaleBlocks.HoleLeft` | src/fs/inode.c:281-341 | one byte written behind the end of an empty file leaves a hole, and reading the file stops the machine |
| `StaleBlocks.NeverFreed` | src/fs/bmap.c:43-74 | on every volume with a zone above BLOCK_BITS in use some file cannot be truncated |
| `FileSystems.FileSystem.constructor` | src/fs/inode.c:213-223 | an empty volume, whatever its blocks hold |
| `FileSystems.FileSystem.NewFile` | src/fs/inode.c:161-177 | adds an empty file and keeps the invariant |
| `FileSystems.FileSystem.Balloc` | src/fs/bmap.c:11-40 | the bitmap scan as it is run |
| `FileSystems.FileSystem.Bfree` | src/fs/bmap.c:43-74 | the bitmap update as it is run |
| `FileSystems.FileSystem.Visit` | src/fs/bmap.c:179-203 | one round of the loop of `bmap`, on any volume |
| `FileSystems.FileSystem.Walk` | src/fs/bmap.c:179-203 | the loop of `bmap` with its array, index, level and divider, on any volume |
| `FileSystems.FileSystem.Bmap` | src/fs/bmap.c:134-204 | the whole walk equals its specification, on any volume; when it completes is `FileSpace.BmapServed` |
| `FileSystems.FileSystem.InodeRead` | src/fs/inode.c:226-278 | the loop equals its specification: -1 at or past the end, otherwise the bytes up to the length or the end, stopping at a block that is not mapped |
| `FileSystems.FileSystem.InodeWrite` | src/fs/inode.c:281-341 | the loop equals its specification at any offset and on any volume; the blocks of all files stay apart when each zone handed to an empty index slot reads as zeros; when it completes is `FileSpace.WriteServed` |
| `FileSystems.FileSystem.InodeBfree` | src/fs/inode.c:343-363 | the recursive freeing as it is run, on any volume, stopping where its specification stops |
| `FileSystems.FileSystem.InodeTruncate` | src/fs/inode.c:366-392 | the truncation loop as it is run, on any volume, stopping where its specification stops |
| `BufferCaches.RunRefines` | src/kernel/buffer.c:36-219 | over any sequential run readers see a plain disk: `bread` returns what was last stored in the block, and once every buffer is released the real disk holds it too; there is at most one hashed buffer for a block, the free list is exactly the buffers nobody holds, and all of those are clean |
| `BufferCaches.StepRefines` | src/kernel/buffer.c:36-219 | each operation keeps the invariant and what readers see |
| `BufferCaches.VictimReleasedLongestAgo` | src/kernel/buffer.c:109-132 | a read that must reuse a buffer takes, of all that nobody holds, the one released longest ago |
| `BufferCaches.HeldStays` | src/kernel/buffer.c:135-153 | while a buffer is held it stays the buffer of its block, counts its holders, and only a store to that block changes its data |
| `BufferCaches.BReadInv` | src/kernel/buffer.c:156-177 | `bread` gives a held, valid buffer of the block asked for with the last data stored |
| `BufferCaches.GetBlkInv` | src/kernel/buffer.c:135-153 | `getblk` gives a held buffer of the block asked for, and readers see no difference |
| `BufferCaches.AssignExact` | src/kernel/buffer.c:109-153 | a task that had to wait for a buffer does not look for its block again: whatever state it wakes up in, the cache stays right if and only if no buffer holds the block by then, and otherwise the block is hashed twice |
| `BufferCaches.GetFreeBufferInv` | src/kernel/buffer.c:109-132 | `get_free_buffer` takes one clean unheld buffer off both lists and hides no data from readers |
| `BufferCaches.BWriteInv` | src/kernel/buffer.c:180-188 | `bwrite` makes the disk agree with the buffer |
| `BufferCaches.BRelseInv` | src/kernel/buffer.c:191-219 | `brelse` keeps the free list exact and what readers see |
| `BufferCaches.ModifyInv` | src/kernel/buffer.c:180-219 | a store into a held buffer changes what readers of its block see, and of no other |
| `BufferCaches.StepByRelease` | src/kernel/buffer.c:36-64 | every operation keeps the free list in order of release |
| `BufferCaches.AllReleased` | src/kernel/buffer.c:191-219 | with no holders the disk holds everything |
| `BufferCaches.HashedTwice` | src/kernel/buffer.c:109-153 | a run of two buffers and three blocks in which that happens: a task waits for a block, another takes a buffer for the same block meanwhile, and the first hashes it a second time |
| `BufferPools.BufferPool.Search` | src/lib/list.c:70-80 | finds a buffer in the free list if and only if it is there |
| `BufferPools.BufferPool.GetFromHashTable` | src/kernel/buffer.c:36-64 | the chain loop and the removal from the free list |
| `BufferPools.BufferPool.GetNewBuffer` | src/kernel/buffer.c:85-106 | a never used buffer while there is room, which is a number of buffers here |
| `BufferPools.BufferPool.TakeFreeBuffer` | src/kernel/buffer.c:109-132 | one round of the loop; None where the task would sleep on the wait list |
| `BufferPools.BufferPool.GetBlock` | src/kernel/buffer.c:135-153 | `getblk`, with its two assertions proved |
| `BufferPools.BufferPool.ReadBlock` | src/kernel/buffer.c:156-177 | `bread`, with the lock and the device request as one read of the disk |
| `BufferPools.BufferPool.WriteBlock` | src/kernel/buffer.c:180-188 | `bwrite` |
| `BufferPools.BufferPool.Release` | src/kernel/buffer.c:191-219 | `brelse`, with its assertion proved, up to where it wakes a task that waits |
| `CacheHolds.Left` | src/kernel/buffer.c:156-219 | a block read, and later released by a holder that kept all other holders, leaves every holder and the number of buffers to be had as they were |
| `CacheHolds.ReadFrame` | src/kernel/buffer.c:36-177 | `bread` gives its block one more holder, or a first one, and leaves all other buffers that are held as they were |
| `CacheHolds.ReadsIff` | src/kernel/buffer.c:135-177 | `bread` goes on without waiting if and only if the block is in some buffer, or a buffer is unused or held by nobody |
| `CachedFiles.DiskPlain` | src/fs/inode.c:226-392 | the whole way down: any run of calls on any number of files, every block going through `bread` and `brelse` on a cache with two buffers to be had, gives the replies of plain byte sequences, and afterwards the blocks on the disk itself stand for exactly those; the task never waits for a buffer; it stops if and only if at some call the free zones are too few, the file would be too large or a zone is too high for `bfree` |
| `CachedFiles.DiskSame` | src/fs/inode.c:226-392 | without any condition on the volume, what a run of calls does to the disk through the cache, and where it stops, is what it does to the volume on the disk |
| `CachedFiles.RunSame` | src/fs/inode.c:226-392 | the same while other blocks are held, in what readers see; all buffers that were taken are released again, and no block of another device changes |
| `CachedFiles.MapSame` | src/fs/bmap.c:134-204 | `bmap` through the cache, with each index block read, held while its entry is filled, and released, is `bmap` on the volume |
| `CachedFiles.PutSame` | src/fs/inode.c:281-341 | `inode_write` through the cache is `inode_write` on the volume |
| `CachedFiles.GetSame` | src/fs/inode.c:226-278 | `inode_read` through the cache gives the same bytes and changes nothing that is seen |
| `CachedFiles.TreeSame` | src/fs/inode.c:343-363 | `inode_bfree` holds the index blocks on its way, at most two, and frees what it frees on the volume |
| `CachedFiles.MountReady` | src/kernel/buffer.c:221-235 | so it is from the cache as `buffer_init` leaves it, on any disk |
| `Elevators.AtMostOneReversal` | src/kernel/device.c:134-214 | from arrival to service a request sees at most one reversal of direction, whatever else arrives, and none if the elevator moves towards it |
| `Elevators.StepInv` | src/kernel/device.c:134-214 | the list stays sorted by sector; while it is not empty exactly one request is being served and all others are blocked |
| `Elevators.FinishInv` | src/kernel/device.c:201-213 | finishing wakes another request if and only if one remains, and only that one |
| `Elevators.ArriveInv` | src/kernel/device.c:166-199 | an arriving request goes to its sorted place and waits if and only if the list was not empty |
| `Elevators.NeverServed` | src/kernel/device.c:134-163 | the number of requests served ahead of one is unbounded: an endless stream for one sector keeps another waiting forever |
| `Elevators.WhoIsServedFirst` | src/kernel/device.c:134-163 | of two waiting requests the lower placed is served first if and only if the current one is below both or between them on the way down, so for one sector a later request can overtake an earlier one |
| `Elevators.PlacedAfterSame` | src/lib/list.c:114-134 | a new request is placed after all requests for the same sector |
| `LinkedLists.List.InsertBefore` | src/lib/list.c:14-21 | the pointers again form a doubly linked chain with the node in front of the anchor |
| `LinkedLists.List.InsertAfter` | src/lib/list.c:24-31 | the same behind the anchor |
| `LinkedLists.List.PopBack` | src/lib/list.c:59-67 | takes the last node |
| `LinkedLists.List.Search` | src/lib/list.c:70-80 | true if and only if the node is in the list |
| `LinkedLists.List.Remove` | src/lib/list.c:83-92 | the chain without the node, whose own pointers are null |
| `LinkedLists.List.InsertSort` | src/lib/list.c:114-134 | in front of the first node with a greater key |
| `Devices.BlockDevice.Submit` | src/kernel/device.c:166-199 | `device_request` up to where the task blocks or goes on |
| `Devices.BlockDevice.NextRequest` | src/kernel/device.c:134-163 | the choice by pointers to the sentinels |
| `Devices.BlockDevice.Complete` | src/kernel/device.c:201-213 | the second half of `device_request` |
| `Heaps.RunDisjoint` | src/kernel/arena.c:42-139 | over any run of `kmalloc`, `kfree` and other users of kernel pages no two live regions overlap |
| `Heaps.MallocInv` | src/kernel/arena.c:42-105 | `kmalloc` gives an address that was not live; there is room for the size asked for if and only if adding the header does not wrap around 32 bits; when it gives one is `HeapSpace.SmallServed` and `LargeServed` |
| `Heaps.FreeInv` | src/kernel/arena.c:107-139 | `kfree` of a live address fails no assertion, ends its life, and gives its page back only when no other block of the page is live; when it does is `HeapSpace.FreeReturns` |
| `Heaps.LiveDisjoint` | src/kernel/arena.c:29-35 | the regions behind two live addresses do not overlap |
| `Heaps.MaskFindsHeader` | src/kernel/arena.c:37-40 | masking an address recovers the page of its arena header |
| `Heaps.RoomInside` | src/kernel/arena.c:29-35 | the room behind an address stays inside its run of pages and clear of the header |
| `Heaps.StepInv` | src/kernel/arena.c:42-139 | each small page counts its blocks on the free list of its class, the free list holds exactly the blocks that are not live, and each class counts its pages |
| `Heaps.GrowInv` | src/kernel/arena.c:71-90 | a fresh page adds all its blocks, each once |
| `Heaps.PopInv` | src/kernel/arena.c:92-104 | the block taken was not live and its page belongs to the class |
| `Heaps.LastBlockFreed` | src/kernel/arena.c:126-138 | when the count of a page is full, all its blocks are on the free list and none is live |
| `Heaps.AllocOwned` | src/kernel/memory.c:370-376 | pages from the bitmap overlap no page of the heap |
| `Heaps.FreeOwned` | src/kernel/memory.c:379-385 | the assertions about the bitmap hold when the heap gives pages back |
| `Heaps.ClassFrom` | src/kernel/arena.c:61-68 | the first class whose blocks are large enough |
| `Heaps.Total` | src/kernel/arena.c:21 | as many blocks as fit behind the header and no more |
| `Heaps.HugeGetsOnePage` | src/kernel/arena.c:42-60 | on every heap with a free page a request that wraps around is given one page |
| `Heaps.HugeAfterBoot` | src/kernel/arena.c:42-60 | so it is right after boot |
| `HeapSpace.SmallServed` | src/kernel/arena.c:61-104 | a request of at most 1024 bytes completes if and only if the first class whose blocks are large enough has a block that is not live or a kernel page is free; it takes a page, the lowest free one, only if the class has no such block |
| `HeapSpace.LargeServed` | src/kernel/arena.c:49-59 | a larger one completes if and only if there is a run of free pages for it and its header, and takes the lowest; within a page of 4 GiB, where the count of pages wraps to zero or to one, it is refused or given a single page |
| `HeapSpace.FreeReturns` | src/kernel/arena.c:107-139 | `kfree` gives the page of a small block back if and only if no other block of it is live and its class has more than four pages, and always gives back all pages of a large one; the bits it clears are exactly those of the pages |
| `HeapSpace.CountedUp` | src/kernel/arena.c:126-131 | the count of a page comes up to all its blocks if and only if its last live block is freed |
| `KernelHeaps.KernelHeap.AllocKernelPages` | src/kernel/memory.c:370-376 | the lowest run of free pages, the bits as booleans (the scan itself is `Bitmaps.Bitmap.Scan`) |
| `KernelHeaps.KernelHeap.FreeKernelPages` | src/kernel/memory.c:356-385 | the loop that tests and clears the bits |
| `KernelHeaps.KernelHeap.FindClass` | src/kernel/arena.c:61-68 | the class loop |
| `KernelHeaps.KernelHeap.GrowClass` | src/kernel/arena.c:71-90 | the loop that pushes the blocks of a new page, with its assertions proved |
| `KernelHeaps.KernelHeap.Allocate` | src/kernel/arena.c:42-105 | `kmalloc` as it is run; when it completes is `HeapSpace.SmallServed` and `LargeServed` |
| `KernelHeaps.KernelHeap.Release` | src/kernel/arena.c:107-139 | `kfree` as it is run, with its assertions proved |
| `Tasks.RunTree` | src/kernel/task.c:392-595 | over any run the parent links form a tree, and each exit is collected at most once and with its own status: the dead tasks are exactly those not yet collected |
| `Tasks.StepInv` | src/kernel/task.c:392-595 | each operation keeps: parents present and alive, exactly one task running, and a waiting task has a live matching child and no dead one, so no wake-up is lost |
| `Tasks.ParentsReachIdle` | src/kernel/task.c:533-540 | from parent to parent every task reaches task 0, and no task is its own ancestor |
| `Tasks.ForkTree` | src/kernel/task.c:392-414 | the child takes a free slot, is ready, has the caller as parent, and no other task changes |
| `Tasks.ExitTree` | src/kernel/task.c:494-548 | exit neither panics nor meets a null parent, and keeps the tree |
| `Tasks.ExitAt` | src/kernel/task.c:532-545 | what exit does to every task: children go to the grandparent, a parent that waits for this task is woken, the task is dead with its status, all others are as before |
| `Tasks.WaitPidTree` | src/kernel/task.c:550-595 | `waitpid` takes a dead matching child with its status, blocks when there is only a live one, and returns -1 exactly when there is none |
| `Tasks.StepAccounts` | src/kernel/task.c:550-595 | a collection returns the status of a pending exit and ends it |
| `Tasks.ReparentAt` | src/kernel/task.c:533-540 | the loop gives away exactly the children in slots from 2 on |
| `Tasks.LookFinds` | src/kernel/task.c:558-576 | what the scan for children tells |
| `Tasks.BootInv` | src/kernel/task.c:610-620 | the three boot tasks satisfy the invariant |
| `Tasks.FreeSlot` | src/kernel/task.c:36-50 | the lowest free slot |
| `Tasks.ForkServed` | src/kernel/task.c:36-47 | a fork finds a slot if and only if one is empty, takes the lowest, and puts a ready copy of the caller there |
| `Tasks.WaitPidExact` | src/kernel/task.c:550-595 | `waitpid` collects if and only if a matching child is dead, the one in the lowest slot, returns -1 if and only if no child matches, and blocks otherwise |
| `TaskTables.TaskTable.GetFreeTask` | src/kernel/task.c:36-50 | the slot loop |
| `TaskTables.TaskTable.ForkTask` | src/kernel/task.c:392-414 | fork on the table |
| `TaskTables.TaskTable.ExitTask` | src/kernel/task.c:494-548 | exit on the table with its re-parenting loop |
| `TaskTables.TaskTable.WaitRound` | src/kernel/task.c:550-595 | one round of `task_waitpid` |
| `Descriptors.RunCounts` | src/fs/file.c:14-250 | over any run of open, close, dup, dup2, pipe, fork and exit each file table entry counts the descriptors of all tasks that point to it |
| `Descriptors.StepInv` | src/fs/file.c:14-250 | each operation keeps the counts of entries and of inodes |
| `Descriptors.PipeLives` | src/fs/inode.c:67-82 | a pipe's inode has a descriptor pointing to one of its ends, and no descriptor points to an inode given back; its ring and its page are not followed |
| `Descriptors.OpenInv` | src/fs/file.c:53-76 | an open takes the lowest free descriptor from 3 on and an entry that no descriptor shares; it fails if and only if there is no such descriptor or no such entry |
| `Descriptors.Dup2Exact` | src/fs/file.c:246-250 | `dup2` gives exactly the target if and only if the source is open and differs from the target; on itself it closes the descriptor and fails |
| `Descriptors.DupFdInv` | src/fs/file.c:221-239 | a duplicate is the lowest free descriptor from the given one on and shares the entry of its source; EOF if and only if the source is not open or none is free |
| `Descriptors.PipeInv` | src/fs/pipe.c:60-82 | the two lowest free descriptors from 3 on, the first for reading and the second for writing, on two new entries of one inode counted twice |
| `Descriptors.CloseInv` | src/fs/file.c:83-94 | closing a descriptor of the task never fails and removes exactly it |
| `Descriptors.ForkFilesInv` | src/kernel/task.c:433-439 | the child has the parent's descriptors on the same entries |
| `Descriptors.ExitFilesInv` | src/kernel/task.c:520-527 | exit closes every descriptor of the task and no other |
| `Descriptors.BootInv` | src/kernel/task.c:288-293 | the three boot tasks share the first three entries, each counted three times, once `dev_init` has set the inode of all three to the terminal |
| `Descriptors.FreeFd` | src/kernel/task.c:79-92 | the lowest free descriptor |
| `Descriptors.FreeFile` | src/fs/file.c:14-26 | the lowest free entry: all before it are in use |
| `Descriptors.UseStays` | src/fs/inode.c:47-82 | whatever is done, an inode that some descriptor points to afterwards is still the pipe or the file it was, and a pipe is there afterwards if and only if a descriptor still points to one of its ends |
| `Descriptors.PipeServed` | src/fs/pipe.c:60-81 | `sys_pipe` completes if and only if an inode, two descriptors and two file table entries are free |
| `FileTables.FileTable.GetFile` | src/fs/file.c:14-26 | the entry loop |
| `FileTables.FileTable.GetFd` | src/kernel/task.c:79-92 | the descriptor loop |
| `FileTables.FileTable.CloseFd` | src/fs/file.c:83-94 | `sys_close` as it is run |
| `FileTables.FileTable.OpenFile` | src/fs/file.c:53-76 | `sys_open` as it is run |
| `FileTables.FileTable.Duplicate` | src/fs/file.c:221-239 | `dupfd` as it is run |
| `FileTables.FileTable.DuplicateTo` | src/fs/file.c:246-250 | `sys_dup2` as it is run |
| `FileTables.FileTable.MakePipe` | src/fs/pipe.c:60-82 | `sys_pipe` as it is run |
| `FileTables.FileTable.ForkDescriptors` | src/kernel/task.c:433-439 | the fork loop as it is run |
| `FileTables.FileTable.ExitDescriptors` | src/kernel/task.c:520-527 | the exit loop as it is run |
| `Fifos.Fifo.Get` | src/lib/fifo.c:28-34 | takes the oldest byte |
| `Fifos.Fifo.Put` | src/lib/fifo.c:36-44 | adds the byte; a full ring first loses its oldest |
| `Pipes.RunConserves` | src/fs/pipe.c:16-58 | over any interleaving of one reader and one writer, bytes read, bytes in the ring and bytes the writer still has are together the bytes written, in order; how many of them a read returns is `ReadReturns` |
| `Pipes.StepInv` | src/fs/pipe.c:16-58 | no assertion fails; a sleeping reader implies an empty ring and a sleeping writer a full one, a woken reader finds a byte and a woken writer room, so nothing is dropped |
| `Pipes.NeverBothAsleep` | src/fs/pipe.c:16-58 | the two ends never sleep together |
| `Pipes.RunReads` | src/fs/pipe.c:16-36 | over any interleaving the number of bytes read and the number still wanted are together the number asked for |
| `Pipes.ReadReturns` | src/fs/pipe.c:16-36 | whatever the writer does meanwhile, a read that is over has returned exactly as many bytes as it asked for, and they are the next ones of the ring, of what the writer was about to put, and of what was written meanwhile |
| `Pipes.WritePuts` | src/fs/pipe.c:38-58 | a write that is over has put exactly its bytes, in order |
| `Pipes.SettledMeans` | src/fs/pipe.c:16-58 | when neither end can go on, a read is unfinished only if every byte written was read, and a write only if the ring is full and nobody reads |
| `Pipes.StepWorks` | src/fs/pipe.c:16-58 | the two ends come to that after finitely many steps, in any order |
| `Mutexes.RunInv` | src/kernel/mutex.c:15-106 | for any number of tasks and any interleaving at most one is inside; `repeat` equals the holder's nesting depth counted on the calls alone, and only the holder has such calls; the only assertion that can fail is that of a release without them; while the mutex is free and tasks wait, one is awake that will look at it |
| `Mutexes.StepInv` | src/kernel/mutex.c:15-106 | each step keeps that, and an assertion fails if and only if a task releases a lock it does not hold |
| `Mutexes.StepInside` | src/kernel/mutex.c:15-106 | a task comes in only when nobody is inside and leaves only by unlocking |
| `Mutexes.FreeLockIsTaken` | src/kernel/mutex.c:15-37 | a free lock that is wanted is taken by a task that is awake, as soon as that runs |
| `Mutexes.CanStarve` | src/kernel/mutex.c:50-60 | with a third task for the scheduler to pick at the yield, a waiting task can be woken and overtaken any number of times; here the pick among ready tasks is free, with that of `task_search` it is `Scheduling.Starves` |
| `Mutexes.StepDepth` | src/kernel/mutex.c:74-106 | each step changes `repeat` as it changes the depth counted on the calls |
| `Mutexes.PickedEnters` | src/kernel/mutex.c:50-60 | if the scheduler picks the task that `mutex_unlock` has woken, that is the next to do anything, and it enters |
| `Mutexes.TwoTasksPick` | src/kernel/mutex.c:50-60 | between two tasks the scheduler has no other choice |
| `Mutexes.WokenEntersIff` | src/kernel/mutex.c:20-30 | after any run since its waking in which a task has not looked yet, looking is the only thing it can do, and it enters if and only if all who entered since have left again |
| `Mutexes.NobodyEntered` | src/kernel/mutex.c:20-30 | so it does when nobody entered since |
| `Scheduling.Starves` | src/kernel/mutex.c:50-60 | with the picks `task_search` makes from ticks and jiffies, and the clock taking ticks: a task that waits for the mutex with fewer ticks left than the priority of the one that has it and than the ticks of a third is woken, passed over, and waits again, any number of times and however much time goes by |
| `Scheduling.StarvesOnce` | src/kernel/task.c:101-127 | one round of that, in as many clock ticks as the holder's priority |
| `Scheduling.ComesAbout` | src/kernel/task.c:101-246 | so it can start with nobody at the mutex |
| `Scheduling.GoesRuns` | src/kernel/task.c:220-246 | every run under `schedule` is a run of the mutex in which some ready task is picked, so what is proved of those holds |
| `Scheduling.PickedIff` | src/kernel/task.c:101-127 | `task_search` picks a task if and only if it has more ticks than the one found before it, or ran less recently, and no later one has more ticks than it or ran less recently |
| `Scheduling.TaskSearch` | src/kernel/task.c:101-127 | the loop over the table |
| `Consoles.WriteAllInv` | src/kernel/console.c:628-667 | for every byte stream the window and the row below it stay inside video memory and the cursor's address is where its column and row say, with x up to the width and y below the height |
| `Consoles.DoInv` | src/kernel/console.c:123-253 | every action keeps that |
| `Consoles.ParseOk` | src/kernel/console.c:258-346 | the parser leaves the cursor alone and its arguments in range |
| `ConsoleGrids.WindowIsGrid` | src/kernel/console.c:163-253 | whatever is written, the window shows the plain 80 by 25 grid that the standard's actions lead to: sliding and copying back cannot be seen; of a deletion of lines it asks that each comes out right, for which `DeleteLineExact` has the exact condition; what each byte and sequence does to that grid is `ConsoleControls` and `ConsoleSequences`, and text `ConsoleText.LinesSeen` |
| `ConsoleGrids.PlainText` | src/kernel/console.c:241-253 | plain text of any length on a cleared screen shows its last 25 rows of 80, each character once and in its place |
| `ConsoleGrids.ScrollShown` | src/kernel/console.c:163-178 | scrolling drops the top row and adds a blank one, whether the window slides or is copied back first |
| `ConsoleGrids.DoShown` | src/kernel/console.c:123-509 | each action does to the window what it does to the grid, a deletion of lines when each comes out right |
| `ConsoleGrids.InsertLineShown` | src/kernel/console.c:401-413 | inserting a line moves the rows from the cursor on down by one |
| `ConsoleGrids.DeleteCharShown` | src/kernel/console.c:459-469 | deleting a character moves the rest of its row left |
| `ConsoleGrids.InsertCharShown` | src/kernel/console.c:486-495 | inserting a character moves the rest of its row right and keeps the style of the cell |
| `ConsoleGrids.StuckForever` | src/kernel/console.c:329-346 | a parser whose argument count is at its end ignores all input for ever |
| `ConsoleGrids.DeleteLineShown` | src/kernel/console.c:430-442 | deleting a line lets every second row below the cursor's take the next one, the last row of the screen possibly from below the window, and leaves the cursor's own row and all others, because the row size is scaled twice |
| `ConsoleGrids.DeleteLineExact` | src/kernel/console.c:430-442 | that deletes the line as DL (section 8.3.32 of ECMA-48) asks if and only if every row left in place was equal to the next and the row that ends up last was blank |
| `ConsoleGrids.EscapeSwallows` | src/kernel/console.c:297-326 | after an escape character any number of bytes other than the five it knows leave the console exactly as it was |
| `ConsoleGrids.TextLucky` | src/kernel/console.c:628-667 | streams without an escape character ask for no deletion |
| `ConsoleGrids.TextSeen` | src/kernel/console.c:163-253 | plain text of any length written to a cleared console: video memory shows its last 25 rows of 80, each character once and in its place, however often the window slid or was copied back |
| `ConsoleGrids.DeleteLineMissed` | src/kernel/console.c:430-442 | on any cleared console a letter in the top row is still there after the deletion of that row |
| `ConsoleSequences.CsiActs` | src/kernel/console.c:329-346 | a control sequence written with up to sixteen decimal arguments acts with exactly those arguments, whatever its final byte and whatever the parser held before; with more it never ends (`ArgumentsEnd`) |
| `ConsoleSequences.CursorPosition` | src/kernel/console.c:583-589 | CUP (section 8.3.21 of ECMA-48) moves to the given line and column counted from one, or nowhere if there is no such place |
| `ConsoleSequences.CursorMoves` | src/kernel/console.c:543-582 | for every argument the eight cursor functions move to the place counted modulo 2^32, or not at all if that is not on the screen |
| `ConsoleSequences.Erases` | src/kernel/console.c:349-398 | ED and EL (sections 8.3.39 and 8.3.41 of ECMA-48) erase exactly the part after, before or all; before excludes the cursor's own place |
| `ConsoleSequences.ReadsDecimal` | src/kernel/console.c:338-342 | decimal digits are read as the number they stand for, for every 32-bit number |
| `ConsoleSequences.SequenceEnds` | src/kernel/console.c:329-346 | whatever its parameters and final byte, a control sequence brings the console back to plain input if and only if it has fewer than sixteen semicolons; with more, everything written afterwards is ignored |
| `ConsoleSequences.ArgumentsEnd` | src/kernel/console.c:329-346 | for any list of arguments the sequence ends if and only if there are at most sixteen |
| `ConsoleSequences.ParseNext` | src/kernel/console.c:628-667 | what the parser remembers after a byte depends only on what it remembered before |
| `ConsoleSequences.CursorMovesExact` | src/kernel/console.c:543-582 | they move as ECMA-48 asks, or not at all if that would leave the screen, if and only if the argument is not so close to 2^32 that the count wraps around onto the screen |
| `ConsoleSequences.UpMovesDown` | src/kernel/console.c:543-582 | `ESC [ 4294967295 A` moves the cursor down by one |
| `ConsoleSequences.ErasesExact` | src/kernel/console.c:349-398 | the screen afterwards is the one the standard asks for if and only if the part before the cursor was not asked for, or the cursor's own place was blank already or the cursor stands behind its row |
| `ConsoleSequences.ErasureMissed` | src/kernel/console.c:349-398 | on a cleared screen a letter under the cursor survives `ESC [ 1 J` and `ESC [ 1 K` |
| `ConsoleSequences.EscapeStays` | src/kernel/console.c:297-326 | after an escape character, through any stream, the console is still in the escape sequence if and only if no `[` has come |
| `ConsoleSequences.SavedThenLost` | src/kernel/console.c:297-326 | after `ESC 7` plain text is lost: it leaves the screen as it was |
| `ConsoleControls.LineControls` | src/kernel/console.c:273-283 | in plain input LF moves the cursor to column 0 of the next row, VT and FF to the same column of it, with the screen scrolled by one from the last row, and CR to column 0 of its own |
| `ConsoleControls.CellControls` | src/kernel/console.c:267-288 | BS moves the cursor back within its row and erases the cell there, DEL erases the cell under the cursor, and no other cell changes |
| `ConsoleControls.TabControl` | src/kernel/console.c:204-224 | HT moves to the next column divisible by eight, and from the last of them down to the next row |
| `ConsoleControls.QuietControls` | src/kernel/console.c:262-291 | NUL and BEL change nothing, and ESC begins a sequence |
| `ConsoleControls.PutByte` | src/kernel/console.c:241-253 | every other byte is put at the cursor in the current style, from a full row into the first cell of the next, scrolling if it must; the control bytes are no others than those |
| `ConsoleControls.EscapeControls` | src/kernel/console.c:297-326 | `ESC E` and `ESC D` move as LF and VT do, `ESC 7` keeps the cursor's place and `ESC 8` returns to it; none of them ends the sequence (`EscapeStays`) |
| `ConsoleControls.LinesEdited` | src/kernel/console.c:401-457 | IL and DL (sections 8.3.67 and 8.3.32 of ECMA-48) open and close as many rows as asked at the cursor's row, one for 0 and never more than 25, cell by cell |
| `ConsoleControls.CharsEdited` | src/kernel/console.c:459-509 | DCH and ICH (sections 8.3.26 and 8.3.64 of ECMA-48) delete and insert as many characters as asked in the cursor's row, one for 0 and never more than 25, and change no other row |
| `ConsoleControls.CharsExact` | src/kernel/console.c:459-509 | with up to 25 characters they do what the standard asks for, and with more if and only if every cell kept in place of a deleted one, or moved 25 on instead of further, held what should have come there anyway |
| `ConsoleControls.LetterLeft` | src/kernel/console.c:459-483 | on a row of one letter `ESC [ 80 P` leaves the letter at the cursor |
| `ConsoleControls.CharsBehind` | src/kernel/console.c:459-509 | with the cursor behind a full row they change the first cell of the next row and nothing else |
| `ConsoleControls.PlaceKept` | src/kernel/console.c:617-620 | `ESC [ s` keeps the cursor's place and `ESC [ u` returns to it |
| `ConsoleControls.SameFunction` | src/kernel/console.c:543-589 | HPA, VPR, HPR and HVP do for all arguments what CHA, CUD, CUF and CUP do |
| `ConsoleControls.UnknownFinal` | src/kernel/console.c:537-625 | a sequence with any final byte but the 21 it knows leaves the screen, the cursor and the style as they were |
| `ConsoleControls.StyleSet` | src/kernel/console.c:511-535 | SGR (section 8.3.117 of ECMA-48) sets colours, brightness and blinking as its arguments say one after the other, from black on black on, for the text and for what is erased after it |
| `ConsoleControls.StyleExact` | src/kernel/console.c:511-535 | the style is the one the standard asks for, which starts from the style there was, if and only if the arguments set or reset every part of that which is not zero |
| `ConsoleControls.ReverseHides` | src/kernel/console.c:511-535 | `ESC [ 7 m` makes text invisible instead of reversed |
| `ConsoleText.LinesSeen` | src/kernel/console.c:163-291 | text with new lines written to a cleared console: video memory shows the last 25 rows of its lines, each wrapped at 80, with the cursor behind the last byte, however often the window slid or was copied back |
| `ConsoleText.LinesShown` | src/kernel/console.c:163-291 | the same on the plain grid |
| `ConsoleText.RowsLonger` | src/kernel/console.c:241-283 | one more byte makes the last row longer or begins a new one, so the rows of a text do not depend on how it is cut into writes |
| `VideoConsoles.VideoConsole.EraseCells` | src/kernel/console.c:141-148 | the erasing loop |
| `VideoConsoles.VideoConsole.CopyCells` | src/lib/string.c:123-131 | the copying loop |
| `VideoConsoles.VideoConsole.SlideWindow` | src/kernel/console.c:163-178 | `scroll_up` as it is run |
| `VideoConsoles.VideoConsole.InsertLineNow` | src/kernel/console.c:401-413 | the row loop, last row first |
| `VideoConsoles.VideoConsole.DeleteLineNow` | src/kernel/console.c:430-442 | the row loop as it is |
| `VideoConsoles.VideoConsole.DeleteCharNow` | src/kernel/console.c:459-469 | the cell loop |
| `VideoConsoles.VideoConsole.InsertCharNow` | src/kernel/console.c:486-495 | the cell loop, last cell first |
| `VideoConsoles.VideoConsole.WriteBytes` | src/kernel/console.c:628-667 | the loop over the buffer, equal to the specification that `ConsoleControls` and `ConsoleText` are about |
| `ExecArgs.StartUpFinds` | src/kernel/execve.c:310-396 | for all arguments and environments that fit, start-up finds the count, the file name followed by the same arguments, and the same environment, in order and null terminated (section 2.3.1 of the i386 System V ABI supplement) |
| `ExecArgs.ReadArrayAt` | src/lib/crt1.c:13-26 | a null terminated pointer array and the strings it points to give the strings back |
| `ExecArgs.CopyArgvEnvp` | src/kernel/execve.c:310-396 | the two cursors and all copying loops build exactly that stack image, and the assertion about the buffer holds |
| `ExecArgs.CopyStrings` | src/kernel/execve.c:337-366 | the loops that copy the strings and note their user addresses |
| `ExecArgs.PutWords` | src/kernel/execve.c:375-381 | a pointer array below the cursor |
| `Paths.ChangeDirectory` | src/fs/namei.c:607-674 | for every directory and path that fit the buffer, `abspath` leaves the text of the directory that following the path's names on a stack leads to, beginning and ending with a slash |
| `Paths.StaysNormal` | src/fs/namei.c:607-674 | a directory free of `.`, `..` and empty names stays so when the path has no empty name |
| `Paths.FollowNames` | src/fs/namei.c:621-649 | the loop over the names that a separator follows |
| `Paths.FollowName` | src/fs/namei.c:629-648 | one round of the loop |
| `Paths.GoUp` | src/fs/namei.c:634-641 | the last name is cut off, but never above the root |
| `Paths.GoDown` | src/fs/namei.c:642-646 | one name is copied behind the directory |
| `Paths.GoLast` | src/fs/namei.c:658-665 | the last name is copied and closed by a slash |
| `Paths.StrSep` | src/lib/string.c:151-165 | the first separator |
| `Paths.StrRSep` | src/lib/string.c:168-183 | the last separator |
| `Paths.StaysNormalIff` | src/fs/namei.c:607-674 | for a path without `..`, a directory free of `.`, `..` and empty names stays so if and only if no two separators of the path stand side by side |
| `Paths.EmptyNameTakenBack` | src/fs/namei.c:634-641 | a `..` goes up from an empty name as from any other, so `b//..` leads to `b` |
| `Paths.WalkParts` | src/fs/namei.c:607-674 | following a path is following it up to any separator and from there the rest |
| `Paths.RenderLeads` | src/fs/namei.c:607-674 | the text that `abspath` leaves for a directory, given back as a path, leads to that directory from anywhere |
| `Numbers.AtoiReadsNumber` | src/lib/stdlib.c:35-51 | `atoi` of plain signed decimal output returns every 32-bit value, except the least, on which it overflows |
| `Numbers.PlacesValue` | src/lib/vsprintf.c:84-93 | the digits are those of positional notation, without leading zeros |
| `Numbers.PlacesFit` | src/lib/vsprintf.c:38 | in every base the digits fit `tmp` |
| `Numbers.NumberLength` | src/lib/vsprintf.c:95-148 | the output is as long as the larger of the width and of sign, prefix and the larger of precision and digits |
| `Numbers.PrintNumber` | src/lib/vsprintf.c:36-149 | all loops of `number` together print sign, prefix, padding, zeros and digits in the specified order, or refuse the base |
| `Numbers.FillTmp` | src/lib/vsprintf.c:81-93 | the digit loop, least significant first, never past the end of `tmp` |
| `Numbers.ReadNumber` | src/lib/stdlib.c:35-51 | `atoi` as it is run |
| `NumberText.NumberReads` | src/lib/vsprintf.c:36-149 | for every number, base, width, precision and combination of flags the output read back says the number: its sign or the plus asked for, its hexadecimal prefix in the right case, and its value |
| `NumberText.NumberIs` | src/lib/vsprintf.c:95-148 | spaces stand in front only, unless the number is put to the left, and zeros only between the sign or prefix and the digits |
| `NumberText.DigitIs` | src/lib/vsprintf.c:39-46 | digit ten and up are the letters of the alphabet, small when asked for |

## Left out

- Hardware: boot, descriptor tables, port I/O, disk, serial, keyboard and clock drivers, TLB and cr3. The disk is a map from block to bytes, and logging does nothing.
- Kernel-mode writes to user pages: the processor does not check write protection in kernel mode, so paging is modelled for user-mode writes.
- The window through the last directory slot and the temporary mapping of page 0 in `copy_page`: tables and pages are reached directly by frame.
- The kernel page that `alloc_kpage` returns for a new page directory is a parameter of fork, any page no directory uses.
- `sys_mmap` of a file (the read into the mapping), `sys_execve` around its arguments, and `load_elf`.
- A `sys_mmap` or `sys_munmap` range that leaves the bitmap of the mapping zone is refused here; the kernel would touch memory behind the bitmap.
- The bitmap of the mapping zone is a sequence of booleans in `MemoryManager`; the byte-wise bitmap is proved separately in `Bitmaps`.
- Volumes with more than one zone-bitmap block, `ialloc` and `ifree`, superblocks, and the mode, owner and time fields of inodes.
- The class `FileSystem` works on blocks directly. In `CachedFiles` index and data blocks go through the buffer cache; the bitmap and the inodes lie in buffers held while the volume is mounted, and are values there.
- Zone numbers behind the end of the volume: such a block reads as zeros and is not written.
- PagingRefinement.RunRefines: excludes a `sys_mmap` at a chosen address over a page that copy-on-write shares privately, since it does not hold after one (`MmapExact`).
- MmapExact: is about a call for one page; for longer ranges the condition is `MapPageExact` for each page.
- WriteSplices: takes offsets up to the size; what a write at any offset does is `WriteBytes`, and when one past the end leaves no hole is `WritePastEnd`.
- WriteExact: is about the volume after each round of the write; that blocks are apart at the end alone does not tell, since a later round may write zeros over what went wrong.
- `new_inode` does not clear the zone numbers of the inode it takes; a new file here is an inode whose zone numbers are zero.
- Concurrent use of the buffer cache: `getblk` does not look again after waiting for a buffer, so runs are sequential and waiting is the outcome None; when a task that waited spoils the cache is `AssignExact`.
- How many buffers fit in the buffer memory is a parameter of the cache, in place of the two pointers that meet.
- The lock of a buffer, the device request of `bread`, and the list of tasks that wait for a buffer.
- The ring and the page of a pipe when its inode is given back.
- I/O inside `task_exit`: exit is one step. Signals, sessions, terminals and timers.
- `waitpid` after a wake-up is any later `waitpid` of the same task.
- Negative descriptor numbers, the offset and mode of open files, and what `sys_read` and `sys_write` do with the flags.
- `inode_open` and `iget` are one step that adds a reference to some inode; references other than descriptors come and go as `Grab` and `Drop`.
- The loops of `pipe_read` and `pipe_write` block in the middle, so they are steps of a machine on values (`Pipe`) over the ring proved in place (`Fifo`). Closing the other end, and more than one reader or writer.
- The kernel heap's blocks hold the list nodes themselves; here free lists hold the addresses, and the bytes of blocks are not modelled.
- `kfree` of an address that is not live.
- WindowIsGrid: asks that each deletion of a line comes out right, since otherwise the screen depends on the row below the window; what any deletion shows is `DeleteLineShown`.
- SequenceEnds: excludes the final byte `?`, which directly after the introducer marks a private sequence.
- The bell, the hardware cursor and the start address registers of the display.
- PrintNumber: takes width and precision as unbounded integers; `vsprintf` around it is not modelled.
- StartUpFinds: takes arguments whose image and pointer arrays fit their pages, which the code asserts for the image only after it was written.
- StaysNormal: states one direction, since a later `..` can take an empty name back; for paths without `..` both are `StaysNormalIff`, and the meaning of every path is `Paths.Walk`.
- In `Mutexes` the scheduler may pick any task that is not asleep at the mutex, other than the one that yields; the pick of `task_search` is in `Scheduling`, where `jiffies` does not wrap around and the table is filled without gaps.
- Mounting, making file systems, directory entries, permissions, the shell and the other programs.

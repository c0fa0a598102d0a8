# A verified model of the kernel's stateful parts

This project models four components of a small x86-64 kernel and proves what they keep over whole runs.

* **Memory** (`kernel/memory.c`). Frames of physical memory hold either a page table or a node of the free
  list; writing one destroys the other. `FreeList`, `Address`, `PageTable`, `VmMap` and `UnmapLowerHalf` give
  the allocator, the address slicing, the walk and the two tree operations as functions on values;
  `AddressSpace` and `PageMap` prove what runs of them mean, `MapEntries` which entries and fields a call writes;
  `KernelMemory` is the code in its own form, a class whose methods update memory and `FREELIST` in place, each
  proved equal to its function; `MemoryRuns` carries out whole runs on it; `Boot` shows that `freelist_init`
  establishes the invariant the runs start from; `HugePages` shows what the one precondition of `vm_map`
  protects from.
* **File system** (`kernel/fs.c`, `kernel/fd.c`). `Blocks` and `Disk` hold the 128-byte blocks, the chains and
  the free-list pointers written over free blocks; `FileModel` is the abstract file system of named byte
  sequences and descriptors, and `FileLaws` says when its operations succeed and what they leave, byte by byte;
  `FileSystem` and `FdTable` are the code in its own form, proved to refine it; `FileRuns` lifts this to
  sequences of calls.
* **Keyboard** (`kernel/interrupts.c`). `Keyboard` is a step system in which the interrupt handler may run
  between any two loads and stores of `kgetc`; `KeyboardDriver` holds the handler, `kgetc` and `SYS_read` as
  methods on shared variables that interrupts change between any two statements; `KeyboardOverruns` says what
  slots and reader hold once an unread character has been overwritten, and `KeyboardInput` which characters the
  handler accepts, from the scan codes seen.
* **Terminal and heap** (`kernel/terminal.c`, `stdlib/mem.c`). The screen as a window on an unbounded
  transcript, the ascending `memcpy` it scrolls with, and `malloc` over `SYS_mmap`. `TerminalLayout` says where
  text stands, control characters included.
* `Common` holds what several components share. `FailureExamples` reaches the failures of the allocator, the
  file system and the heap described below from the state that their initialisation leaves.

## Where the code departs from its comments or its purpose

The model follows the code. Each of these is stated exactly, as a lemma or a contract:

* `vm_map` assigns no frame to the leaf: whatever a run maps, the address field of every page stays what it was
  at the start, or cleared (`PageMap.RunAssignsNoFrame`), so that pages mapped from blank tables all translate
  to frame 0 (`PageMap.FreshSlotGivesRequestedRights`, `PageMap.MappedPagesShareFrameZero`).
* `vm_map` does not test `page_size`. What it promises holds for pages outside huge pages and for no page
  inside a 2 MB one: it takes the first frame of the page's data for a table and overwrites it
  (`HugePages.HugePageData`, `HugePages.HugePageIsOverwritten`; `HugePages.SuccessWithoutMapping` is a case).
  The condition is asked for at the time of each call, so after `unmap_lower_half` every page of the lower half
  may be mapped (`AddressSpace.LowerPagesAfterUnmap`).
* `vm_protect` edits a local copy and changes nothing (`KernelMemory.PhysicalMemory.VmProtect`).
* `pmem_alloc` reports failure as -1, not 0 (`FreeList.AllocTakesOne`).
* For memory-map entries that are not whole pages, `Boot.AllocFromAnyChunks` says exactly when the page handed
  out overlaps a node of the list, and exactly when it is aligned; `FailureExamples.PageOverNode` is a case.
* `fs_write_at` that runs out of blocks after taking one leaves a state that no layout makes well formed; it
  happens exactly when `0 < free < needed` (`FileSystem.FileSys.FsWriteAt`), as in
  `FailureExamples.WriteRunsOut`.
* `fs_write_at` counts blocks in ints: the count is right exactly for writes that end below 2^31 blocks
  (`FileSystem.BlockCountWraps`). The file-system calls are proved for buffers below that (`MAX_WRITE`).
* `fs_delete` follows an index that the free-list link has overwritten. `FileSystem.FileSys.FsDelete` says
  exactly when that leaves the 129 blocks, with a disk that no layout makes well formed, and what is freed and
  lost otherwise. A disk with one file shows every case (`FailureExamples.DeleteOnlyFile`).
* Deleting a file makes exactly its other descriptors stale (`FileModel.StaleAfterDelete`).
* `fs_rename` does not look whether the new name is taken: `FileModel.RenameKeepsNamesDistinct` says exactly
  when names stay distinct; `FailureExamples.RenameOntoTakenName` is a case where they do not.
* A key accepted between the load and the store of `iobuffer_count--` is lost from the count. FIFO order,
  intact slots and an exact count hold if and only if every such hit still waits for its store
  (`Keyboard.FifoUnderEveryInterleaving`); `Keyboard.CountFallsShortByHits` says by how much the count is wrong
  in the other runs, `KeyboardOverruns.SlotsInEveryRun` what slots and reader then hold.
  `Keyboard.LostIncrementExample` gives a run in which `kgetc` waits with a character unread, and
  `KeyboardOverruns.OverwriteExample` one in which it returns the wrong character. Where the decrement is a
  single instruction no hit is possible.
* `SYS_mmap` subtracts whole pages from an unsigned length: its loop ends exactly for a multiple of the page
  size (`Heap.MmapLoopEnds`).
* `SYS_mmap` computes `pages * PAGESIZE` in ints. Taking the overflow as wrapping to 32 bits, the next region
  starts at the end of this one if and only if this one is below 2 GiB and inside the address space
  (`Heap.NextStartIsEnd`), and the heap stays well formed if and only if every region asked for is
  (`Heap.Heap.Malloc`). Two requests of 4 GiB get the same block (`FailureExamples.SameBlockTwice`).

## Model

| member | source | states |
|---|---|---|
| FreeList.AllocTakesOne | kernel/memory.c:122-162 | fails exactly when no page is free; otherwise the page is aligned, was free, is free no longer, holds no listed node, and only free pages are written |
| FreeList.FreeAddsOne | kernel/memory.c:168-176 | freeing a page that is not free adds that page and keeps the list well formed |
| FreeList.FreeThenAlloc | kernel/memory.c:122-176 | a free followed by an allocation returns the same page, restores the list, and writes no other frame |
| FreeList.HeadersFrame | kernel/memory.c:61-70 | the list survives any change of memory outside the frames that hold its nodes |
| FreeList.NodesAreFreePages | kernel/memory.c:91-103 | every node lies in a page that is itself free |
| FreeList.FirstFit | kernel/memory.c:128-137 | the first chunk that holds a page |
| Boot.UsableIsFree | kernel/memory.c:91-103 | the chunks of the boot list are well formed and hold exactly the usable pages |
| Boot.UsableInOrder | kernel/memory.c:91-103 | one chunk for each entry of kind 1, and the position of each: last entry first |
| Boot.FreelistInitEstablishesInv | kernel/memory.c:72-103 | with the boot tables outside usable memory, the state after freelist_init satisfies the invariant of vm_map and unmap_lower_half |
| Boot.AllocFromAnyChunks | kernel/memory.c:122-162 | for chunks of any size: when allocation fails, when the page is aligned, and exactly when it overlaps a node left in the list |
| Boot.TreeFrame | kernel/memory.c:270-305 | the tables depend on the frames that hold them and nothing else |
| Address.IndicesAreDigits | kernel/memory.c:273-308 | the four shifted and masked indices are the base-512 digits of the page number |
| Address.IndicesIdentifyThePage | kernel/memory.c:273-308 | two addresses select the same four entries if and only if their 36-bit page numbers agree |
| Address.EveryQuadrupleHasAPage | kernel/memory.c:273-308 | every quadruple of indices is that of some page |
| Address.TopIndexBit | kernel/memory.c:390 | the level-4 index is below 256 exactly for addresses with bit 47 clear |
| PageTable.ReachGrown | kernel/memory.c:279-304 | linking a zeroed table adds one place to the tree and moves no other |
| PageTable.GrownTree | kernel/memory.c:279-304 | the tables stay a tree: each frame is reached along one path only |
| PageTable.GrownTables | kernel/memory.c:279-304 | the set of table frames grows by exactly the new one |
| PageTable.WalkGrown | kernel/memory.c:279-304 | linking a zeroed table changes the walk of no page |
| PageTable.LeafedTree | kernel/memory.c:317-321 | writing a leaf keeps the tree |
| PageTable.WalkLeafedElsewhere | kernel/memory.c:317-321 | a new leaf changes the walk of no other page |
| PageTable.WalkLeafedHere | kernel/memory.c:317-321 | the page was unmapped and now ends in that leaf, with the path's rights narrowed by it |
| VmMap.MapFromOutcome | kernel/memory.c:260-326 | every call, whatever its result, keeps tree, free list and disjointness, moves no table, changes no other walk, and a success ends the walk in the old level-1 entry with just the four requested bits changed |
| VmMap.MapFromRefuses | kernel/memory.c:311-316 | a page already mapped is refused with the whole state unchanged |
| VmMap.MapFromSucceeds | kernel/memory.c:270-316 | an unmapped page is mapped if and only if the missing tables do not outnumber the free pages; a failure has used them all up |
| UnmapLowerHalf.RootLists | kernel/memory.c:390-431 | the frames listed for release are the tables below the lower half, each once |
| UnmapLowerHalf.UnmapIsHalved | kernel/memory.c:386-431 | clearing and freeing leave every upper-half table untouched and add exactly the listed frames to the free pages |
| UnmapLowerHalf.UnmapOutcome | kernel/memory.c:386-435 | lower half unmapped, upper-half walks unchanged, exactly the lower-half tables freed, each once, frames conserved, invariant kept |
| UnmapLowerHalf.UnmapOnAddresses | kernel/memory.c:386-431 | on addresses: with bit 47 clear unmapped, with bit 47 set unchanged |
| AddressSpace.MapOnAddresses | kernel/memory.c:260-326 | vm_map on addresses: success if and only if unmapped and enough pages, the leaf and its effective rights, no other 36-bit page number affected, conservation, the failing cases |
| MapEntries.MapFromEntries | kernel/memory.c:270-321 | a call writes no entry but unused ones on its own walk; in these page_size and the unnamed bits stay, and in a leaf the address |
| MapEntries.LeafFields | kernel/memory.c:317-321 | the leaf after a success, field by field |
| HugePages.HugePageData | kernel/memory.c:275-326 | on a 2 MB page vm_map reports success exactly when a present bit in the data is clear, and overwrites that word, be it data or a table's entry |
| HugePages.HugePageIsOverwritten | kernel/memory.c:275-326 | if the data is neither a table nor free, the invariant and every walk stay as they were, so the page is never mapped |
| HugePages.SuccessWithoutMapping | kernel/memory.c:275-326 | a memory of four frames in which vm_map reports success and maps nothing |
| AddressSpace.ApplyKeeps | kernel/memory.c:260-431 | one operation keeps the invariant and the frames and makes no huge page |
| AddressSpace.RunKeeps | kernel/memory.c:260-431 | every run of vm_map and unmap_lower_half, huge pages excluded at each call, keeps tree, separation and the set of table and free frames |
| AddressSpace.NoHugeFromStart | kernel/memory.c:260-431 | a run that maps no page that was huge at its start meets no huge page later |
| AddressSpace.LowerPagesAfterUnmap | kernel/boot.c:122-147 | after unmap_lower_half every page of the lower half may be mapped, whatever huge pages were there, next to upper-half pages that are not huge |
| AddressSpace.LowerRunKeepsUpper | kernel/memory.c:260-326 | runs of lower-half mappings move no upper-half table and change no upper-half walk |
| AddressSpace.MapsThenUnmap | kernel/memory.c:260-431 | mappings followed by unmap_lower_half leave the same tables and free pages as unmap_lower_half alone |
| AddressSpace.FreePagesRestored | kernel/memory.c:260-431 | when the first 256 level-4 entries are unused, mapping any addresses with bit 47 clear and then unmapping restores exactly the free pages |
| PageMap.RunMade | kernel/memory.c:292-321 | every run keeps a level-4 slot, of either half, as vm_map makes it: links fully open, leaves without a frame |
| PageMap.MadeWalk | kernel/memory.c:292-321 | in such a slot the path takes no right away, so the leaf's bits are the effective rights |
| PageMap.MapFromFrame | kernel/memory.c:260-326 | vm_map changes the frame address of no page, its own included |
| PageMap.RunAssignsNoFrame | kernel/memory.c:260-431 | after any run each page has the frame address it had, or a cleared one |
| PageMap.RunIsPageMap | kernel/memory.c:260-431 | any page not mapped at the start is mapped after any run if and only if it is in the map of successful calls, with exactly the bits requested and the rights of its path |
| PageMap.FreshSlotGivesRequestedRights | kernel/memory.c:292-321 | when vm_map made every table on the path, in either half, the effective rights are exactly those requested, and the frame is 0 |
| PageMap.MappedPagesShareFrameZero | kernel/memory.c:317-321 | any two pages mapped by a run whose entries named no frame before translate to frame 0 |
| KernelMemory.PhysicalMemory.constructor | kernel/memory.c:70 | an empty list over any memory |
| KernelMemory.PhysicalMemory.Push | kernel/memory.c:97-101 | puts a node in front of the list and writes one frame |
| KernelMemory.PhysicalMemory.FreelistInit | kernel/memory.c:91-103 | the list is the usable entries, last one first; nothing else in memory is written |
| KernelMemory.PhysicalMemory.PmemAlloc | kernel/memory.c:122-162 | result and new state are those of Alloc |
| KernelMemory.PhysicalMemory.ChopPage | kernel/memory.c:139-158 | shrinks the chunk and unlinks an empty node |
| KernelMemory.PhysicalMemory.PmemFree | kernel/memory.c:168-176 | the new state is that of Free |
| KernelMemory.PhysicalMemory.LinkNewTable | kernel/memory.c:289-299 | clears the frame and writes the five fields one after another, leaving exactly the state of Grow |
| KernelMemory.PhysicalMemory.FillLeaf | kernel/memory.c:317-321 | sets the four leaf bits and keeps every other field |
| KernelMemory.PhysicalMemory.VmMap | kernel/memory.c:260-326 | result and new state are those of Map, of which the lemmas above speak |
| KernelMemory.PhysicalMemory.MapLeaf | kernel/memory.c:307-325 | the level-1 step of MapFrom |
| KernelMemory.PhysicalMemory.VmProtect | kernel/memory.c:337-371 | true if and only if the page is mapped; changes nothing |
| KernelMemory.PhysicalMemory.FreeLevel1Tables | kernel/memory.c:410-421 | the level-2 table is read only while intact; its level-1 tables are freed in order |
| KernelMemory.PhysicalMemory.FreeLevel2Tables | kernel/memory.c:401-426 | likewise for a level-3 table and all below it |
| KernelMemory.PhysicalMemory.FreeLevel2Entry | kernel/memory.c:406-425 | one entry of it, read again after the frees beneath it |
| KernelMemory.PhysicalMemory.UnmapLowerHalf | kernel/memory.c:386-431 | the new state is that of Unmap, although its entries are read, before and after the frees beneath them, from memory that pmem_free keeps overwriting |
| KernelMemory.TableSurvives | kernel/memory.c:389-431 | a table still to be read has not been overwritten by the frames freed before it |
| MemoryRuns.Do | kernel/memory.c:260-431 | one call on the memory in place is the step of the run |
| MemoryRuns.Execute | kernel/memory.c:260-431 | every run of vm_map and unmap_lower_half can be carried out in place, ends as Run says, keeps the invariant and loses no frame |
| Blocks.NextRoundTrip | kernel/fs.c:21-23 | the 8-byte link laid over index and data reads back as written |
| Blocks.SlotArithmetic | kernel/fs.c:52 | block numbers and block addresses convert into one another |
| Blocks.LinkedIndexIsWild | kernel/fs.c:173-179 | after a link to another block is written, the index field is no block number and no end mark |
| Blocks.LinkedIndexAtEnd | kernel/fs.c:173-179 | after a null link is written, the index field reads 0 |
| DiskSteps.MoveKeeps | kernel/fs.c:97-98 | taking the head of the free list keeps every block in exactly one place |
| DiskSteps.AttachKeeps | kernel/fs.c:97-101 | linking a block behind the last one keeps all chains and the free list |
| DiskSteps.AttachBytes | kernel/fs.c:97-101 | and changes no byte of any file |
| DiskSteps.FinishKeeps | kernel/fs.c:104-106 | the end mark completes the chain |
| DiskSteps.SetByteKeeps | kernel/fs.c:128 | storing a data byte keeps every pointer and every other file |
| DiskSteps.SetByteBytes | kernel/fs.c:128 | and changes exactly one byte of the chain |
| DiskFiles.CreatedFile | kernel/fs.c:45-58 | a new name gets an empty one-block file and no other file changes |
| DiskFiles.WrittenFile | kernel/fs.c:110-132 | extending and copying amount to patching one file's content |
| DiskFiles.RunOutBreaks | kernel/fs.c:92-107 | after a run-out no layout makes the state well formed |
| DiskFiles.RenamedFile | kernel/fs.c:187-196 | renaming changes one name and no content |
| DiskFiles.DeletedFile | kernel/fs.c:181-183 | clearing the entry empties the file, keeps its block, and keeps the rest |
| DiskFiles.FirstFreedFile | kernel/fs.c:171-183 | the one way deleting a longer file ends inside the blocks: one block freed, the others leaked |
| DiskFiles.BlocksConserved | kernel/fs.c:14-25 | free, chained and leaked blocks together are 129 |
| DiskFiles.Capacity | kernel/fs.c:27-47 | file sizes sum to at most 124 times the blocks not free, and the 256-entry table is never full |
| FileModel.ReadAfterWriteAt | kernel/fs.c:69-162 | what any descriptor reads after a successful write, on the same file or another |
| FileModel.TwoDescriptorsShareBytes | kernel/fs.c:32-38 | two descriptors of one name are one file: bytes written through one are read through the other |
| FileModel.StaleAfterDelete | kernel/fs.c:181-184 | another descriptor becomes stale if and only if it stands for the deleted file |
| FileModel.PatchOverwrites | kernel/fs.c:120-130 | a second write of the same range wins; writing the old bytes back undoes a write inside the file |
| FileModel.AppendsJoin | kernel/fs.c:135-140 | two appends equal one append of the joined bytes, blocks included |
| FileModel.LackingAdds | kernel/fs.c:80-83 | the blocks needed for two extensions in a row add up |
| FileModel.RenameKeepsNamesDistinct | kernel/fs.c:187-196 | exact condition under which names stay distinct |
| FileModel.RenameMoves | kernel/fs.c:187-196 | a rename to a free name moves one file and no other name |
| FileModel.OpenKeepsNamesDistinct | kernel/fs.c:27-61 | opening never duplicates a name |
| FileLaws.NeedIsLeast | kernel/fs.c:80-81 | the least number of 124-byte blocks that hold the bytes, one at least |
| FileLaws.PatchBytes | kernel/fs.c:120-130 | length and every byte of a patched content |
| FileLaws.WriteSucceeds | kernel/fs.c:69-133 | fs_write_at succeeds if and only if the descriptor is open, the index is not past the end and the missing blocks are free; a refusal changes nothing |
| FileLaws.WrittenBytes | kernel/fs.c:110-132 | after a success every byte, name, descriptor and the number of free blocks |
| FileLaws.AppendSucceeds | kernel/fs.c:135-140 | when fs_append succeeds, and the content then |
| FileLaws.OpenSucceeds | kernel/fs.c:27-61 | fs_open succeeds if and only if the name exists or a block is free; the descriptor is new, and what it stands for |
| FileLaws.DeleteForgets | kernel/fs.c:164-185 | what can be read and found after a delete, and the blocks then free |
| FileLaws.RenameSucceeds | kernel/fs.c:187-196 | fs_rename succeeds if and only if the old name exists, and renames its first entry only |
| FdTable.ViewKeys | kernel/fd.c:36-46 | a number is bound if and only if some node holds it |
| FdTable.ViewAt | kernel/fd.c:36-46 | with decreasing numbers the first node found is the binding |
| FdTable.ViewWithout | kernel/fd.c:48-66 | unlinking a node removes exactly one binding |
| FdTable.FdList.Create | kernel/fd.c:20-34 | binds a number never bound before |
| FdTable.FdList.Find | kernel/fd.c:36-46 | looks the number up in the map the list stands for |
| FdTable.FdList.Remove | kernel/fd.c:48-66 | removes exactly that binding, or nothing |
| FdTable.FdList.Unlink | kernel/fd.c:53-58 | takes one node out at the head or behind its predecessor |
| FileSystem.FileSys.constructor | kernel/fs.c:14-25 | over arbitrary memory: no files, all 129 blocks free in order, well formed |
| FileSystem.FileSys.LinkAllBlocks | kernel/fs.c:18-24 | the loop links all 129 blocks into the free list |
| FileSystem.FileSys.FsOpen | kernel/fs.c:27-61 | refines Open; succeeds if and only if the name exists or a block is free; a new file takes the head of the free list |
| FileSystem.FileSys.FindEntry | kernel/fs.c:33-38 | the first entry with the name |
| FileSystem.FileSys.OpenEntry | kernel/fs.c:35-36 | a new descriptor for the entry |
| FileSystem.FileSys.AddEntry | kernel/fs.c:50-58 | a new empty file takes one free block |
| FileSystem.FileSys.LastBlock | kernel/fs.c:85-88 | follows the chain to its last block |
| FileSystem.FileSys.AttachBlock | kernel/fs.c:97-101 | one turn of the allocation loop |
| FileSystem.FileSys.ExtendChain | kernel/fs.c:83-108 | succeeds if and only if enough blocks are free; bytes kept, blocks taken in list order; the damage of a run-out described |
| FileSystem.FileSys.MarkEnd | kernel/fs.c:103-106 | the end mark completes the chain in place |
| FileSystem.FileSys.SeekBlock | kernel/fs.c:111-118 | reaches the block of the index, or the end mark past the last one |
| FileSystem.FileSys.CopyBytes | kernel/fs.c:122-130 | writes the buffer over the chain's bytes across block boundaries and changes no other file |
| FileSystem.FileSys.CopyByte | kernel/fs.c:122-130 | one turn of the copy loop adds one byte to what has been written |
| FileSystem.FileSys.StoreByte | kernel/fs.c:128 | exactly one byte of one block changes |
| FileSystem.FileSys.FsWriteAt | kernel/fs.c:69-133 | true if and only if the descriptor is open, the index inside and the missing blocks free; refines WriteAt exactly when blocks do not run out midway, and otherwise leaves the disk broken; a false result without that changes nothing |
| FileSystem.FileSys.WriteFile | kernel/fs.c:73-132 | the same once the entry is known |
| FileSystem.FileSys.WriteEntry | kernel/fs.c:73-132 | true if and only if the blocks needed are free, and then only this file is patched |
| FileSystem.BlockCountWraps | kernel/fs.c:81 | the int block count is right if and only if the write ends below 2^31 blocks; at 2^32 blocks it is 0 |
| FileSystem.FileSys.FsWrite | kernel/fs.c:67 | a write at index 0, with the same condition for success |
| FileSystem.FileSys.FsAppend | kernel/fs.c:135-140 | refines Append, with the same condition for success at the end of the file |
| FileSystem.FileSys.FsRead | kernel/fs.c:142-162 | emits exactly the file's content |
| FileSystem.FileSys.ReadEntry | kernel/fs.c:148-161 | terminates; the unsigned subtraction wraps on the last block only, where it is not used |
| FileSystem.FileSys.FsRename | kernel/fs.c:187-196 | refines Rename; true if and only if the old name exists |
| FileSystem.FileSys.FreeChain | kernel/fs.c:171-183 | the loop leaves the 129 blocks if and only if StaysInside fails, and then no layout fits the disk; otherwise the file is gone and the rest intact |
| FileSystem.FileSys.FsDelete | kernel/fs.c:164-185 | the exact condition of the wild access, after which no layout fits; otherwise refines Delete, blocks freed included |
| FileRuns.Do | kernel/fs.c:27-196 | one safe call refines the model's step; only the delete of a longer file can go wild |
| FileRuns.Execute | kernel/fs.c:27-196 | every run of safe calls keeps the invariant, ends in the model's state and stays within capacity, unless it stops at the delete of a longer file that goes wild |
| FileRuns.RunKeepsNames | kernel/fs.c:27-196 | over every safe run whose renames go to free names, no two live files share a name |
| FailureExamples.OneFile | kernel/fs.c:27-133 | writing the first file succeeds exactly when its bytes fit into 129 blocks, taken from slot 128 down |
| FailureExamples.WriteRunsOut | kernel/fs.c:92-107 | a write larger than the new disk returns false and leaves a disk no layout fits |
| FailureExamples.DeleteOnlyFile | kernel/fs.c:164-185 | deleting the only file goes wild exactly for 2 to 128 blocks; else 128 blocks or 1 are free |
| FailureExamples.DeleteOnFullDisk | kernel/fs.c:164-185 | with the last block in another file, deleting 128 blocks frees one and keeps the other file |
| FailureExamples.RenameOntoTakenName | kernel/fs.c:187-196 | a rename that gives two files one name |
| FailureExamples.DeleteLeavesStale | kernel/fs.c:164-185 | a stale descriptor after an ordinary delete |
| FailureExamples.PageOverNode | kernel/memory.c:122-162 | an unaligned page that overlaps a listed node, from a range of one page and 16 bytes |
| FailureExamples.SameBlockTwice | kernel/interrupts.c:334-339 | two requests of 4 GiB return the same address |
| Keyboard.TablesCoverTheKeys | kernel/interrupts.c:82-92 | every code looked up is inside both tables |
| KeyboardInput.TableEntries | kernel/interrupts.c:82-86 | every entry of table |
| KeyboardInput.TableCapsEntries | kernel/interrupts.c:88-92 | every entry of table_caps |
| KeyboardInput.ShiftHeld | kernel/interrupts.c:104-119 | in every run a shift flag is set if and only if the last of its two codes seen is the press |
| KeyboardInput.KeyAccepted | kernel/interrupts.c:120-139 | in every run each code up to 0x3A that finds room appends one character, of table_caps exactly when a shift key is held by the codes seen; nothing else does |
| Keyboard.StepKeepsInv | kernel/interrupts.c:100-159 | every step of handler or reader keeps the invariant that ties indices, count, slots and registers to the history |
| Keyboard.LostAreHits | kernel/interrupts.c:138-157 | the increments missing from the count are exactly the keys that hit the decrement |
| Keyboard.FifoUnderEveryInterleaving | kernel/interrupts.c:100-159 | returned characters a prefix of the accepted ones, nothing overwritten and an exact count, if and only if every hit still waits for its store; then slots and indices agree too |
| Keyboard.CountFallsShortByHits | kernel/interrupts.c:100-159 | in every run: the count lacks one for each hit stored over; nothing is overwritten before the first such store; order kept while nothing is overwritten |
| Keyboard.FullBufferDropsOrOverwrites | kernel/interrupts.c:124-133 | with 1000 unread characters a key is dropped if no increment was lost, else it overwrites the oldest |
| Keyboard.LostIncrementExample | kernel/interrupts.c:152-157 | a run in which one hit leaves a character unread and kgetc waiting for good |
| KeyboardOverruns.SlotsInEveryRun | kernel/interrupts.c:100-159 | in every run the slots hold the newest accepted characters, and the n-th character returned is the n-th accepted one or a later one of its slot |
| KeyboardOverruns.FetchTakesNewest | kernel/interrupts.c:155 | kgetc reads the newest accepted character of its slot |
| KeyboardOverruns.OverwriteExample | kernel/interrupts.c:100-159 | one hit and a thousand keys later kgetc returns the wrong character |
| KeyboardDriver.Driver.constructor | kernel/interrupts.c:95-98 | nothing typed, any buffer contents |
| KeyboardDriver.Driver.KeyboardHandler | kernel/interrupts.c:100-142 | the handler's statements are the handler step |
| KeyboardDriver.Driver.PutChar | kernel/interrupts.c:130-132 | one character into the buffer, one more in the count |
| KeyboardDriver.Driver.Interrupts | kernel/interrupts.c:100-142 | any number of keys between two statements of the reader |
| KeyboardDriver.Driver.Kgetc | kernel/interrupts.c:150-159 | returns the next character of the step system, or would wait for ever |
| KeyboardDriver.Driver.WaitForKey | kernel/interrupts.c:152-154 | the busy wait ends when the count is not zero |
| KeyboardDriver.Driver.ReadSlot | kernel/interrupts.c:155 | the load, the post-increment and the fetch, with interrupts between them |
| KeyboardDriver.Driver.TakeChar | kernel/interrupts.c:155-158 | the rest of kgetc, statement by statement |
| KeyboardDriver.Driver.SysRead | kernel/interrupts.c:212-237 | the buffer is the backspace edit of the characters consumed, first time it reaches the length; those are the next piece of the accepted input as long as no unread character was overwritten, so in every run without a hit |
| KeyboardDriver.Driver.EditLine | kernel/interrupts.c:227-234 | one character edits the line in place |
| KeyboardDriver.EditSnoc | kernel/interrupts.c:227-234 | typing pushes, backspace pops, nothing happens on an empty line |
| KeyboardDriver.NextPiece | kernel/interrupts.c:224-236 | unless an unread character was overwritten, what one call consumed is the next piece of what the handler accepted |
| Terminal.Memcpy | stdlib/mem.c:37-44 | what an ascending copy leaves, for every overlap |
| Terminal.CopyIsFaithful | stdlib/mem.c:37-44 | the copy is true if and only if the destination does not start inside the source |
| Terminal.PlainLayout | kernel/terminal.c:112-144 | text without control characters stands at row p / 80, column p % 80 |
| TerminalLayout.PutPlain | kernel/terminal.c:112-144 | a plain character wraps after column 80 and sets one cell |
| TerminalLayout.PlainFrom | kernel/terminal.c:112-144 | plain text from column 0 of a blank row, 80 characters to a row |
| TerminalLayout.LinesLayout | kernel/terminal.c:105-144 | lines joined by newlines: each starts at column 0 of the row after those the lines before it take |
| TerminalLayout.Overprint | kernel/terminal.c:88-93 | a carriage return keeps every row, and what follows is written over the last one |
| TerminalLayout.BackspaceBlanks | kernel/terminal.c:94-103 | a backspace steps back and blanks that one cell, and does nothing at column 0 |
| TerminalLayout.BackspaceUndoes | kernel/terminal.c:94-144 | after a plain character it restores position and cells, except that a wrap stays |
| TerminalLayout.ScreenShows | kernel/terminal.c:119-144 | the 2000 cells are the last 25 rows, white on black; cursor row below 25, column at most 80 |
| Terminal.Screen.constructor | kernel/terminal.c:150-157 | starts on the empty transcript, whatever the buffer held |
| Terminal.Screen.TermClear | kernel/terminal.c:68-82 | all 2000 cells blank, white on black, cursor at the origin: the empty transcript |
| Terminal.Screen.NextRow | kernel/terminal.c:106-117 | a new row of the transcript, the buffer not yet moved |
| Terminal.Screen.Scroll | kernel/terminal.c:120-134 | the buffer shows the last 25 rows again |
| Terminal.Screen.Erase | kernel/terminal.c:94-103 | backspace blanks one character of the last row |
| Terminal.Screen.WriteAtCursor | kernel/terminal.c:137-144 | one character at the end of the transcript |
| Terminal.Screen.TermPutchar | kernel/terminal.c:85-147 | the screen shows the last 25 rows of the transcript with the character put at its end |
| Terminal.Screen.WriteAll | kernel/interrupts.c:254-258 | after any string the screen is the window on its transcript, with row below 25 and column at most 80 |
| Heap.RoundUpIsLeast | stdlib/mem.c:22 | the least multiple that is not smaller |
| Heap.MmapLoopEnds | kernel/interrupts.c:342-351 | the loop ends if and only if the length is a multiple of the page size |
| Heap.NextStartIsEnd | kernel/interrupts.c:334-339 | mem_start moves to the end of the region if and only if the region is below 2 GiB and inside the address space |
| Heap.NextRegionOverlaps | kernel/interrupts.c:334-339 | where the overflow leaves it short, the next region overlaps this one |
| Heap.RegionsAreHigh | kernel/interrupts.c:332-339 | while all regions fit, mem_start stays page-aligned and never drops below its start |
| Heap.RegionAddedIff | kernel/interrupts.c:332-339 | regions follow one another without a gap if and only if each fits |
| Heap.BlocksKept | stdlib/mem.c:78-79 | earlier blocks stay inside their regions and below the bump pointer |
| Heap.BlockTaken | stdlib/mem.c:83-85 | a block at the bump pointer overlaps none before it |
| Heap.Heap.SysMmap | kernel/interrupts.c:330-353 | the region, the wrapped mem_start, page by page the vm_map calls with their rights, and exactly when the regions stay in order |
| Heap.Heap.MapPages | kernel/interrupts.c:342-351 | the k-th call of vm_map is for addr + k * 0x1000 modulo 2^64, with the rights of the three prot bits |
| Heap.RegionPages | kernel/interrupts.c:342-351 | in a region that does not wrap, exactly its page-aligned addresses are mapped, each once |
| Heap.BlockBytesMapped | stdlib/mem.c:61-88 | in a valid heap every byte of every block lies in a page mapped writable for the user |
| Heap.Heap.Malloc | stdlib/mem.c:61-88 | a new region exactly when space is short; block aligned, inside a region and clear of every earlier one, with bump plus space at the region's end, if and only if the region asked for fits |
| Heap.Heap.GrowHeap | stdlib/mem.c:67-80 | the bump pointer moves to a region large enough, in order if and only if it fits |
| Heap.Heap.TakeBlock | stdlib/mem.c:83-87 | the block ends at the new bump pointer |
| Heap.Request | stdlib/mem.c:61-88 | one request of such a run |
| Heap.Requests | stdlib/mem.c:61-88 | any run of requests below 2 GiB on a new heap: blocks 16-byte aligned, each ending before the next begins, all bytes in mapped pages |

## Left out

- Hardware and assembly: `read_cr3`, `write_cr3`, `invlpg`, port I/O, cursor registers, interrupt and descriptor tables. The root table is a parameter, key codes are given per reader step.
- Bits inside a page-table entry: an entry is a record of its fields, `other` standing for the unused ones; physical addresses are below 2^52 and the address field has 40 bits.
- Reading a frame as the wrong kind of data: a frame holds a table or a list node, and the proofs show the code never mixes them; other uses of frames are opaque.
- VmMap.MapFromOutcome: excludes, at the time of the call, addresses inside huge pages, and so do MapOnAddresses, ApplyKeeps, RunKeeps, Execute and VmMap, which rest on it; HugePageIsOverwritten shows that nothing of the kind holds in a 2 MB page. In a 1 GB page the code follows whatever addresses the data holds, and in a 2 MB page over free memory it overwrites nodes of the free list, since the kernel's own map covers both; neither is modelled.
- KernelMemory.PhysicalMemory.VmProtect: excludes addresses inside huge pages, where it would read page data as entries.
- Unused entries of level-3 and level-2 tables are taken to have a clear `page_size` bit, since `vm_map` would turn such an entry into what the hardware reads as a huge page.
- `vm_unmap` (a stub) and `translate` (prints only).
- The `vm_map` calls of `fs_init` and `create_fd`: blocks and descriptor nodes are taken to be separate memory, although `vm_map` assigns no frame.
- Word-at-a-time copying: `memset` of a page is one assignment, and `memcpy` copies 2-byte screen cells as units, which shifts by whole cells.
- FileSystem.FileSys.FsOpen: names are strings without NUL of 1 to 31 characters, compared with equality; longer ones overflow the entry, the empty one marks deleted entries, and the loops of `strcpy` and `strcmp` are not modelled.
- FileSystem.FileSys.FsRename: the same holds for its two names.
- FileSystem.FileSys.FsRead: descriptors whose file was deleted through another one (`Stale`) are excluded here, in FsWriteAt, FsWrite, FsAppend and FsDelete; the code then works on block 0, whoever owns it. StaleAfterDelete says when there are any.
- FileSystem.FileSys.FsWriteAt: takes buffers of at most `MAX_WRITE` bytes (2^31 blocks less 130), as do FsWrite, FsAppend and the runs; BlockCountWraps says where the int count goes wrong. After a run-out the state is said to be beyond repair by any layout; what later calls do to it is not described.
- Terminal.Memcpy: counts elements without bound, although the index is an int; the screen copies 3840 bytes.
- `next_fd` is unbounded: 2^31 descriptors would take 16 GB of page tables for their nodes.
- FileSystem.FileSys.FsDelete: stops at the first block number outside the 129 blocks, with a disk no layout fits; what the code then reads and writes depends on memory that is not modelled. The same holds for FreeChain, Do and Execute.
- KeyboardDriver.Driver.SysRead: the interrupts are a finite list, so waiting for ever is a result, and compiler reordering of volatile accesses is not modelled.
- Heap.Heap.Malloc: requests so large that ROUND_UP itself wraps at 2^64 are excluded.
- Heap.Heap.SysMmap: only the case without an address, for a positive page multiple; int overflow, undefined in C, is taken to wrap; the results of its vm_map calls are ignored as in the code.
- Resetting the heap and the address space in `SYS_exec` and `SYS_exit`, ELF loading, boot code, system-call dispatch, `kprintf`, and string functions.

# ViOS verification

A Dafny model of the parts of the ViOS kernel that everything else stands on, with proofs:

- **Memory.** The first-fit block heap over its byte table, two-level page tables kept in blocks
  of that heap, the per-process allocation table, the mapping of a loaded program, and the copying
  of a string out of a task's address space. There is one memory: an array of 32-bit words behind
  the heap. Page tables, path lists, allocations and temporary buffers are words in it, so that they
  do not overlap is a theorem about the allocator. Three things are not in it: the heap's block
  table, a process's table of allocations, and the kernel buffer a string is copied to are arrays of
  their own, and contracts ask that they are different from it and from each other. Processes that
  share the heap are shown not to reach each other, over any history of them.
- **Files.** Byte reads over a sector disk, cluster chains, and `fat16_read`, against the file as the
  concatenation of its clusters; the path parser, whose list lives in heap memory; the extent of an
  ELF image.
- **Drawing.** Bresenham lines and the midpoint circle against their geometry, and two blits written
  differently against one pixel-by-pixel specification.
- **Text.** The user library's stateful `strtok` and the command list built on it, and the two
  `snprintf`s.
- **Tasks.** The doubly linked run queue and its round robin.

State that the C code changes in place is changed in place here: classes with the same fields,
arrays for tables and buffers, loops where the C code has loops. Each method is proved against a
function or predicate of the old and new state, and what the code is for is proved about those.
The project file is `dfyconfig.toml`.

Integers are unbounded except where the width matters: addresses, sizes and page numbers wrap at
32 bits (`Words.Word`), and `|`, `&` and byte access are defined bit by bit and byte by byte.

## What is false of the code

The code is modelled as written. Where it does not do what one would expect, the exact condition
under which it does is a theorem:

- A request that does not fit, while the last block is free, is answered with a trailing run that is
  too short (`Heaps.MarkingInsideIffSafe`, `Heaps.ShortTrailingRun`).
- A read that starts inside a cluster and crosses into another one gives the file's bytes, whatever
  they are, exactly when the clusters it crosses between are neighbours on the disk
  (`Clusters.RightIffAlignedOrContiguous`, `Clusters.UnalignedReadMisses`).
- A segment's first byte is found at its virtual address exactly when that address and the byte's
  place in memory have the same offset in their pages (`ProgramMemory.FirstByteRightIffCongruent`,
  `ProgramMemory.IncongruentSegmentMisses`).
- The base of an ELF image is its lowest address exactly when no loadable segment starts at address
  0, or the last one does (`ElfLoader.ElfFile.LowestIff`, `ElfLoader.ZeroSegmentForgotten`).
- `copy_string_from_task` takes a free page, clears its first `max` bytes, enters it in the task's
  tables and copies through it. If the task had that page mapped to itself, the string is delivered,
  whatever the page holds, exactly when no byte up to its first NUL off the page is one of the
  cleared bytes or a byte of the page's entry that the new entry has differently
  (`StringCopies.DeliveredIffUnspoilt`).
  A string that starts among the cleared bytes is delivered empty (`StringCopies.DeliveredEmpty`,
  `StringCopies.StringOnTempPageLost`); one that starts k bytes before the page repeats its first k
  characters (`StringCopies.StringBeforeTempPageRepeats`), so that "abcdabcd" arrives for "abcdefgh"
  (`StringExample.StringIntoTempPageMisses`); one further up the page is delivered
  (`StringCopies.StringHighOnTempPageDelivered`).
- The circle stays within half a pixel of the ideal one exactly for radii up to 4
  (`Circle.HalfPixelIffSmall`): the decision variable drifts (`Circle.DecisionDrifts`).
- Blending a color with itself, neither clear nor opaque, keeps it exactly if its red and blue are not
  from 1 to 3 and its green is not from 1 to 15 (`Blit.BlendSameIff`): each channel loses a step.
- Removing a task leaves a doubly linked queue doubly linked exactly when the task was the tail, and
  leaves the next links of any queue right exactly when the task's prev link leads to the task in
  front (`TaskList.Queue.Remove`, with `PrevFits` for the details at the head). So the queue does not
  survive the removal of two neighbours behind its head (`TaskList.Queue.RemoveNeighbours`).
- `vios_parse_command` leaves the tokeniser ready for the next command exactly when none of its
  allocations fails (`Tokeniser.ParseCommand`).

## Model

| member | source | states |
|---|---|---|
| HeapTable.ChainMarks | src/memory/heap/heap.c:112-131 | in a chain only the first byte carries IS_FIRST and only the last lacks HAS_NEXT |
| HeapTable.ChainBytes | src/memory/heap/heap.c:112-131 | a chain is the byte 0x41, or 0xc1, any number of 0x81 and 0x01 |
| HeapTable.ChainsDisjoint | src/memory/heap/heap.c:112-131 | live chains never overlap: of two, one ends before the other starts |
| HeapTable.ChainsUnique | src/memory/heap/heap.c:152-164 | the bytes of the table determine the map from chain starts to lengths |
| HeapTable.TableUnique | src/memory/heap/heap.c:112-164 | the map of chains determines every byte of the table |
| HeapTable.FreeIsZero | src/memory/heap/heap.c:67-70 | a byte reads as free exactly when it is zero, exactly when no live chain covers it |
| HeapTable.MarkAddsChain | src/memory/heap/heap.c:112-131 | marking a free run adds exactly that chain and disturbs no other |
| HeapTable.UnmarkRemovesChain | src/memory/heap/heap.c:152-164 | freeing a chain removes exactly that chain |
| HeapTable.TableConserved | src/memory/heap/heap.c:72-181 | free blocks plus chain lengths is the number of blocks |
| HeapTable.MarkCostsLength | src/memory/heap/heap.c:112-131 | an allocation of n blocks costs exactly n free blocks |
| HeapTable.StepKeepsChains | src/memory/heap/heap.c:133-181 | one malloc or free keeps the table a set of well-formed chains |
| HeapTable.RunsKeepChains | src/memory/heap/heap.c:133-181 | so does every run; blocks are conserved, and a run back to the same chains is back to the same bytes |
| Heaps.MallocIsStep | src/memory/heap/heap.c:171-176 | every heap_malloc is a step of these runs, whether it allocates or not |
| Heaps.FreeIsStep | src/memory/heap/heap.c:178-181 | so is every heap_free of a live address |
| Heaps.Serve | src/memory/heap/heap.c:171-181 | one call on the heap makes one step and keeps the heap valid |
| Heaps.AlignValueToUpper | src/memory/heap/heap.c:55-65 | the next multiple of the block size, in 32-bit arithmetic |
| Heaps.Blocks | src/memory/heap/heap.c:171-176 | the least number of blocks that holds the size |
| Heaps.MarkingInsideIffSafe | src/memory/heap/heap.c:72-105 | the run found is free and inside the table exactly when a fit exists or the last block is taken |
| Heaps.ShortTrailingRun | src/memory/heap/heap.c:99-104 | a table on which two blocks are asked for and one is handed out |
| Heaps.SingleBlockSafe | src/memory/heap/heap.c:72-105 | one block is always safe to ask for, and found exactly when one is free |
| Heaps.LowestFitUnique | src/memory/heap/heap.c:72-105 | first fit leaves no choice |
| Heaps.Heap.Create | src/memory/heap/heap.c:28-53 | accepts exactly aligned bounds with a table of the right length; the heap is then valid and empty |
| Heaps.Heap.GetStartBlock | src/memory/heap/heap.c:72-105 | finds the lowest fit, else -ENOMEM only if the last block is taken, else the trailing run |
| Heaps.Heap.MarkBlocksTaken | src/memory/heap/heap.c:112-131 | writes exactly the bytes of one chain |
| Heaps.Heap.MarkBlocksFree | src/memory/heap/heap.c:152-164 | clears exactly the bytes of the chain, found by its HAS_NEXT bits |
| Heaps.Heap.Malloc | src/memory/heap/heap.c:133-176 | a new chain at the lowest fit and its address, or nothing changed; validity kept |
| Heaps.Heap.Free | src/memory/heap/heap.c:178-181 | the chain at the address is gone and no other; validity kept |
| KHeap.ClearBytes | src/memory/heap/kheap.c:30-38 | memset clears exactly the given bytes, whatever their number modulo 4 |
| KHeap.Init | src/memory/heap/kheap.c:11-23 | the kernel heap starts at 0x01000000, valid, empty, with all 25600 blocks free |
| KHeap.KMalloc | src/memory/heap/kheap.c:25-28 | the contract of heap_malloc on the kernel heap |
| KHeap.KZAlloc | src/memory/heap/kheap.c:30-38 | as kmalloc, and the size's bytes are zero and no other byte changed |
| KHeap.KFree | src/memory/heap/kheap.c:40-43 | removes the chain at the address |
| KHeap.OneBlock | src/memory/heap/kheap.c:25-28 | with a free block left a request of at most a page succeeds and costs one block |
| Words.MaskIsAnd | src/memory/paging/paging.c:160-160 | entry & 0xfffff000 is the entry without its low twelve bits |
| Words.TagIsLow | src/memory/paging/paging.c:19-19 | or-ing flags below 4096 changes the low twelve bits only, tagged already or not |
| Words.MaskTagTwice | src/memory/paging/paging.c:7-44 | masking a page-aligned pointer tagged twice gives the pointer back |
| Words.WritableBit | src/memory/paging/paging.c:19-19 | or-ing in the writable bit sets it and keeps the present and user bits |
| PageTables.SetOnePage | src/memory/paging/paging.c:144-164 | the write of paging_set changes one page of the flat map and no other, and leaves the directory |
| PageTables.TablesOnlyKeepsDirectory | src/memory/paging/paging.c:144-164 | no write to a page table touches the directory |
| PageTables.SpaceKept | src/memory/paging/paging.c:173-182 | memory outside a space's own blocks does not decide its map |
| PageTables.SpacesIsolated | src/memory/paging/paging.c:144-164 | writes through one address space leave every space of other blocks as it was |
| PageTables.MapOneMore | src/memory/paging/paging.c:98-111 | a round of paging_map_range, with its wrapping addresses, is the next entry of the range |
| PageTables.MapPagesAt | src/memory/paging/paging.c:98-111 | each page of the range gets its own entry, and every other page keeps its own |
| PageTables.EntryBits | src/memory/paging/paging.c:88-96 | each flag bit of an entry is that of the flags it was made with |
| PageTables.MappedTranslates | src/memory/paging/paging.c:98-143 | every byte address in a mapped range translates to phys plus its distance from virt |
| PageTables.UnmappedTranslates | src/memory/paging/paging.c:98-143 | every other address translates as before |
| PageTables.WalkTranslates | src/memory/paging/paging.c:166-182 | the processor's two-level walk, ten bits of the address a level, ends at the translation by the flat map |
| Paging.AlignAddress | src/memory/paging/paging.c:71-79 | the next page boundary |
| Paging.AlignToLowerPage | src/memory/paging/paging.c:81-86 | the page boundary at or below |
| Paging.GetIndexes | src/memory/paging/paging.c:56-69 | the two indexes are the page number of an aligned address |
| Paging.Set | src/memory/paging/paging.c:144-164 | updates one page of the flat map, or refuses an unaligned address; only tables are written |
| Paging.Get | src/memory/paging/paging.c:173-182 | reads the flat map; an unaligned address reads page 0 |
| Paging.GetPhysicalAddress | src/memory/paging/paging.c:166-171 | the translation of the address by the flat map |
| Paging.MapPage | src/memory/paging/paging.c:88-96 | one tagged entry, or refused |
| Paging.MapRange | src/memory/paging/paging.c:98-111 | the whole range of entries in order, with wrap-around |
| Paging.MapTo | src/memory/paging/paging.c:113-142 | refuses exactly unaligned or reversed ranges, else maps (phys_end - phys) / 4096 pages |
| AddressSpace.AllocPage | src/memory/heap/kheap.c:30-38 | null exactly when no block is free, else the lowest free block, of which the asked-for bytes are cleared and no other |
| AddressSpace.FillTable | src/memory/paging/paging.c:14-17 | fills one table with the identity entries of its 4 MiB |
| AddressSpace.AddTable | src/memory/paging/paging.c:11-20 | one more table, in a block of its own, entered in the directory with its flags and the writable bit |
| AddressSpace.EntryTagged | src/memory/paging/paging.c:19-19 | a directory entry is the table's address and the flags with the writable bit: present and user bits as asked for, writable always |
| AddressSpace.New4Gb | src/memory/paging/paging.c:7-25 | the identity map over 2^20 pages with the flags, every directory entry tagged so, in exactly 1026 new one-block chains; blocks in use keep their words |
| AddressSpace.DirectoryStaysTagged | src/memory/paging/paging.c:144-164 | page-table writes leave every directory entry with its flags |
| AddressSpace.PagesDecide | src/memory/paging/paging.c:7-25 | in a space built for the user, whether a program may read or write an address is decided by the page's own entry |
| AddressSpace.FreeTable | src/memory/paging/paging.c:37-39 | masking a tagged entry gives the table's block back, and exactly that block is freed |
| AddressSpace.Free4Gb | src/memory/paging/paging.c:33-44 | masks every tagged entry back to its table and frees exactly the 1026 blocks |
| AddressSpace.SpaceSubtracts | src/memory/paging/paging.c:33-44 | what freeing a space takes away is what creating it added |
| AddressSpace.Apply | src/memory/paging/paging.c:88-164 | any page-table operation leaves the space with the same blocks |
| AddressSpace.Lifecycle | src/memory/paging/paging.c:7-44 | create, any run of paging_set, paging_map and paging_map_to, free: every byte of the heap table is back |
| Processes.AllocationsUsable | src/task/process.c:75-75 | each page of each allocation is mapped to itself, present, writable and for the user |
| Processes.HoldsAfterMalloc | src/task/process.c:61-91 | mapping a new chain keeps every other allocation's chain and pages |
| Processes.HoldsAfterFree | src/task/process.c:290-306 | so does unmapping one |
| Processes.AgreesAfterMalloc | src/task/process.c:61-91 | slots, heap chains and page tables agree after a malloc |
| Processes.AgreesAfterFree | src/task/process.c:290-306 | and after a free |
| Processes.FreshChainCleared | src/task/process.c:63-75 | mapping the chain writes none of its cleared words, because it holds no page table |
| Processes.Process.FindFreeAllocationIndex | src/task/process.c:46-59 | the first empty slot, or an error exactly when there is none |
| Processes.Process.MapChain | src/task/process.c:75-75 | the chain's pages, and no others, become identity-mapped, present, writable and user |
| Processes.Process.Malloc | src/task/process.c:61-91 | a new head of a live chain, cleared to the last byte, recorded in the first empty slot and mapped, or heap, slots and tables unchanged |
| Processes.Process.GetAllocationByAddr | src/task/process.c:116-125 | the first slot with the address, or null exactly when there is none |
| Processes.Process.AllocationUnjoin | src/task/process.c:104-114 | empties exactly that slot |
| Processes.Process.UnmapChain | src/task/process.c:298-298 | exactly the chain's pages lose their flags, and this never fails |
| Processes.Process.Free | src/task/process.c:290-306 | slot, pages and chain of a pointer are released, or nothing changes for a pointer that is not the process's |
| Processes.SlotUnmapped | src/task/process.c:298-298 | freeing one slot's chain takes the flags of its pages and of no other |
| Processes.Process.TerminateAllocations | src/task/process.c:127-138 | every slot is empty, every chain of the process released and every page of it mapped to itself without flags; no other chain or page-table entry changed |
| Processes.Run | src/task/process.c:61-306 | over every run of mallocs and frees slots, heap and page tables agree, every other chain stays with its words, and the space keeps its blocks |
| Processes.Session | src/task/process.c:127-138 | from empty slots, through any run and the termination: the heap table is byte for byte as before |
| Processes.Life | src/task/task.c:221-231 | the same from paging_new_4gb to paging_free_4gb: the space's 1026 blocks come back too |
| Isolation.SpaceInNoChain | src/task/process.c:61-91 | no page table of one process is inside an allocation of another |
| Isolation.OtherWordsKept | src/task/process.c:61-306 | what is done for one process writes no word of another's address space or allocations |
| Isolation.OtherKept | src/task/process.c:61-306 | the other process is valid afterwards, with its chains and page map, and still has no block in common with the first |
| Isolation.UnclaimedKept | src/task/process.c:61-306 | chains in no process's slots stay as they are |
| Isolation.Step | src/task/process.c:61-306 | a malloc, a free or a termination for one of any number of processes: all stay valid and apart, and every other one is untouched |
| Isolation.Interleave | src/task/process.c:61-306 | the same over every interleaving; a process that is not named keeps slots, map, chains and every word in them |
| Isolation.Sessions | src/task/process.c:127-138 | from empty slots, through any interleaving and the termination of all: the heap table is byte for byte as before |
| Histories.BystanderKept | src/memory/paging/paging.c:7-44 | a process keeps its memory while address spaces of others are built and freed |
| Histories.UnownedAfterSpawn | src/task/task.c:221-225 | a new process adds nothing to the heap but its own address space |
| Histories.UnownedAfterRelease | src/task/task.c:98-106 | and takes exactly that away when it ends |
| Histories.Spawn | src/task/task.c:221-225 | a new address space is apart from every process there is, and they are untouched |
| Histories.Release | src/task/task.c:98-106 | freeing a process's address space leaves the other processes valid and apart |
| Histories.History | src/task/process.c:61-306 | over every history of processes coming, calling and ending, all are valid and apart, and once none is left the heap table is byte for byte as at the start |
| ProgramMemory.MapElf | src/task/process.c:374-397 | maps the segments in order up to the first refused one, and reports it |
| ProgramMemory.MapMemory | src/task/process.c:399-425 | the image, then the stack; a refused image stops before the stack |
| ProgramMemory.RefusedStops | src/task/process.c:374-425 | the first refused segment is reported and ends the mapping, without the stack; if none is refused, none is reported |
| ProgramMemory.RefusedIff | src/memory/paging/paging.c:113-142 | a segment is refused exactly if, rounded to pages, its end in memory wraps to below its start |
| ProgramMemory.LoadableMapping | src/task/process.c:374-397 | the pages mapped for a segment cover it, at its distance from the file's bytes |
| ProgramMemory.SegmentsTranslate | src/task/process.c:374-397 | a byte in the pages of one segment and of no later one is where that segment puts it |
| ProgramMemory.StackTranslates | src/task/process.c:411-425 | the 16 KiB below 0x3FF000 are the stack buffer, and nothing else moves |
| ProgramMemory.ProgramSeesImage | src/task/process.c:399-425 | byte k of a segment is found at p_vaddr + k |
| ProgramMemory.ProgramSeesStackAndRest | src/task/process.c:399-425 | the stack is where it should be and every other address translates as before |
| ProgramMemory.UntouchedIsIdentity | src/task/task.c:224-225 | in a space just built, an address in no mapped page still translates to itself |
| ProgramMemory.BinarySeesImage | src/task/process.c:369-372 | a flat binary appears at 0x400000 |
| ProgramMemory.SegmentPermissions | src/task/process.c:374-397 | each page of a segment is present and for the user, and writable exactly if the segment has PF_W |
| ProgramMemory.StackAndRestPermissions | src/task/process.c:411-425 | the four stack pages are present, writable and for the user, and a page of neither stack nor segment keeps its entry |
| ProgramMemory.BinaryPermissions | src/task/process.c:369-372 | each page of a flat binary is present, writable and for the user |
| ProgramMemory.ProgramUsesImage | src/task/process.c:374-425 | in a space built for the user, the processor's walk finds byte k of a segment, the program may read it, and may write it exactly if the segment is writable |
| ProgramMemory.FirstByteRightIffCongruent | src/task/process.c:374-397 | a segment's first byte is right exactly when the two page offsets are equal |
| ProgramMemory.IncongruentSegmentMisses | src/task/process.c:390-390 | a segment whose first byte is found sixteen bytes too early |
| ElfLoader.ElfFile.ProcessLoad | src/loader/formats/elfloader.c:110-125 | one segment more is taken into base and end |
| ElfLoader.ElfFile.ProcessHeaders | src/loader/formats/elfloader.c:126-151 | base and end belong to loadable segments, in memory to the last with that address; the end is the highest, the base the lowest if none starts at 0 |
| ElfLoader.ElfFile.LowestIff | src/loader/formats/elfloader.c:110-125 | the base is the lowest exactly when no segment starts at 0 or the last one does |
| ElfLoader.ZeroSegmentForgotten | src/loader/formats/elfloader.c:112-116 | two segments, at 0 and at 0x1000, and the base is 0x1000 |
| TaskStrings.Load | src/task/task.c:161-161 | a byte read on the task's directory is the byte its map translates to |
| TaskStrings.Store | src/task/task.c:161-161 | a byte written there changes that byte of memory and no other |
| StringCopies.FetchedAt | src/string/string.c:200-208 | strncpy reads byte i from memory, or from what it has itself written there before |
| StringCopies.ReadForCopy | src/task/task.c:150-158 | taking the page changes its first max bytes and its entry and no other byte |
| StringCopies.FetchedAsSeen | src/task/task.c:155-161 | a byte that neither change touches is fetched as the task sees it |
| StringCopies.OffPageDelivered | src/task/task.c:155-171 | a string off the temporary page and its entry is delivered as the task sees it, whatever the task's map |
| StringCopies.SpoiltMisses | src/task/task.c:150-161 | a byte of the string that is changed makes the copy wrong for some content of the page |
| StringCopies.DeliveredIffUnspoilt | src/task/task.c:142-177 | with the page mapped to itself, the string is delivered whatever the page holds exactly if none of its bytes is changed |
| StringCopies.DeliveredEmpty | src/task/task.c:150-161 | a string that starts in the first max bytes of the temporary page is delivered empty |
| StringCopies.StringOnTempPageLost | src/task/task.c:150-161 | so a string there that is not empty is lost, if the task has the page mapped to itself |
| StringCopies.StringBeforeTempPageRepeats | src/task/task.c:161-161 | a string that starts k bytes before the page repeats its first k characters |
| StringCopies.StringHighOnTempPageDelivered | src/task/task.c:150-161 | a string on the page behind its first max bytes is delivered |
| StringExample.ExampleSpace | src/memory/paging/paging.c:7-25 | a memory of 1028 blocks that holds an address space mapping every page to itself |
| StringExample.StringIntoTempPageMisses | src/task/task.c:142-177 | in it a task sees "abcdefgh" and "abcdabcd" is delivered |
| TaskStrings.CopyIn | src/task/task.c:160-162 | strncpy through the page tables leaves in the temporary block the padded string it fetched, for every string, and writes nothing else |
| TaskStrings.CopyOut | src/task/task.c:171-171 | the second strncpy leaves the padded bytes of the block in the buffer |
| TaskStrings.AfterRestoring | src/task/task.c:158-164 | with the entry put back, no word outside the temporary block differs |
| TaskStrings.CopyWithTemp | src/task/task.c:157-171 | between allocation and release nothing but the temporary block changes, and the buffer is as `Delivered` says |
| TaskStrings.CopyStringFromTask | src/task/task.c:142-177 | heap table, page entries and all memory in use are as before; the buffer is as `Delivered` says for every string: the string itself if it is off the temporary page or unspoilt, empty if it starts among the cleared bytes |
| Streamer.DiskStream.Seek | src/disk/streamer.c:21-25 | the position is set |
| Streamer.DiskStream.CopyFromSector | src/disk/streamer.c:46-49 | exactly the wanted bytes of the sector are copied |
| Streamer.ReadTwice | src/disk/streamer.c:51-56 | two adjacent reads are one |
| Streamer.DiskStream.Read | src/disk/streamer.c:27-59 | any position and length: the disk's bytes, the position advanced by the length, and it ends |
| Clusters.ClustersTile | src/fs/fat/fat16.c:360-363 | the clusters tile the disk from the first data sector on, cluster 2 first: each byte from there on is one byte of one cluster |
| Clusters.ContentAt | src/fs/fat/fat16.c:401-444 | byte r of cluster k of the file is byte r of the k-th cluster on the chain |
| Clusters.ContentOnDisk | src/fs/fat/fat16.c:360-363 | that is the byte of the disk at the data start plus (cluster - 2) cluster sizes plus r |
| Clusters.FatEntryStored | src/fs/fat/fat16.c:370-397 | an entry written as two bytes, low byte first, behind the reserved sectors is read back |
| Clusters.ClusterAtIff | src/fs/fat/fat16.c:401-444 | walking k links ends where the only path of k links ends, over entries that are not among the six stop values, and fails exactly if there is none |
| Clusters.ContentLength | src/fs/fat/fat16.c:401-444 | the file is as long as its clusters |
| Clusters.ReadTakes | src/fs/fat/fat16.c:455-483 | from which disk address the read takes each of its bytes |
| Clusters.FileHas | src/fs/fat/fat16.c:401-444 | at which disk address the file has each of its bytes |
| Clusters.RightIffAlignedOrContiguous | src/fs/fat/fat16.c:445-483 | the read gives the slice of the file, whatever the clusters hold, exactly if it is aligned or crosses between neighbours only |
| Clusters.MisreadSomewhere | src/fs/fat/fat16.c:461-461 | across other boundaries, changing one byte of the disk makes the read wrong |
| Clusters.WithinClusterIsContiguous | src/fs/fat/fat16.c:455-483 | a read inside one cluster is one of those |
| Clusters.ReadRefinesContent | src/fs/fat/fat16.c:445-483 | such a read gives exactly the slice of the concatenated clusters, on every chain and disk |
| Clusters.UnalignedReadMisses | src/fs/fat/fat16.c:461-461 | a disk and a read that gets a byte that is not the file's |
| Fat16.FatPrivate.GetFatEntry | src/fs/fat/fat16.c:370-397 | the little-endian entry of the cluster |
| Fat16.FatPrivate.GetClusterForOffset | src/fs/fat/fat16.c:401-444 | the cluster as many links on as the offset is clusters, or -EIO where a stop value comes first |
| Fat16.FatPrivate.ReadPiece | src/fs/fat/fat16.c:459-471 | one seek and one read: the bytes from the offset's place in the cluster on |
| Fat16.FatPrivate.ReadInternal | src/fs/fat/fat16.c:445-483 | writes what the piecewise read gives and no other byte, or reports -EIO; the recursion ends |
| Fat16.FatPrivate.Read | src/fs/fat/fat16.c:700-722 | n elements one behind the other and the position advanced, or an error and the position kept |
| Fat16.ElementsRefineContent | src/fs/fat/fat16.c:700-722 | elements whose size divides the cluster, from a multiple of the size, are the file's bytes on every chain |
| Fat16.WholeFileReadsAgree | src/task/process.c:333-333 | n elements of one byte and one element of n bytes give the same file |
| PathParser.PartsOfJoined | src/fs/pparser.c:111-163 | parts printed with slashes between them are parsed back |
| PathParser.PartsMaximal | src/fs/pparser.c:41-95 | the parts are non-empty, free of slashes, and a maximal prefix of the path |
| PathParser.PrintedPathParses | src/fs/pparser.c:111-163 | a printed drive and parts are accepted and parsed back in full, given the memory |
| PathParser.ShellPath | src/fs/pparser.c:8-95 | "0:/bin/shell", byte by byte, is drive 0 and the parts "bin" and "shell" |
| PathParser.GetDrive | src/fs/pparser.c:8-26 | the digit before ":/", or an error |
| PathParser.CreateRoot | src/fs/pparser.c:28-39 | a root with no parts in one new block, or null exactly without a free block |
| PathParser.CopyPart | src/fs/pparser.c:49-61 | the part's characters and a NUL in its 108-byte buffer, and the path pointer behind it |
| PathParser.GetPathPart | src/fs/pparser.c:41-70 | null exactly for an empty part or without memory, and then the heap's table is as before |
| PathParser.ParsePathPart | src/fs/pparser.c:72-95 | the list grows by exactly the next part, at a cost of two blocks, or the heap's table is as before |
| PathParser.Parse | src/fs/pparser.c:111-163 | refused paths leave the table; else the list holds drive and parts, cut where memory ends, in blocks of its own |
| PathParser.Free | src/fs/pparser.c:97-109 | exactly the blocks of the list are given back |
| PathParser.ParseAndFree | src/fs/pparser.c:97-163 | parse and free, on any path: the heap table and all memory in use are as before |
| Surface.PlotAllExact | src/graphics/graphics.c:385-397 | plotting points colours exactly those on the surface and in the clip |
| Surface.PlottedPixel | src/graphics/graphics.c:385-397 | the word at y * width + x is coloured exactly if (x, y) is plotted and in the clip |
| Surface.IndexInjective | src/graphics/graphics.c:385-397 | different points are different pixels |
| Surface.GraphicsSurface.SetPixel | src/graphics/graphics.c:385-397 | writes one pixel if it is on the surface and in the clip, else nothing |
| Line.DrawLine | src/graphics/graphics.c:409-443 | ends, and plots exactly the max(dx, dy) + 1 rounded points of the ideal line |
| Line.OnLineStep | src/graphics/graphics.c:431-441 | the error term steps the minor axis exactly when the line is more than half a pixel away |
| Line.LineEnds | src/graphics/graphics.c:409-443 | the first point is the start and the last one the end |
| Line.LineNeighbours | src/graphics/graphics.c:409-443 | each point is an 8-neighbour of the one before |
| Line.LineHalfPixel | src/graphics/graphics.c:409-443 | every point is within half a pixel of the line through the end points |
| Circle.DrawCircle | src/graphics/graphics.c:484-517 | plots exactly the eight reflections of the offsets its decision variable visits, and ends |
| Circle.VisitedInStep | src/graphics/graphics.c:494-516 | at every iteration of a circle of any radius the decision variable has its closed form and bounds |
| Circle.DecisionDrifts | src/graphics/graphics.c:506-515 | at every iteration it is 4x + 4(r - y) off the classical one |
| Circle.StatesClose | src/graphics/graphics.c:506-515 | from one iteration to the next y - x strictly decreases |
| Circle.OffsetsNearCircle | src/graphics/graphics.c:490-517 | every plotted offset is in the first octant, with -3r <= x^2 + y^2 - r^2 <= r |
| Circle.LastOffset | src/graphics/graphics.c:490-517 | the last state visited is next to the diagonal, and how far it is inside the circle |
| Circle.HalfPixelIffSmall | src/graphics/graphics.c:484-517 | all offsets are within half a pixel of the circle exactly for radii up to 4 |
| Circle.CircleSymmetric | src/graphics/graphics.c:496-504 | before clipping, the points are invariant under all eight octant reflections |
| Circle.PlottedNearCircle | src/graphics/graphics.c:490-517 | every plotted point has a squared distance from the centre between r^2 - 3r and r^2 + r |
| Circle.PolesPlotted | src/graphics/graphics.c:490-504 | the points straight above, below, left and right are plotted |
| Blit.BlitSurface | src/graphics/graphics.c:537-566 | every destination pixel is the source pixel over it, if rectangle and surfaces have one, else unchanged |
| Blit.BlitAlpha | src/graphics/graphics.c:603-630 | the same specification with blending; alpha 255 is BlitSurface's |
| Blit.OpaquePixels | src/graphics/graphics.c:537-566 | at full opacity, which word of the source each word of the destination gets, row by row |
| Blit.CopiedUnique | src/graphics/graphics.c:537-630 | the specification decides every pixel, so the two blits agree at alpha 255 |
| Blit.AlphaZeroKeeps | src/graphics/graphics.c:603-630 | alpha 0 changes nothing |
| Blit.MixBetween | src/graphics/graphics.c:706-710 | a blended channel lies between the two, up to one step of rounding |
| Blit.MixMonotone | src/graphics/graphics.c:706-710 | and does not decrease with either |
| Blit.MixMoves | src/graphics/graphics.c:706-710 | with more opacity it moves from the destination towards the source |
| Blit.MixEnds | src/graphics/graphics.c:706-710 | at opacity 254 it is the source within two steps, at 1 the destination |
| Blit.ChannelsRoundTrip | src/graphics/graphics.c:671-691 | a color taken apart into channels and put together is the same |
| Blit.BlendSameIff | src/graphics/graphics.c:693-713 | a color blended with itself is kept exactly if its red and blue are not from 1 to 3 and its green not from 1 to 15 |
| CStrings.CutAtDelimiter | assets/programs/stdlib/src/string.c:211-225 | a NUL in place of the first delimiter leaves the first token before it and the other tokens behind it |
| CStrings.TokensPartition | assets/programs/stdlib/src/string.c:172-228 | tokens are non-empty, without delimiters, and lose no other character |
| CStrings.TokensMaximal | assets/programs/stdlib/src/string.c:172-228 | in any string the tokens are all its runs that a delimiter or an end of the string bounds on both sides, in their order |
| CStrings.TokensOfSpaced | assets/programs/stdlib/src/string.c:172-228 | words set apart by delimiters are the tokens |
| Tokeniser.Strtok.FindDelimiter | assets/programs/stdlib/src/string.c:188-195 | the inner loop of both scans finds a delimiter exactly if the character is one |
| Tokeniser.Strtok.SkipLeading | assets/programs/stdlib/src/string.c:185-202 | the scan starts behind the leading delimiters |
| Tokeniser.Strtok.CutToken | assets/programs/stdlib/src/string.c:210-227 | the token is cut off by a NUL and the other tokens stay pending |
| Tokeniser.Strtok.Next | assets/programs/stdlib/src/string.c:173-228 | the first pending token, or null and the state cleared; a new string counts only after a finished scan |
| Tokeniser.Strncpy | assets/programs/stdlib/src/string.c:138-151 | the longest prefix that fits, with a NUL |
| Tokeniser.NewArgument | assets/programs/stdlib/src/vios.c:35-43 | a node with the token cut to 511 characters |
| Tokeniser.Append | assets/programs/stdlib/src/vios.c:35-45 | the list grows by exactly that node |
| Tokeniser.ParseCommand | assets/programs/stdlib/src/vios.c:4-50 | the list is the space-free runs of the first 1024 characters, as far as allocations go; state cleared exactly if they all succeed |
| Decimal.ParseNumeral | src/string/string.c:5-42 | %d output decodes back to the number |
| Decimal.DigitsShown | src/string/string.c:24-28 | the ten digits are the usual characters |
| Decimal.DigitsReversed | src/string/string.c:24-28 | the digits, least significant first, at most ten |
| Decimal.IntToStr | src/string/string.c:5-42 | the numeral and a NUL, inside 32 characters |
| Snprintf.KernelElement | src/string/string.c:238-312 | one format element is rendered in full and written as far as it fits |
| Snprintf.KernelSnprintf | src/string/string.c:230-328 | returns the length of the whole rendering; writes its longest prefix fitting in size - 1, and a NUL |
| Snprintf.UserElement | assets/programs/stdlib/src/string.c:257-311 | the same for the user library's loop, which stops writing at the end of the buffer |
| Snprintf.UserSnprintf | assets/programs/stdlib/src/string.c:249-316 | writes the longest fitting prefix and a NUL, and returns its length |
| Snprintf.ElementPrinted | src/string/string.c:243-308 | a string argument is printed character by character, a null one as "(null)", a number as its numeral, and the rest of the format as without it |
| Snprintf.PlainFormat | src/string/string.c:243-249 | a format without percent signs is printed as it is |
| Snprintf.RenderPrints | src/string/string.c:230-328 | every format with its arguments is a sequence of such elements, and the rendering is theirs in order |
| Snprintf.UserRenderPrints | assets/programs/stdlib/src/string.c:249-316 | the same for the user library, where a character argument is printed by its low byte |
| Snprintf.RenderingsAgree | src/string/string.c:230-328 | formats without %% and %c mean the same to both |
| Snprintf.SnprintfsAgree | assets/programs/stdlib/src/string.c:249-316 | on those, and size >= 1, the two leave the same bytes |
| TaskList.Queue.New | src/task/task.c:43-53 | the task is appended, next links kept, prev links right exactly if they were, and it runs if it is the first |
| TaskList.Queue.GetNext | src/task/task.c:65-73 | the successor, or the head after the tail |
| TaskList.FittingSkips | src/task/task.c:75-90 | with a fitting prev link the ends and next links are those of the sequence without the task |
| TaskList.UnfitBreaks | src/task/task.c:75-90 | with any other prev link they are not |
| TaskList.BackWithout | src/task/task.c:75-90 | in a doubly linked list every prev link fits, and only the tail leaves none behind that is wrong |
| TaskList.Queue.Unlink | src/task/task.c:75-90 | the next links skip the task exactly if its prev link fits, and no prev link changes |
| TaskList.Queue.Remove | src/task/task.c:75-96 | the task leaves the sequence and current stays a member; the next links are right exactly if its prev link fits; doubly linked exactly if it was the tail |
| TaskList.Queue.RemoveNeighbours | src/task/task.c:75-96 | removing two neighbours behind the head breaks the next links |
| TaskList.Queue.SwitchTasks | src/task/task.c:108-125 | n switches run the task whose turn it then is |
| TaskList.TurnWithinRound | src/task/task.c:65-73 | whose turn it is within a round, in closed form |
| TaskList.RoundVisitsAll | src/task/task.c:65-73 | as many switches as tasks visit each task once and come back to the first |
| TaskMemory.TaskNew | src/task/task.c:27-63 | struct and address space are new chains, no block in use loses a word, all pages and directory entries have the flags 5 and the latter also the writable bit, and the task is the last of the queue |
| TaskMemory.TaskFree | src/task/task.c:98-106 | exactly these chains are gone, the queue is as after the removal, and which task is current and which the head |
| TaskMemory.NewThenFree | src/task/task.c:27-106 | a task made and freed leaves every byte of the heap table and the queue as before |

## Left out

What a contract asks of its caller, or does not capture:

- Heaps.Heap.Malloc: asks that a fit exists or the last block is taken, because otherwise the code marks past the end of its table; `MarkingInsideIffSafe` is the exact condition.
- Processes.Process.Malloc: sizes of 0 and above 0xfffff000 are excluded, because they round to no block at all, and the short trailing run as for the heap.
- AddressSpace.New4Gb: asks for 1026 free blocks, because the code does not look at the results of its allocations.
- TaskStrings.CopyStringFromTask: a maximum of 0 or below is excluded, and the destination is a kernel buffer outside the heap. Present and user bits are not checked on reads. The exact condition is for tasks that have the temporary page mapped to itself, as `paging_new_4gb` and `process_malloc` leave it; for other maps strings off the page are covered.
- Processes.Process.Free: the null pointer is excluded; an empty slot would match it, and the heap would then clear bytes in front of its table. The system call refuses it before.
- KHeap.KZAlloc: sizes above 0xfffff000 are excluded; they round to no block, and the clearing then runs over all memory.
- ProgramMemory.ProgramSeesImage: segments share no page with each other or the stack, and end below the last page of the address space.
- Fat16.FatPrivate.ReadInternal: the clusters the read goes to do not start in front of the disk; positions are not wrapped at 32 bits, and reading a sector never fails.
- Line.DrawLine: coordinates are unbounded, so overflow of the error term is not modelled. The same holds for Circle and Blit.
- Blit.BlitSurface: source and destination buffers are different; null surfaces, which the code ignores, are not modelled.
- Snprintf.KernelSnprintf: formats ending in a lone percent sign and the smallest int are excluded, and the arguments have the types the format asks for. Stack scratch arrays are heap arrays of the same length.
- Tokeniser.ParseCommand: starts with no unfinished scan; `Strtok.Next` covers the other case. The user heap is a number of allocations that succeed.
- TaskList.Queue.Remove: a removed task is still an object; that its memory may be given to a new task is not modelled.
- TaskMemory.TaskNew: asks for the 1027 blocks it takes; without them the code goes on with null pointers. Registers and the process pointer are left out.
- Histories.History: a process's table of allocations is an array of its own, and a process that does not fit is not made.
- PathParser.Parse: the path is a string outside the heap. The fixed 108-byte limit on paths and parts is modelled.

What is not modelled:

- Ports and devices (ATA, serial, timer, clock, sound, keyboard, mouse, interrupt controllers) and all assembly: hardware effects.
- Interrupts during the modelled calls: each runs to completion.
- FAT directories, fopen's clean-up, deleted entries, the root directory's layout arithmetic, ELF header validation: shallow, or without a property the code keeps.
- graphics_fill_rect, graphics_clear_surface, graphics_draw_rect, BCD conversions, GDT encoding: easy members.
- graphics_fill_circle, graphics_blit_scaled, fpu_math.c: floating point.
- Terminals, fonts, demos, the main loop and the VIX system-call handlers: user interface and argument unpacking.
- Process loading beyond mapping, process arguments, keyboard buffers, task registers and task_return: plain field copies or CPU state.
- Loops are the code's own; some loop bodies are methods of their own, and paging_map_range's break is part of its loop condition.

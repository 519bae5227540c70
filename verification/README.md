# guavaOS: memory, storage and processes

guavaOS is a 32-bit kernel. This project models the stack that turns a path on a FAT16 disk into a running
process, and proves what each layer promises the next:

- a first-fit block heap over an entry table (`HeapTable`, `Heap`, `Kheap`);
- two-level page tables whose tables are heap blocks (`PageTables`, `Paging`, `AddressSpace`);
- FAT16 reading over a sector stream (`Streamer`, `Pieces`, `Fat16`, `Offsets`, `Directory`, `Lookup`), and
  mounting, which turns the bytes of a disk into what the reads rely on (`Mounting`), against boot sector,
  directory entries, regions and clusters written as the FAT specification lays them out (`Layout`);
- paths parsed into linked lists in heap blocks (`Paths`, `PathParser`, `Strings`);
- open files, loading, tasks and processes (`Files`, `Loading`, `Tasks`, `TaskLife`, `Processes`);
- processes beside one another: loading one and running others leaves each in its own memory (`Isolation`), and
  what a process can notice of the others (`Interference`);
- whole runs of the machine, in which loads, turns, switches and copies come in any order (`Histories`);
- copying a string out of another address space (`CopyString`), one of a running process among others
  (`CopyBeside`);
- the keyboard ring (`Keyboard`), the segment descriptors (`Gdt`), and how a process starts with them (`UserMode`).

Run `dafny verify dfyconfig.toml` to check all of it.

How it is put together:

- Physical memory is one array of 2^32 bytes. Page tables, path lists, directory items, file descriptors and
  tasks with their links are words in it, reached through pointers that are loaded, masked and followed, as the
  kernel does. Heap block `b` is page `AreaOf(heap).first + b`.
- What a table, a directory or a chain means is a value: `HeapTable.Represents` relates an entry table to a map
  of live allocations, `PageTables.Entry` is what two lookups find in memory read as words, `Tasks.ChainAt` is
  the list that the links make. The methods that loop over arrays are proved against functions on these values,
  and the theorems are about the functions.
- `Growth` carries what a call did to heap and memory in one relation that composes: which blocks became live
  (`Grew`), that nothing live and nothing outside the heap was freed or written (`Kept`), how much of any free
  run is left (`Spared`). Definitions marked "Folded" are guarded by `Unfolded(topic, k)`, so that callers that
  only pass them on do not carry their quantifiers.
- A process's `Space` is the pages of its directory, program and stack. `Isolation.AllRun` says that all spaces
  are live, disjoint and apart from the tasks. `Histories.Sound` adds the heap's table and the task list;
  `EveryRun` keeps it over any sequence of loads, turns, switches and copies, and the methods for these calls are
  such steps (`LoadNext`, `CopyNext`, `SwitchNext`).
- `Loading.Quote` and `Bill` are what a load can ask for and what it comes to, each said by one folded predicate, so
  that the layers above work with four numbers.
- Numbers are unbounded and 32-bit wrap-around is written out (`Wrap`, `Int32`, `OrWord`, `Next`, `Plus`).

Where the code does less than it means to, the line is modelled as written and the exact condition proved:

- the search hands out a free tail that is too short (`HeapTable.SearchIsSoundIff`, `ShortTailCounterexample`),
  and sizes above 0xFFFFF000 wrap (`Heap.BlocksIsCeilingIff`);
- sector-stream reads are right exactly in place (`Streamer.CorrectIffInPlace`); file reads from inside a
  cluster exactly if they end in that cluster and are in place in it (`Offsets.AlwaysRightIff`), because the
  first piece is cut neither where the cluster nor where the sector ends;
- the data area starts too early unless the root directory fills its sectors (`Fat16.Header.EndingSectorIsRightIff`);
- the position of a FAT entry is a product where a sum is meant (`Fat16.EntryPositionIsRightIff`), the walk tests
  12-bit markers, so that it goes past the ends that FAT16 writes and refuses links to clusters with such numbers
  (`Fat16.StopsAtEndsIff`), and the halves of the first cluster are or-ed without a shift
  (`Lookup.FirstClusterIsRightIff`); the theorems on chains hold for whatever the lookup reads;
- entries behind deleted ones can be missed (`Directory.LookupSeesAllIff`); names are cut at the first blank,
  run on if there is none, and keep 0x05 for 0xE5 (`Directory.NameIsRightIff`);
- removal from the task list leaves a stale link in the task behind; removing that one is unsound, unless it has
  become the first and its stale link points to no live task, as it can once the block is handed out again
  (`Tasks.RemovedChainIff`, `ReusedBlock`). Which histories stay sound follows from the operations alone
  (`Tasks.HistoryThenDrop`), and a stray write hits another allocation exactly as `TaskLife.StrayWriteIff` says;
- a process writes nothing but its own program and stack, but every page is readable by every process, so that one
  can notice another (`Interference.SeesOthersProgram`); it runs as if alone exactly if it does not look
  (`Interference.AsIfAloneIff`);
- a program above 0x1FF000 bytes takes the place of the kernel's stack, from its top page down, in its own directory
  (`AddressSpace.KernelStackKeptIff`);
- the keyboard ring has neither a full nor an empty check (`Keyboard.PushAppendsIff`, `BackspaceErasesIff`).

Kept as written without a theorem of their own: reading does not advance a file's position; the highest
descriptor slot can be taken but not used; paths parsed by `fopen`, and all matches but the last, are never
freed (their blocks are counted in `OpenUsed`).

## Model

| member | source | states |
|---|---|---|
| `Histories.EveryRun` | src/task/process.c:148-253 | Over any sequence of loads, made or failed, turns of processes, task switches and string copies, the machine stays sound: the heap's table records the allocations, the tasks are chained, the processes run in disjoint live address spaces, and the next call can be made |
| `Histories.OwnTurnsOnly` | src/task/process.c:148-253 | Over any such sequence a process's memory is what its own turns alone make of it |
| `Histories.LivesAlone` | src/task/process.c:148-253 | A program that chooses each read and write by what it has read, and alone reads only from its own program and stack, finds over any such sequence what it would have found alone, and its memory holds the same |
| `Histories.StepKeeps` | src/task/process.c:148-253 | Each of these steps keeps the machine sound |
| `Histories.ForeignSpares` | src/task/process.c:148-253 | No step but a process's own turn changes a page of its address space, or its task's link to that |
| `Histories.LoadNext` | src/task/process.c:148-253 | `process_load` is such a step, whether it makes a process or fails |
| `Histories.CopyNext` | src/task/task.c:129-169 | `copy_string_from_task` of a process's own string is such a step, or is refused without effect |
| `Histories.SwitchNext` | src/task/task.c:104-109 | So is a switch to the next task |
| `Interference.AsIfAloneIff` | src/task/task.c:210-220 | For programs that choose each read or write by what they have read so far: beside any other programs, under every interleaving, a process finds what it would have found alone and its address space holds the same, exactly if alone it reads no address outside its own ranges that another's program or stack is kept at |
| `Interference.SeesAnothersStoreIff` | src/task/task.c:210-220 | Some store of another process changes the byte that a process finds at an address exactly if the address is outside its own ranges and in another's program or stack, since every directory starts as the identity, readable by all |
| `Interference.SeesOthersProgram` | src/task/task.c:210-220 | A witness: what a process stores at 0x400000, every other process finds at the physical address of its program, unless it has something of its own there |
| `Isolation.OwnStoresOnly` | src/task/process.c:96-131 | However the stores of running processes interleave, each process's memory is what its own stores, as recorded in the run, make of it: integrity of writes, with nothing said of what a process reads |
| `Isolation.StoresKeep` | src/task/process.c:96-131 | Over every interleaving of stores all processes keep their address spaces, pairwise disjoint and live |
| `Isolation.StoresSpare` | src/task/process.c:96-131 | No store of any process reaches a page that is not some process's program or stack: not the kernel, a task, a page table, or another allocation |
| `Isolation.StoresKeepList` | src/task/task.c:16-101 | So the task list is as sound after any such run as before |
| `Isolation.StoresStayInside` | src/task/process.c:96-131 | By directory word and table entry together, the pages that a process may write are exactly those of its program and its stack, and they lead to the pages of its own two allocations; it may read every page |
| `Isolation.LoadBeside` | src/task/process.c:148-253 | `process_load` while other processes run, fragmented and nearly full heaps included (`CanLoad`): whether it succeeds or fails, and with -ENOMEM for each of its three checked requests, every process runs on with every page of its address space untouched, and the new one runs beside them, disjoint from all |
| `Isolation.LoadIsolates` | src/task/process.c:178-253 | A load that succeeds adds an address space disjoint from every other and from every task, and touches no page of theirs |
| `Isolation.JoinedIsolates` | src/task/process.c:178-253 | The same for whatever joins in pages that were vacant, with its task behind the others |
| `Isolation.FailedLoadIsolates` | src/task/process.c:178-253 | A load that fails leaves every address space as it was |
| `Isolation.StillShows` | src/task/process.c:96-131 | A process whose pages are untouched sees the same bytes at the same addresses |
| `Processes.LoadForSlot` | src/task/process.c:178-253 | For a free slot and a heap where each request is served or checked (`CanLoad`: one long run, or a taken last block with enough single ones): 0 exactly if the file can be loaded and the process block, the file's memory and the stack are had, otherwise exactly which of -ENOMEM and -EIO, and in one long run exactly if the file can be loaded. The process then sees byte i of the file at 0x400000+i, zeros on the 16 KiB below 0x3ff000 and every other page at its own address with the flags of `task_init`. The blocks taken, those that a failure loses included, are given exactly; a failure touches nothing that was there |
| `Processes.SlotResultIs` | src/task/process.c:178-253 | Success exactly if the file can be loaded and all three checked requests are served; if one run is long enough for everything, exactly if the file can be loaded |
| `Processes.TaskIsHad` | src/task/process.c:207-227 | Once the file is loaded, enough blocks are free for the stack and for the task, whose allocations the source does not check |
| `Processes.Load` | src/task/process.c:148-163 | The same into the least free slot; with none free, -EISTKN and nothing changed |
| `Processes.LoadIntoProcess` | src/task/process.c:191-205 | The process block and the file's bytes; -ENOMEM with nothing changed exactly if the process block is not had; what follows is still served or refused |
| `Processes.LoadStackAndTask` | src/task/process.c:207-230 | No stack and nothing changed exactly if no run of four blocks is free. Otherwise stack and address space built around a loaded file leave its bytes alone; the new directory is live, apart from both, and maps them |
| `Processes.FinishProcess` | src/task/process.c:207-240 | All that follows the loading of the file, told from before it: no stack and nothing changed, or a process whose whole address space was vacant then and shows the file |
| `Processes.NewProgramTask` | src/task/process.c:221-230 | From `task_new` to the two mappings: the directory is owned, maps binary and zeroed stack, both of which survive, and the task is in the list with no page in common with any directory page |
| `Processes.AliveShows` | src/task/process.c:96-131 | A live directory with those entries shows the process what is stored at the two places, and nothing else moved |
| `Processes.AliveSame` | src/task/process.c:96-131 | An address space stays one while none of it is freed and no page of its directory is written |
| `Processes.SpaceTaken` | src/task/process.c:178-253 | No page of an address space is vacant, so nothing that is allocated later shares one |
| `Processes.GetFreeSlot` | src/task/process.c:134-145 | The least free slot, or -EISTKN exactly if there is none |
| `TaskLife.NewTask` | src/task/task.c:62-101 | A block and 1026 more, all new and disjoint from what was live, none of them a page of another task; the directory is the identity; the task is last in the list with a right back link, and only the last task's link was written outside the new blocks |
| `TaskLife.FreeTask` | src/task/task.c:51-59 | Frees exactly the directory's blocks and the task's own; memory is that of `Bypassed`, which writes through the task's back link wherever it points; the list is sound afterwards exactly if `Leaves` held |
| `TaskLife.StrayWriteIff` | src/task/task.c:27-59 | Freeing a task changes a page in use other than its predecessor exactly if its link back is stale, to a page in use, and the word there differs |
| `TaskLife.TaskLifeCycle` | src/task/task.c:51-101 | New, edited in any way any number of times, freed: block table and list are what they were |
| `Loading.LoadBinary` | src/task/process.c:44-84 | The answer is exactly that of `LoadResult` at the block table when memory for the contents is asked for, -ENOMEM included; the fresh allocation holds the content and no earlier allocation was freed, moved or written; on every outcome the descriptor table and the exact number of blocks used, and lost, are given |
| `Loading.LoadResultIs` | src/task/process.c:44-84 | 0 exactly if the path leads to a readable non-empty file, a reachable descriptor slot is free and a run for the contents is; else -EIO or -ENOMEM |
| `Loading.BillIs` | src/task/process.c:44-84 | The same of the folded account that loading hands on, and a bound on the blocks it takes |
| `Loading.LoadAndClose` | src/task/process.c:55-83 | Read and closed, success or not, what was live before the file was opened is spared |
| `Loading.LoadOpened` | src/task/process.c:55-78 | Size, allocation and read: an unreachable descriptor, an empty file or an unreadable chain each fail |
| `Loading.LoadBytes` | src/task/process.c:63-78 | -ENOMEM with nothing taken exactly if no run is long enough for the file's size, which cannot have wrapped then; otherwise a new allocation of just that size that holds exactly the chain's bytes, or -EIO |
| `Loading.LoadNothing` | src/task/process.c:63-75 | An empty file always fails and leaves heap and memory as they were |
| `Loading.ContentIsChain` | src/fs/fat/fat16.c:314-353 | What is loaded is the first `filesize` bytes of the concatenated clusters of the chain |
| `AddressSpace.MapMemory` | src/task/process.c:96-131 | The two mappings of a process, results ignored, are the two edits of `LaidOut` |
| `AddressSpace.LaidOutEntries` | src/task/process.c:96-131 | Over the identity: program pages, stack pages, and every other entry unchanged |
| `AddressSpace.EntriesTranslate` | src/task/process.c:96-131 | Program address 0x400000+i and stack address 0x3fb000+i translate to byte i of binary and stack |
| `AddressSpace.EntriesShow` | src/task/process.c:96-131 | What is stored at the two places is what the process sees |
| `AddressSpace.LaidOutProgram` | src/task/process.c:96-131 | Laying out a fresh directory makes every one of its entries what a process needs |
| `AddressSpace.ProgramIsOpen` | src/task/process.c:96-131 | In a process's directory every page can be read by a program, and exactly the program's and the stack's can be written |
| `AddressSpace.EntryKeptIff` | src/task/process.c:96-131 | A page keeps the identity entry that `task_init` gave it exactly if it is none of the program's and the stack's |
| `AddressSpace.KernelStackKeptIff` | src/kernel.c:151 | The kernel's stack below 0x600000, down to any page from 0x400 on, keeps the identity entries in a process's directory exactly if the program ends below that page; its top page alone, exactly for programs up to 0x1FF000 bytes |
| `CopyString.CopyStringFromTask` | src/task/task.c:129-169 | For 0 < max < 4096: the prefix of at most max-1 characters seen through the page tables of the source arrives, terminated, at the destination; the page tables and the block table are exactly as before, and no other byte outside the lent block differs. The string only has to be apart up to its terminator. max >= 4096 gives -EINVARG, a full heap -ENOMEM, both without effect |
| `CopyString.SeenIs` | src/string/string.c:122-134 | The string seen is the bytes at successive addresses, each translated by itself, up to the first 0 |
| `CopyBeside.CopyFromProcess` | src/task/task.c:129-169 | For a process that runs beside others and a string in its own program and stack, off the block that is lent: the string arrives, block table and live allocations are as before, and every process runs on untouched |
| `CopyBeside.MayCopyOwn` | src/task/task.c:129-169 | Such a string, and a place clear of processes and tasks, meet all that the copy asks for |
| `CopyString.Deliver` | src/task/task.c:147-162 | Both copies, with everything else in memory unchanged |
| `CopyString.CopyIntoPage` | src/task/task.c:147-154 | Lend, copy under the other directory, take back: only the lent page differs, and it holds the string |
| `CopyString.LendPage` | src/task/task.c:147-149 | The string looks the same through the directory with the page lent |
| `CopyString.TakePageBack` | src/task/task.c:148-154 | Restoring the saved entry restores every word of the page tables |
| `CopyString.StrNCpyThrough` | src/string/string.c:122-134 | `strncpy` through an address space: reads and writes by translated addresses deliver what was seen before the copy began |
| `CopyString.StrNCpy` | src/string/string.c:122-134 | `strncpy` of a terminated string writes it and its terminator and nothing else |
| `CopyString.SeenAlike` | src/task/task.c:147-151 | A string apart, up to its terminator, from the page tables and the lent page is seen unchanged after the mapping |
| `HeapTable.EveryRunIsSafe` | src/memory/heap/heap.c:75-192 | After any run of allowed malloc and free calls the table is well formed, decodes to exactly the live allocations, and free plus used is total |
| `HeapTable.RepresentsIffWellFormed` | src/memory/heap/heap.c:117-171 | A table records some set of disjoint, in-bounds allocations exactly if every entry is locally well formed, and decoding finds that set |
| `HeapTable.SearchIsFirstFit` | src/memory/heap/heap.c:75-108 | The least start of n free blocks if there is one; otherwise the start of the too-short free tail |
| `HeapTable.SearchIsSoundIff` | src/memory/heap/heap.c:75-108 | The blocks returned are free, in bounds and as many as asked for exactly if a run exists, the last block is taken, or n is 0 |
| `HeapTable.SearchFailsIff` | src/memory/heap/heap.c:101-107 | -ENOMEM exactly if the last block is taken and no run exists (or n is 0) |
| `HeapTable.OneBlockFits` | src/memory/heap/heap.c:75-108 | For one block the search is always sound |
| `HeapTable.ShortTailCounterexample` | src/memory/heap/heap.c:104-107 | Two blocks asked for, one at the end handed out |
| `HeapTable.FreeUndoesMalloc` | src/memory/heap/heap.c:117-192 | Malloc, any allowed calls, then free: exactly that allocation's chain is cleared and no neighbour |
| `HeapTable.AllocationSurvives` | src/memory/heap/heap.c:117-192 | Calls that do not free an allocation neither move nor shorten it |
| `HeapTable.Conservation` | src/memory/heap/heap.c:117-171 | Free blocks and blocks in use add up to the table |
| `HeapTable.BlocksTaken` | src/memory/heap/heap.c:117-135 | An allocation of n blocks takes exactly n from the free ones |
| `HeapTable.BlocksGiven` | src/memory/heap/heap.c:158-171 | Freeing gives back exactly as many as the allocation had |
| `HeapTable.StepRepresents` | src/memory/heap/heap.c:117-192 | Each allowed call keeps the table the table of the live allocations |
| `HeapTable.TakeRepresents` | src/memory/heap/heap.c:117-135 | Marking a free run adds one allocation, disjoint from the others |
| `HeapTable.ClearRepresents` | src/memory/heap/heap.c:158-171 | Freeing a first block removes exactly its allocation |
| `HeapTable.TableIsDetermined` | src/memory/heap/heap.c:117-171 | Equal live allocations, equal tables byte for byte |
| `HeapTable.RoomAfterTake` | src/memory/heap/heap.c:75-108 | A request meets a long enough run and shortens it by at most its own size |
| `HeapTable.OneBlock` | src/memory/heap/heap.c:75-108 | With a block free, a request for one succeeds and uses one |
| `Heap.BlocksIsCeilingIff` | src/memory/heap/heap.c:57-66 | The size is rounded up to whole blocks exactly up to 0xFFFFF000; beyond it wraps to a request for none |
| `Heap.Heap.Create` | src/memory/heap/heap.c:30-55 | Unaligned ends are refused without effect; a table of the wrong size is refused although the heap has been filled in; otherwise every entry is free and the heap is valid |
| `Heap.Heap.AddressesInvert` | src/memory/heap/heap.c:111-177 | Block and address conversions invert each other on the heap |
| `Heap.Heap.GetStartBlock` | src/memory/heap/heap.c:75-108 | The one-pass scan with its two counters is the first-fit search `StartBlock` |
| `Heap.Heap.MarkBlocksTaken` | src/memory/heap/heap.c:117-135 | Writes FIRST, HAS_NEXT and the last entry of one allocation and nothing else |
| `Heap.Heap.MarkBlocksFree` | src/memory/heap/heap.c:158-171 | Clears the chain from the block and nothing else |
| `Heap.Heap.Malloc` | src/memory/heap/heap.c:138-186 | Address of the first fit or 0; table and live allocations move together; the new blocks are disjoint from every live allocation |
| `Heap.Heap.Free` | src/memory/heap/heap.c:189-192 | The allocation at the pointer is gone from table and live allocations, nothing else |
| `Kheap.KheapInit` | src/memory/heap/kheap.c:18-32 | The configured heap of 25600 blocks is valid, empty, and one free run |
| `Kheap.Kzalloc` | src/memory/heap/kheap.c:41-50 | The block is zeroed as far as asked for, no other byte is written |
| `Kheap.KzallocSmall` | src/memory/heap/kheap.c:41-50 | Up to a block: fails only on a full heap; the page is reached by no live allocation |
| `Growth.NewBlocks` | src/memory/heap/kheap.c:41-50 | Any size above 0, on a heap that serves or refuses it: 0 and nothing changed exactly if no free run is long enough; otherwise new blocks of the heap that no allocation reaches, zeroed, exactly as many fewer free, nothing else written |
| `Paging.DirectoryLifeCycle` | src/memory/paging/paging.c:8-195 | Build a directory, apply any sequence of set/map/map_range/map_to, look an address up, free: the lookup is what the edits make of the identity, and the block table is byte for byte what it was |
| `PageTables.EditsRefine` | src/memory/paging/paging.c:82-183 | Over any sequence, editing the two-level tables in memory refines editing a map from pages to entries |
| `PageTables.EditsKeepTables` | src/memory/paging/paging.c:82-183 | No sequence of edits, accepted or rejected, moves a table or writes outside the tables |
| `PageTables.EditEffect` | src/memory/paging/paging.c:82-183 | One edit of any of the four kinds, on every page |
| `PageTables.SetEntryEffect` | src/memory/paging/paging.c:82-102 | Setting one page changes the entry of that page and of no other |
| `PageTables.SlotsDiffer` | src/memory/paging/paging.c:64-102 | Different pages have different words, and none is a directory word |
| `PageTables.MapRangeEffect` | src/memory/paging/paging.c:128-145 | Page k of the range maps to page k of the physical range, every other page keeps its entry; wrap-around included |
| `PageTables.MapToEffect` | src/memory/paging/paging.c:148-183 | Accepted, exactly the pages of phys..phys_end appear at virt with the flags; rejected, nothing changes |
| `PageTables.FilledIsIdentity` | src/memory/paging/paging.c:8-28 | Directory words pointing at distinct filled tables make an identity mapping |
| `PageTables.DirectoryWordPage` | src/memory/paging/paging.c:21-36 | The table address comes back from under the flag bits |
| `Words.PageMask` | src/memory/paging/paging.c:98 | Masking with 0xfffff000 clears exactly the low 12 bits |
| `Words.OrKeepsPage` | src/memory/paging/paging.c:18-21 | Or-ing in flags below 4096 leaves the page number alone |
| `Words.StoringAWord` | src/memory/paging/paging.c:97-100 | Four little-endian byte stores replace one word of memory and no other |
| `Paging.MaskAddress` | src/memory/paging/paging.c:97-98 | The address part of an entry is the page it points to |
| `Paging.GetIndexes` | src/memory/paging/paging.c:64-78 | Indexes of an aligned address, which they make up again; unaligned is refused |
| `Paging.PagingSet` | src/memory/paging/paging.c:82-102 | The table word found through the masked directory word is replaced; unaligned addresses change nothing |
| `Paging.PagingGet` | src/memory/paging/paging.c:186-195 | The entry of an aligned address, and of page 0 for any other, since the refused indexes are 0 |
| `Paging.PagingMap` | src/memory/paging/paging.c:105-113 | The edit `Map`; unaligned addresses change nothing |
| `Paging.PagingMapRange` | src/memory/paging/paging.c:128-145 | The edit `Range`, page by page with wrapping pointers; none for a negative count |
| `Paging.PagingMapTo` | src/memory/paging/paging.c:148-183 | The edit `To`, with every rejected case |
| `Paging.FillTable` | src/memory/paging/paging.c:16-19 | The inner loop fills the i-th table of the identity and writes nothing else |
| `Paging.BuildTables` | src/memory/paging/paging.c:13-22 | 1024 new blocks, distinct from each other and from the directory, linked from it |
| `Paging.PagingNew4Gb` | src/memory/paging/paging.c:8-28 | 1026 new blocks; every page maps to itself or-ed with the flags, and every directory word allows what the flags do, and writing |
| `PageTables.EditsPermit` | src/memory/paging/paging.c:8-183 | By section 4.6.1 of the Intel SDM Vol. 3A: after any edits of a new directory, what a program may read and write is decided by its flags and the edited entry; no directory word stands in the way |
| `PageTables.EntryDecides` | src/memory/paging/paging.c:8-28 | The same of any directory whose words allow what the flags do |
| `PageTables.DirectoryWordGrants` | src/memory/paging/paging.c:21 | A directory word is present and open to programs exactly if the flags say so, and always writable |
| `Paging.PagingFree4Gb` | src/memory/paging/paging.c:31-42 | Frees exactly the chunk, the directory and the tables found under the masks |
| `Streamer.CorrectIffInPlace` | src/disk/streamer.c:29-58 | Whatever lies around the sector buffer, the right bytes come out: exactly for reads that are sector-aligned or stay in one sector |
| `Streamer.DeliveredInPlace` | src/disk/streamer.c:29-58 | In place, the recursive read is the slice of the disk, and fails exactly if its last sector is not on it |
| `Streamer.ReadsCompose` | src/disk/streamer.c:29-58 | Two consecutive reads in place are one |
| `Streamer.DiskStream.Read` | src/disk/streamer.c:29-58 | From any position, negative ones too: the bytes `Delivered`, those around the sector buffer included, or -EIO; nothing outside the output range is written |
| `Streamer.DiskStream.ReadInPlace` | src/disk/streamer.c:29-58 | A read in place: exactly the bytes of the disk, position and -EIO |
| `Offsets.AlwaysRightIff` | src/fs/fat/fat16.c:314-353 | A read from r bytes into a cluster delivers the file's bytes on every medium and whatever lies around the sector buffer, exactly if r is 0, or it ends inside the cluster and is in place there (from a sector boundary or inside one sector) |
| `Fat16.Disk.GetFatEntry` | src/fs/fat/fat16.c:239-266 | The value at the computed position, or -EIO |
| `Fat16.Disk.GetClusterForOffset` | src/fs/fat/fat16.c:270-313 | The (offset / cluster size)-fold link, or -EIO exactly if one of those links is a stop value |
| `Fat16.Disk.ReadPiece` | src/fs/fat/fat16.c:314-344 | Up to one cluster's worth from any byte of the k-th cluster, after walking the chain from its start: what the stream delivers there, or -EIO |
| `Fat16.Disk.ReadInternalFromStream` | src/fs/fat/fat16.c:314-353 | The recursive read from any offset is the pieces of the chain joined, or -EIO; nothing beside the output range is written |
| `Fat16.Disk.ReadInternal` | src/fs/fat/fat16.c:355-361 | The same with the offset given as one number, from any byte of the chain |
| `Fat16.Disk.Read` | src/fs/fat/fat16.c:567-589 | From any position, nmemb items of any size one after the other, or the first error; the position itself is not advanced |
| `Fat16.AlignedReadIsSlice` | src/fs/fat/fat16.c:314-353 | A cluster-aligned read is exactly bytes [offset, offset+total) of the concatenated clusters |
| `Layout.FileInOnePiece` | src/fs/fat/fat16.c:229-353 | A file whose links lead from each cluster to the next is one slice of the disk, from its first cluster's start on |
| `Fat16.AlignedReadSucceedsIff` | src/fs/fat/fat16.c:270-353 | It succeeds exactly if the walk to its last cluster meets no stop value, on cyclic chains too |
| `Fat16.Header.EndingSectorIsRightIff` | src/fs/fat/fat16.c:87-128 | The data area starts where the FAT specification says exactly if the root directory fills its sectors |
| `Layout.BootReadBack` | src/fs/fat/fat16.h:32-69 | A boot sector written field by field, in the specification's order: what mounting reads are the fields written, and the signature |
| `Layout.RootIsWhereItShouldBe` | src/fs/fat/fat16.c:87-128 | The root directory that mounting reads begins behind the reserved sectors and all copies of the FAT that the boot sector's fields tell of, and is 32 bytes per entry, all in the root region |
| `Layout.RootIsBehindFats` | src/fs/fat/fat16.c:91 | The root directory begins where the last copy of the FAT ends, each copy beginning where the one before ends |
| `Layout.OneRegion` | src/fs/fat/fat16.c:87-128 | Every sector is in exactly one of: reserved sectors, one copy of the FAT, root directory, data area |
| `Layout.NextCluster` | src/fs/fat/fat16.c:229-232 | Cluster 2 begins the data area; every cluster begins where the one before ends |
| `Layout.ClustersApart` | src/fs/fat/fat16.c:229-232 | No sector is in two clusters |
| `Layout.ClustersAreDataIff` | src/fs/fat/fat16.c:125-232 | All clusters are in the data area exactly if the root directory fills its sectors |
| `Fat16.EntryPositionIsRightIff` | src/fs/fat/fat16.c:239-266 | With up to 3328 reserved sectors and any 16-bit cluster, the product, wrapped to 32 bits, is the position of the FAT entry exactly without reserved sectors and for entry 0 |
| `Fat16.ProductIsNeverSum` | src/fs/fat/fat16.c:239-266 | In 32-bit words, for every number of reserved sectors and every cluster, the product is the sum only if both are 0 |
| `Layout.LinkReadBack` | src/fs/fat/fat16.c:239-266 | An entry of the FAT written, low byte first, where it is looked up is read back, for just the clusters that are looked up there, and changes no other link |
| `Fat16.StopsAtEndsIff` | src/fs/fat/fat16.c:280-301 | The walk stops where the chain of a volume with clusters 2..last ends (free, reserved, bad, past the last, end of chain), at every length, exactly if each entry on the way is a link without a 12-bit marker's number, or an end with one or 0 |
| `Pieces.GatherSucceedsIff` | src/fs/fat/fat16.c:314-353 | Pieces can be had up to the last exactly if nothing stops the walk to it |
| `Pieces.GatherJoins` | src/fs/fat/fat16.c:314-353 | A read of whole pieces and a rest is the two reads joined |
| `Pieces.ItemsAreOneRead` | src/fs/fat/fat16.c:567-589 | Any number of items of whole clusters is one read of all their bytes |
| `Directory.GetRootDirectory` | src/fs/fat/fat16.c:87-128 | The table in a block of its own, its count of entries and the recorded geometry; -ENOMEM without a block, -EIO with the block lost |
| `Mounting.Resolve` | src/fs/fat/fat16.c:129-175 | `fat16_resolve`: -EIO, -EFSNOTUS or 0 exactly as signature, size of the medium, place of the root directory and memory for it decide; then the volume is what the header's bytes say, and the table, in a new allocation, the slice of the disk at the root sector with the count of its entries. Nothing that was there is touched, and the blocks taken, lost ones included, are given exactly |
| `Mounting.ResolveRoot` | src/fs/fat/fat16.c:87-128 | The table of the root directory is loaded beside the header; what cannot be read stays allocated |
| `Mounting.MountAndLoad` | src/fs/fat/fat16.c:129-175 | From the bytes of a disk to a process, in one long free run: a disk with the signature and a root directory of at least one entry mounts exactly if all of the directory is on it; and a process is made exactly if a process slot is free, the path names an entry of the directory on the disk, a descriptor slot is in reach, and the chain on the disk holds the file, not empty. The process sees the file's bytes; directory and header stay in memory, and running processes are untouched |
| `Mounting.TableIsHad` | src/fs/fat/fat16.c:129-175 | In such a run the memory for the directory is had, so that mounting succeeds exactly if the directory is on the disk |
| `Mounting.LoadMounted` | src/task/process.c:148-253 | The load alone, from any mounted disk and with every checked refusal |
| `Mounting.FileIsOnDisk` | src/fs/fat/fat16.c:40-128 | What the lookup in memory finds is what the bytes of the disk hold |
| `Layout.FileByItsEntry` | src/fs/fat/fat16.c:229-353 | What loading finds for a directory entry on the disk: by the size and the cluster written in it, the slice of the disk at that cluster, if the clusters are in one piece |
| `Directory.GetTotalItems` | src/fs/fat/fat16.c:40-85 | Counts the entries before the end marker that are not deleted |
| `Directory.CountStaysInside` | src/fs/fat/fat16.c:40-85 | With an end marker in the table the count is of the table's own entries and the lookup stays inside it |
| `Directory.LookupSeesAllIff` | src/fs/fat/fat16.c:40-85 | Every live entry is looked at exactly if no deleted one comes before a live one |
| `Directory.ToProperString` | src/fs/fat/fat16.c:177-190 | Appends the bytes up to the first blank |
| `Directory.FullRelativeFilename` | src/fs/fat/fat16.c:193-204 | The buffer holds the name `FullName`, zero-filled behind |
| `Directory.NameIsRightIff` | src/fs/fat/fat16.c:177-204 | That name is the short name of the FAT specification (trailing blanks stripped, 0x05 for 0xE5, dot only before an extension) exactly if the first byte is not 0x05 and both fields hold no blank but trailing ones, padded in time, and no zero |
| `Lookup.FindItem` | src/fs/fat/fat16.c:455-470 | A fresh item for the last entry with the name, or null; every match costs two blocks |
| `Lookup.LastIsLast` | src/fs/fat/fat16.c:455-470 | What the loop ends with is the last entry that has the name, or nothing exactly if none has |
| `Lookup.NewFatItem` | src/fs/fat/fat16.c:436-453 | An item of type file with a copy of the entry, in two new blocks |
| `Lookup.FirstClusterIsRightIff` | src/fs/fat/fat16.c:224-227 | Or-ing the two halves gives the cluster number exactly if the upper half is 0 |
| `Layout.ItemReadBack` | src/fs/fat/fat16.h:73-88 | A directory entry written field by field, in the specification's order: size, halves of the cluster, attributes and name are read back, for all values |
| `Layout.ItemIsWritten` | src/fs/fat/fat16.h:73-88 | Every 32 bytes are such an entry |
| `Layout.ByteOrder` | src/fs/fat/fat16.h:43-88 | Numbers on the disk have their lowest byte first |
| `Lookup.HasName` | src/fs/fat/fat16.c:461-462 | The comparison says whether the entry's name is the one looked for, but for case |
| `Layout.UpperMatches` | src/fs/fat/fat16.c:455-470 | A path component in lower case finds the entry written in upper case and filled up with spaces: `blank.bin` finds `BLANK   BIN` |
| `Layout.NameReadBack` | src/fs/fat/fat16.c:177-204 | The lookup calls an entry by the name written in it, with a dot (46) before an extension, if a blank follows each part |
| `Strings.IStrNCmp` | src/string/string.c:38-52 | 0 exactly if the strings have the same letters, in either case, and otherwise the same characters in their first n; else the difference of the first two characters that do not agree |
| `Strings.LowerAgreesIff` | src/string/string.c:4-12 | Two characters are folded to one exactly if they are the same, or the two cases of one letter of A to Z, by their codes |
| `Files.Fat16Open` | src/fs/fat/fat16.c:471-524 | A descriptor for the last matching root entry; no match or a second component is refused |
| `Files.Fopen` | src/fs/file.c:147-214 | The least free slot gets the descriptor of the named root file; otherwise 0 and no slot changes; the blocks used, lost ones included, are exactly `OpenUsed` |
| `Files.NewDescriptor` | src/fs/file.c:75-94 | The first free slot, or -ENOMEM |
| `Files.Fstat` | src/fs/file.c:217-232 | Size and read-only flag of the directory entry, found through three pointers; -EIO for a descriptor that is not open or out of reach |
| `Files.Fread` | src/fs/file.c:278-300 | Items of any size and number from the current position: the bytes of `Items`, or the error; -EINVARG for none, or for a descriptor that is not open; the position stays |
| `Files.Fseek` | src/fs/file.c:258-275 | Sets or moves the position; an offset that is not below the file size is refused, for a relative one too, and a descriptor that is not open with -EIO; everything but the position word is untouched |
| `Files.SeekAndRead` | src/fs/file.c:258-300 | A read after a seek delivers the bytes from the offset on, with whence 0, and from the sum of position and offset on, with whence 1 |
| `Files.SoughtIs` | src/fs/fat/fat16.c:592-634 | A position set is the offset and inside the file; one moved is the sum in 32 bits; otherwise it stays |
| `Files.Fclose` | src/fs/file.c:235-255 | Frees exactly the four blocks of the open file and empties its slot; one that is not open, and the last slot, is refused without effect |
| `Files.Fat16Close` | src/fs/fat/fat16.c:527-538 | Frees the entry, the item and the descriptor, three blocks |
| `Files.FreeDescriptor` | src/fs/file.c:68-72 | Empties the slot that the index stored in the descriptor names, which is the descriptor's own, and frees its block |
| `Paths.PrintThenParse` | src/fs/pparser.c:9-136 | A drive and non-empty slash-free names, printed and parsed, come back; accepted exactly within the length bound |
| `Paths.PartsAreLongestPrefix` | src/fs/pparser.c:38-136 | The components are the longest run of non-empty components the path starts with |
| `Paths.AcceptedIff` | src/fs/pparser.c:9-27 | Accepted is, up to 108 characters, exactly a digit (48 to 57), a colon (58), a slash (47) and anything behind |
| `Paths.SplitThenJoin` | src/fs/pparser.c:38-62 | The reference splitting loses nothing |
| `PathParser.Parse` | src/fs/pparser.c:98-136 | Null exactly if longer than 108 or not digit, colon, slash; otherwise a linked list in memory of exactly the components, in new blocks, with no old allocation written |
| `PathParser.ParsePathPart` | src/fs/pparser.c:64-82 | One more component linked behind the last, or list and heap unchanged |
| `PathParser.GetPathPart` | src/fs/pparser.c:38-62 | The next component NUL-terminated in its own block; an empty one gives its block back |
| `PathParser.FreePath` | src/fs/pparser.c:84-96 | Frees every part, every string and the root by following the links |
| `PathParser.ParseAndFree` | src/fs/pparser.c:84-136 | Parse and free leave the block table as it was |
| `PathParser.ParsedBalance` | src/fs/pparser.c:98-136 | Exactly 1 + 2n new allocations for n components, each shorter than its 108-byte buffer |
| `PathParser.Shape.BlockCount` | src/fs/pparser.c:64-82 | All blocks of the list are different |
| `Tasks.AnyHistory` | src/task/task.c:16-101 | For every sequence of additions and removals at any place, each of which could be made by the calls alone (`Sound`), in blocks used before or not: the list is sound, has the tasks of `After`, and each link back points to the task that was last when it was made |
| `Tasks.HistoryThenDrop` | src/task/task.c:27-101 | After any such history the next removal, wherever it is, leaves a sound list exactly if the operations alone say so |
| `Tasks.RoundAfter` | src/task/task.c:16-101 | After any such history, the switches run every task exactly once in every round, from any point on |
| `Tasks.TailOnlyIsSound` | src/task/task.c:27-101 | If only the last task is ever removed, every removal could be made and all links stay right |
| `Tasks.NextIsStale` | src/task/task.c:27-48 | After a removal from anywhere else the task behind has a stale link, and can be removed exactly if it has become the first of several |
| `Tasks.RoundRobin` | src/task/task.c:16-24 | Following the links in memory from the current task, round the end by the head: whichever task is current and however many switches have been made, of the next n each runs another of the n tasks, every one is run, and the one after is the first of them again |
| `Tasks.SwitchedIs` | src/task/task.c:16-24 | The task after k switches, found by following the links, is the one k places on, for every k |
| `Tasks.TaskList.SwitchOn` | src/task/task.c:104-109 | A switch to the next task makes it current, and keeps the chain |
| `Tasks.RemovedChainIff` | src/task/task.c:27-48 | After the stores of a removal the chain from head to tail is the list without the task exactly if its back link was right, or it was the first and the block it points to is no other live task; and, for the only task, it was null |
| `Tasks.TaskList.Remove` | src/task/task.c:27-48 | Memory after a removal is `Bypassed`; the list is sound exactly if `Leaves` held, and current moves to the cyclic successor |
| `Tasks.ReusedBlock` | src/task/task.c:27-101 | Three tasks, the first freed and its block handed out again: the task now first cannot be removed soundly |
| `Tasks.TaskList.Unlink` | src/task/task.c:29-32 | The store through the back link, whatever it points to |
| `Tasks.TaskList.Insert` | src/task/task.c:81-91 | Appends a block that is not in the list, used before or not, and keeps all back links right if they were |
| `Tasks.TaskList.GetNext` | src/task/task.c:16-24 | The task that the current one's link leads to, or the head: the cyclic successor |
| `Keyboard.EveryRunRefines` | src/keyboard/keyboard.c:45-89 | Over every proper run the ring is a sequence: same answers, same pending text |
| `Keyboard.PushAppendsIff` | src/keyboard/keyboard.c:59-71 | A push appends exactly if the character is not 0 and fewer than 1024 are pending |
| `Keyboard.BackspaceErasesIff` | src/keyboard/keyboard.c:51-56 | A backspace removes the last character if there is one; otherwise the ring is no text at all |
| `Keyboard.PopTakesFirst` | src/keyboard/keyboard.c:74-89 | A pop takes the oldest character, and answers 0 exactly if there is none |
| `Keyboard.KeyboardBuffer.Add` | src/keyboard/keyboard.c:59-71 | The fields become those of `Push` |
| `Keyboard.KeyboardBuffer.EraseLast` | src/keyboard/keyboard.c:51-56 | The fields become those of `Backspace` |
| `Keyboard.KeyboardBuffer.TakeFirst` | src/keyboard/keyboard.c:74-89 | Answer and fields are those of `Pop` |
| `Gdt.DecodesIff` | src/gdt/gdt.c:5-34 | By section 3.4.5 of the Intel SDM Vol. 3A the processor reads back base, type and effective limit exactly of the entries the guard accepts, and of all of them 32-bit operands and no 64-bit code |
| `Gdt.EncodeInjective` | src/gdt/gdt.c:5-34 | Accepted entries with the same bytes are the same |
| `Gdt.EncodeEntry` | src/gdt/gdt.c:5-34 | The eight stores make the encoding and touch no other descriptor |
| `Gdt.EncodeTable` | src/gdt/gdt.c:37-43 | Every descriptor of the table decodes to its entry, as a 32-bit segment |
| `UserMode.LoadSegments` | src/kernel.c:104-132 | In the kernel's table the code and data selectors of a new task choose, at the privilege of processes, a present code segment and a present writable data segment of all 4 GB |
| `UserMode.StartsInProgram` | src/task/task.c:210-232 | A new task's first instruction is the first byte of its program, in a page it may read |
| `UserMode.StartsWithEmptyStack` | src/task/task.c:210-232 | All 16 KiB below its stack pointer are its stack, byte by byte, in pages it may write |

## Left out

Not modelled:

- Hardware: ATA port input and output, interrupts, CR3, TSS and GDT loading. The disk is a byte sequence whose only read error is a sector outside it; `paging_switch` is the choice of the directory that addresses go through.
- Page faults. Translation looks at no flags; a process's store is stopped where directory word or entry forbid it, by section 4.6.1 of the Intel SDM Vol. 3A, and a read never is (`ProgramIsOpen`).
- What the kernel does on behalf of a running process, but for loading another and `copy_string_from_task`.
- `panic`, and allocation failures that the source does not check or would answer by following a null pointer: these are preconditions (enough free blocks). The requests that it checks may fail.
- Registers other than the instruction and stack pointer and the segments a task starts with, and task switching by interrupt.
- Terminal, PS/2 scancodes, ISR tables, boot sector, writing and append modes, the list of filesystems, `process->allocations`: single steps without an interplay to prove.
- A path opened on a disk that did not mount, and the pointers that the mounted disk's record holds: the streams and the volume are objects and values beside it. Header and table are bytes in memory.
- Subdirectories: every found item counts as a file, so nested lookup cannot succeed. A matching entry with the subdirectory bit is excluded, because the source loads its contents and loses them.
- The table of the root directory as the lookup reads it (a value equal to the bytes in memory, which `MountAndLoad` shows to stay), file names passed to `fopen`, and the fields of processes are Dafny values and objects beside the memory array. A process's two blocks are allocated and counted, but its fields are not words in them.
- The entry table of the heap is an array of its own, not the bytes at 0x7E00.

Stated under a condition, or weaker than the code does:

- Malloc: requires `Fits`. Outside it the source marks blocks past the end of its table; `SearchIsSoundIff` says exactly when that is.
- Free: requires a live allocation's address; for any other the source clears whatever chain starts there.
- Create: the heap is valid if it is smaller than 2 GB and its addresses do not wrap.
- Kzalloc: requires a size up to 0xFFFFF000, since above it the source zeroes memory it was not given, and `Fits`.
- PagingNew4Gb: requires 1026 free blocks, since the source does not check its allocations.
- GetClusterForOffset: requires an offset below 2 GB, a C int. The link is whatever the product position holds; a failed lookup is the value -EIO, with which the walk goes on as the source does.
- ReadPiece: like the three reads above it, requires an end below 2 GB, a C int, and a cluster number that is not negative.
- EntryPositionIsRightIff: at most 3328 reserved sectors; FAT16 volumes have one. Without the bound, `ProductIsNeverSum` says it of the 32-bit words for all 16-bit values.
- GetRootDirectory: requires the table to start below 2 GB and a block search that `Fits`.
- FullRelativeFilename: requires a name that ends within the table and fits the buffer; beyond, the source reads or writes out of bounds.
- FindItem: excludes entries whose name runs to the end of the table or past 107 characters, where the source reads or writes out of bounds, and a matching entry with the subdirectory bit.
- NewFatItem: excludes the subdirectory bit.
- Fopen: mode "r" and drive 0 only. Of a descriptor only the index and the private pointer are stored. Errors are null pointers here; in the source they are small negative numbers, told from heap addresses as long as those are below 2 GB.
- Fread: requires an end below 2 GB and a buffer inside memory.
- Fclose: requires, of a descriptor that is open, that the file's blocks are live.
- Resolve: requires five free blocks, for the record and the streams, which the source does not check, a root directory that starts below 2 GB, and a table request that is served or refused.
- MountAndLoad: requires one free run for everything, which `LoadMounted` does not, and a nonzero number of sectors per cluster, by which the source divides when it reads. With a root directory of no entries, whether the disk mounts depends on the last block of the heap, as `MountResult` says; no process is made then.
- LoadForSlot: requires the slot to be free; for a taken one the source looks at an uninitialised pointer on its way out. The check of the new task compares with 0 only and never fails. Excluded by `CanLoad` are heaps where a request runs into a short free tail (the guard `Fits`), and those where one of the unchecked requests for a single block finds none: fewer blocks than opening the file takes, or enough for the file but not for stack and task. Outside one long run, what is left when the contents and the stack are asked for is bounded by counts and by what any run loses (`Asked`), not given block by block.
- Load: requires `CanLoad`, like `LoadForSlot`.
- LoadBeside: requires `CanLoad`, like `LoadForSlot`.
- LoadBinary: requires that the request for the contents is served or refused, and blocks for opening the file.
- NewBlocks: requires that the request is served or refused; otherwise the search hands out a short tail.
- OwnStoresOnly: a store is one byte wide and goes through where both levels permit it; the run is a list of stores, and what a process reads is the matter of `AsIfAloneIff`.
- AsIfAloneIff: a read or a write is one byte wide; a program starts from an address space and not from registers, and calls of the kernel are no actions.
- LivesAlone: one direction; a process that reads elsewhere finds what the kernel keeps there. A run has no end of a process, as the source has none but for a failed load.
- CopyNext: requires a string of the process's own and a clear place, like `CopyFromProcess`.
- LoadNext: requires `CanLoad`, like `LoadForSlot`.
- EntryKeptIff: the entry is that of `task_init`, which lacks the writable bit that the kernel's own directory has; what the processor makes of that in ring 0 is not part of this model.
- CopyFromProcess: requires a place that is in no page of a process or a task.
- CopyStringFromTask: requires max > 0, a string that up to its terminator avoids the page tables and the lent block, and a destination apart from both.
- StrNCpy: requires source and destination apart; it is used where the kernel's directory, the identity, is in force.
- GetNext: requires a current task.
- FreeTask: requires a task of the list with a directory it owns. Where a stale link points to a block that is in use again, that block is written, exactly as `Bypassed` and `StrayWriteIff` say; the model does not say what that does to the owner.
- Add: requires a counter below 2^31 - 1 and a current process.
- EraseLast: requires a positive tail; at 0 the index would be negative.
- BackspaceErasesIff: requires a positive tail, for the same reason.
- TakeFirst: requires a counter below 2^31 - 1 and a current task.
- EncodeEntry: requires what the guard accepts; for the rest the kernel panics.

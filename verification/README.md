# COS32 kernel model

COS32 is a small 32-bit kernel in C. This project models the parts of it where a concrete table, chain or
linked structure has to agree with something much simpler, and proves that it does:

- **Memory.** The heap table with its FIRST and HAS_NEXT flags refines a set of disjoint runs (`Heap`,
  `HeapRuns`). Two-level page tables, whose frames are blocks of that heap and whose pointers carry flags in
  their low bits (`Bits`), refine a flat map of 2^20 pages (`Paging`, `PageDirectories`). Process allocations
  tie the two together over every interleaving of processes (`ProcessMemory`, `ProcessCalls`). Copying a user
  string remaps one page for a moment and puts everything back (`UserCopy`).
- **Files.** Disk streams and the recursive FAT16 reader (`Streamer`, `Fat16`), paths and their parsing
  (`Paths`, `PathParser`).
- **Programs.** Loading with DT_NEEDED libraries (`ElfLoad`, `ElfDescriptors`, `ElfLoader`, over the descriptors of
  `FileTable`), load segments and
  address translation (`ElfSegments`), the symbol tables of libraries (`Library`) and relocation
  (`ElfRelocations`).
- **Tasks and processes.** Round-robin selection, sleeping and waking (`Scheduler`, and `Tasks` for the linked
  list), freeing a process with everything it started (`ProcessTree`).
- **Text and queues.** C strings, strtok and basename (`Strings`, `Strtok`), the keyboard ring (`Keyboard`).

Code that updates tables, lists and counters is modelled as classes and arrays with methods that update them in
place; each method is tied to a function on plain values, and the theorems are about those functions and about
whole runs of them. A `panic` or a failed `ASSERT` stops the kernel for good and is the outcome `Halted` (or the
result `halted`). Pointers are addresses below 2^32 and arithmetic on them wraps where the source's does.

`dafny verify dfyconfig.toml` checks the whole project.

## What the code does that one might not expect

Each of these is modelled as the code has it. The members named say exactly when it matters, and where a promise
is broken there is an input that breaks it:

- A request for more blocks than fit is answered with a null pointer only if the last block of the heap is
  taken; a free tail that is too short makes the kernel halt (`HeapRuns.HaltsExactly`, `Heap.TailTooShort`).
- A chunk of a file read is as long as a cluster even when it starts inside one. A read is right exactly when
  every chunk that runs over a cluster's end finds the chain's next cluster right behind it on the disk
  (`Fat16.ExactlyWhenContiguous`, `Fat16.ScatteredReadFails`).
- The marks that end a chain are compared with 12-bit constants, although the volume has 16-bit entries. The
  chain followed is the one on the disk exactly as long as no misjudged entry is met (`Fat16.MarksAgreeExactly`);
  a read past the end of a chain that ends in 0xFFFF is not refused (`Fat16.EndMarkFollowed`).
- `fclose` gives no descriptor back, so 128 files can be opened between two starts of the machine. That is also
  what ends every load: a file that is not a shared library is never registered, and a cycle of such files takes
  all descriptors that are left (`ElfDescriptors.EnoughExactlyWhenRanked`, `ElfDescriptors.SelfNeedingTakesAll`).
- A file that cannot be opened, for want of a file or of a descriptor, makes `elf_load` return 0, like a success.
  Libraries are missing then, and `ElfLoad.LoadRegistersClosure` and `ElfDescriptors.SuccessMeansRegistered` say
  when (`ElfLoad.NoDescriptorLeft`, `ElfLoad.MissingLibrary`).
- Zero is both an address and the mark of a base that is not set: the virtual base is the least load address
  exactly when no load address is zero or the last one is (`ElfSegments.BaseIsMinExactlyWhen`,
  `ElfSegments.ZeroIsOverwritten`).
- `R_386_RELATIVE` stores the address of the slot itself. That is base plus addend, as in "Relocation", chapter 4
  of the System V ABI, Intel386 supplement, exactly when the addend in the slot is its own offset
  (`ElfRelocations.RelativeIsBasePlusAddend`, `ElfRelocations.RelativeIgnoresAddend`).
- `copy_string_from_task` announces strings up to a page but refuses a whole page, and it returns 0 when it could
  not get its buffer (`UserCopy.Machine.CopyStringFromTask`).
- A task that sleeps without end is marked by a wake-up time of -1, where src/task/task.h:37 speaks of 0; and a
  wake-up time past 2^31 wakes at the next tick (`Scheduler.LongSleepIsShort`).
- `task_get_awake_count` counts only the awake tasks at the front of the list (`Tasks.TaskList.GetAwakeCount`), so
  it is zero whenever the head sleeps, and selection then wakes whatever comes next. `Scheduler.SleepsUntil` and
  `Scheduler.PausedUntil` say exactly which tasks that wakes (`Scheduler.WokenEarly`, `Scheduler.PausedWoken`).
- A path with a doubled slash right after the drive and something behind it is parsed into nodes that the root
  does not lead to; freeing it does not give them back (`PathParser.Parser.ParseThenFree`, `Paths.LeakingPath`).

## Model
| member | source | states |
|---|---|---|
| Bits.AndHigh | src/memory/paging/paging.c:266-266 | masking with 0xfffff000-like constants clears exactly the low bits |
| Bits.Packing | src/memory/paging/paging.c:303-313 | flags packed into the low 12 bits of an aligned address leave the address recoverable |
| Bits.TestPacked | src/memory/paging/paging.c:303-313 | a flag test on a packed entry sees the flags and not the address |
| Bits.OrBit | src/memory/paging/paging.c:47-47 | each bit of an or is set exactly when it is set in a part |
| Bits.AndBit | src/memory/paging/paging.c:266-266 | each bit of an and is set exactly when it is set in both parts |
| Bits.FlagBits | src/memory/paging/paging.c:47-47 | the tests for the page flags, in plain arithmetic |
| Kernel.AlignUp | src/memory/paging/paging.c:231-246 | the next multiple of 4096, within 4096 of the value, and 0 for the last partial page |
| Heap.LiveDisjoint | src/memory/heap.c:108-152 | runs read off a well-formed table never overlap |
| Heap.Tiling | src/memory/heap.c:108-152 | a block is taken exactly when a run covers it, and then only one run does |
| Heap.LiveDeterminesTable | src/memory/heap.c:108-152 | the set of runs fixes the table byte for byte, so it loses nothing |
| Heap.RunByteValues | src/memory/heap.c:108-134 | the bytes of a run: 0x41 alone, else 0xC1, 0x81 and 0x01 |
| Heap.TakeAddsRun | src/memory/heap.c:108-134 | marking a free window taken adds exactly that run and keeps the table well-formed |
| Heap.ReleaseRemovesRun | src/memory/heap.c:136-152 | freeing at the start of a run removes exactly that run and keeps the table well-formed |
| Heap.TakeReleaseRestores | src/memory/heap.c:108-152 | taking a window and releasing it restores every byte |
| Heap.Allocate | src/memory/heap.c:60-91 | the lowest window that fits when one exists; otherwise null or a halt, depending on the last block |
| Heap.TailTooShort | src/memory/heap.c:85-105 | a table on which a request gets null, and one on which it halts |
| Heap.BlocksFor | src/memory/heap.c:169-173 | the least number of blocks that holds the size, and 0 for size 0 |
| Heap.KernelHeap.Create | src/memory/heap.c:14-58 | accepts exactly an aligned region whose size fits the table, and clears every entry |
| Heap.KernelHeap.GetStartBlock | src/memory/heap.c:60-91 | the scan finds the lowest fitting window, or the start of a free tail that is too short, or -ENOMEM |
| Heap.KernelHeap.MarkTaken | src/memory/heap.c:103-134 | writes FIRST and HAS_NEXT over exactly the run, or halts when it leaves the table |
| Heap.KernelHeap.MarkFree | src/memory/heap.c:136-152 | clears exactly the run that starts there, or halts when none does |
| Heap.KernelHeap.MallocBlocks | src/memory/heap.c:154-167 | pointer and table as the lowest fit says; null and halt change nothing |
| Heap.KernelHeap.Malloc | src/memory/heap.c:169-173 | the same, with ceil(size / 4096) blocks |
| Heap.KernelHeap.Free | src/memory/heap.c:175-180 | releases exactly one run, and halts exactly when the pointer is not the start of one |
| Heap.KernelHeap.KFree | src/memory/kheap.c:44-50 | as heap_free, with a null pointer ignored |
| HeapRuns.StepRefines | src/memory/heap.c:154-180 | each call that returns acts on the set of runs as an allocator that takes the lowest gap and frees one run |
| HeapRuns.HaltsExactly | src/memory/heap.c:103-180 | a call halts exactly when nothing fits although the last block is free, or when no run starts at the pointer |
| HeapRuns.RunRefines | src/memory/heap.c:154-180 | every run of calls that does not halt is a run of that allocator, and its runs are disjoint at the end |
| HeapRuns.MallocThenFree | src/memory/heap.c:169-180 | freeing what malloc returned does not halt and restores the table byte for byte |
| Paging.PokeFlat | src/memory/paging/paging.c:285-289 | one table entry written through the directory is one page changed in the flat map |
| Paging.GetIndexes | src/memory/paging/paging.c:212-223 | fails exactly on an unaligned address, else splits the page number |
| Paging.Set | src/memory/paging/paging.c:271-290 | changes the entry of one page; other pages, other directories and the frames in use stay as they are |
| Paging.Get | src/memory/paging/paging.c:255-268 | the entry of the page in the flat map, or a halt on an unaligned address |
| Paging.Map | src/memory/paging/paging.c:303-313 | one page maps to the physical page with the flags; refuses unaligned addresses and then changes nothing |
| Paging.MapRange | src/memory/paging/paging.c:197-210 | count pages in a row, going round at 4 GB, and no other |
| Paging.MapTo | src/memory/paging/paging.c:344-354 | halts exactly when one of its four conditions fails, else maps the pages of the physical range |
| Paging.MapToTranslates | src/memory/paging/paging.c:293-301 | after paging_map_to virt + k translates to phys + k for every k in range; pages outside keep their entry |
| Paging.GetPhysicalAddress | src/memory/paging/paging.c:293-301 | the translation under the flat map, for every address |
| Paging.WalkTranslates | src/memory/paging/paging.c:255-301 | the translation by the two entries an address meets, in plain numbers |
| Paging.FlatDecides | src/memory/paging/paging.c:255-269 | behind an open directory, user code reads or writes an address without a fault exactly as its table entry says |
| Paging.RemapsOpen | src/memory/paging/paging.c:271-290 | remapping keeps the directory entries |
| PageDirectories.DirectoryEntryPage | src/memory/paging/paging.c:47-47 | a table pointer survives the packing of all flags into the directory entry |
| PageDirectories.DirectoryEntryFlags | src/memory/paging/paging.c:47-47 | a directory entry is present, writeable, user-accessible and uncached, whatever flags were asked for |
| PageDirectories.OneBlock | src/memory/heap.c:169-173 | a one-block request takes one free block and nothing else while there is one |
| PageDirectories.TablesBuiltIdentity | src/memory/paging/paging.c:34-53 | the directory and its 1024 tables map every page of 4 GB to itself |
| PageDirectories.FillTable | src/memory/paging/paging.c:42-45 | the inner loop builds the identity table for its 4 MB |
| PageDirectories.New4gb | src/memory/paging/paging.c:34-53 | takes 1026 different free blocks: directory, tables and record; builds the identity map in them, behind directory entries that are present, writeable, user-accessible and uncached; other frames are untouched |
| PageDirectories.NewSpaceFlags | src/memory/paging/paging.c:34-53 | its pages have exactly the flags asked for, and user code can read and write them exactly as those flags say |
| PageDirectories.Free4gb | src/memory/paging/paging.c:356-366 | recovers every table pointer from its entry, never trips an assertion, and gives back exactly tables and directory |
| PageDirectories.NewSpaceFreeable | src/memory/paging/paging.c:356-366 | every frame of a new address space is the start of a live run, as freeing demands |
| PageDirectories.NewThenFree | src/memory/paging/paging.c:34-53 | building and freeing an address space leaves the table of before, with only the record's block taken |
| ProcessMemory.FreeSlot | src/task/process.c:622-631 | the first free slot, or none exactly when no slot is free |
| ProcessMemory.MallocKeepsInv | src/task/process.c:639-673 | process_malloc keeps the invariant: recorded runs are live and distinct, each map is its base plus its own runs' pages |
| ProcessMemory.MallocResult | src/task/process.c:639-673 | a full slot table gives null; null changes nothing; else the lowest run that fits, of ceil(size / 4096) blocks, is live and recorded in the first free slot, and no other slot or map changes |
| ProcessMemory.ExitKeepsInv | src/task/process.c:709-718 | a process that gives back all it has recorded, and the next one in its place with any map, keep the invariant |
| ProcessMemory.StepKeepsInv | src/task/process.c:639-718 | every step of a process or of the kernel keeps the invariant: allocating, freeing, mapping pages, exiting |
| ProcessMemory.ReachesKeepsInv | src/task/process.c:639-673 | so does every interleaving of any length |
| ProcessMemory.AccessibleExactly | src/task/process.c:639-718 | from any starting maps, over every interleaving of allocations, exits and the kernel mapping on its own account: a page is present and user-accessible for a process exactly when it belongs to one of its own live runs, and then it is writeable and uncached too and maps to itself, or the kernel has made it so, and then it is as the kernel mapped it |
| ProcessMemory.FreshPages | src/task/task.c:481-481 | the pages of a new directory of a task are present and uncached, neither writeable nor user-accessible |
| ProcessMemory.AccessibleExactlyOwn | src/task/process.c:639-718 | from fresh maps, with nothing but allocations and exits, only the pages of its own runs are present and user-accessible, and they are writeable |
| ProcessMemory.Isolation | src/task/process.c:639-718 | no page of a live run a process has not recorded is accessible to it, unless the kernel has mapped that page for it; runs of processes that are gone included |
| ProcessCalls.GetFreeSlot | src/task/process.c:622-631 | the search over the slot array is the first free slot |
| ProcessCalls.RemapOne | src/memory/paging/paging.c:344-354 | remapping one directory changes the map of that process and of no other |
| ProcessCalls.TouchesExactly | src/task/process.c:639-718 | by the page walk through its directory, a process reads and writes every address of its own live runs without a fault, at that physical address, and besides only what the kernel mapped for it |
| ProcessCalls.EndOfRun | src/task/process.c:660-660 | the aligned end address of an allocation is the end of the run the heap gave |
| ProcessCalls.System.Malloc | src/task/process.c:639-673 | process_malloc on heap table, slot array and page frames is the abstract step; off the kernel page it halts |
| ProcessCalls.System.MallocInto | src/task/process.c:652-660 | the part after the slot search, with the whole new state |
| ProcessCalls.System.RecordAndMap | src/task/process.c:658-660 | the pointer goes into the slot, its pages into the process's own map, and nothing else changes |
| ProcessCalls.System.FreeAllocations | src/task/process.c:709-718 | gives back exactly the recorded runs and never halts |
| UserCopy.SourceUnique | src/string/string.c:3-13 | memory and map determine the user string |
| UserCopy.OnePageIsEnough | src/task/task.c:158-175 | mapping the one page of the buffer, present, writeable and user-accessible, makes all of its bytes reachable, since less than a page is copied |
| UserCopy.TextSurvives | src/task/task.c:174-179 | neither the remapped page nor the writes to the buffer disturb the user string |
| UserCopy.MapRestores | src/task/task.c:173-187 | putting the old entry back makes the page map what it was |
| Heap.FreedAgain | src/task/task.c:191-192 | the buffer's run is the one the free releases, and the table is what it was |
| UserCopy.NewSpaceIsIdentity | src/memory/paging/paging.c:34-53 | under the map of a new address space every address is its own translation |
| UserCopy.StrncpyThrough | src/string/string.c:3-13 | strncpy through a page map writes the string, or its first n bytes, and nothing else |
| UserCopy.Machine.KZalloc | src/memory/kheap.c:36-41 | a buffer inside the run with its first size bytes zero; a null pointer is cleared too |
| UserCopy.Machine.Fetch | src/task/task.c:172-187 | the copy in the task's pages: the buffer holds the string, the map is as before, the kernel page is back |
| UserCopy.Machine.CopyStringFromTask | src/task/task.c:152-195 | map and heap table as before; the destination holds the string or its first max bytes; every result code and both failing allocations |
| Streamer.Stream.Seek | src/disk/streamer.c:20-24 | the position is the one asked for |
| Streamer.Stream.Read | src/disk/streamer.c:26-65 | for every position and length exactly those disk bytes; the position advances; each sector from pos/512 to (pos+total)/512 is read once, in order |
| Fat16.EntryOfTable | src/fs/fat/fat16.c:228-256 | for every table lying on the disk in 16-bit little-endian numbers, the entry is the number of that cluster |
| Fat16.Volume.GetFatEntry | src/fs/fat/fat16.c:228-256 | the number the table on the disk has for the cluster; only the FAT stream moves |
| Fat16.WalkOfTable | src/fs/fat/fat16.c:258-304 | for every sequence of clusters that follow each other by the table without a stop mark, the walk is that sequence |
| Fat16.ClusterPositions | src/fs/fat/fat16.c:218-221 | cluster 2 begins the data area, and each cluster follows the one before |
| Fat16.BytesOfTable | src/fs/fat/fat16.c:306-348 | byte m of such a file is the disk byte at m % size of cluster number m / size, in plain numbers |
| Fat16.Volume.GetClusterForOffset | src/fs/fat/fat16.c:258-304 | the cluster that many steps down the chain, or -EIO when a mark comes first; ends on every table content |
| Fat16.Volume.ReadFromStream | src/fs/fat/fat16.c:306-348 | succeeds exactly when the chain serves every chunk; each byte comes from its stated disk position; bytes around the request stay |
| Fat16.Volume.ReadInternal | src/fs/fat/fat16.c:350-356 | a request inside the chain succeeds, and gives its slice of the concatenated clusters if its crossing chunks find the next cluster adjacent |
| Fat16.Volume.Read | src/fs/fat/fat16.c:358-380 | the items in order, each as a request of its own; -EIO exactly when one fails |
| Fat16.BootVolumeIsSound | src/boot/boot.asm:8-20 | the volume the kernel itself boots from meets what is asked of a volume, and its clusters up to 32762 are near enough |
| Fat16.WalkOn | src/fs/fat/fat16.c:258-304 | the chain walked one step more from its end, which is how the loop walks it |
| Fat16.MarksAgreeExactly | src/fs/fat/fat16.c:269-284 | following a chain agrees with the 16-bit format for k steps if and only if no entry met is 0xFF0, 0xFF6, 0xFF7, 0xFF8, 0xFFF or at least 0xFFF7 |
| Fat16.EndMarkFollowed | src/fs/fat/fat16.c:269-274 | a chain that ends in 0xFFFF is followed past its end, and a read there is served |
| Fat16.ChainByteAt | src/fs/fat/fat16.c:218-221 | byte m of the concatenated clusters lies where the chain puts it |
| Fat16.ExactlyWhenContiguous | src/fs/fat/fat16.c:306-348 | every byte comes from its place in the file if and only if each crossing chunk finds the next cluster adjacent |
| Fat16.AlignedCrossesNothing | src/fs/fat/fat16.c:318-322 | a cluster-aligned start, or a request inside one cluster, crosses nothing |
| Fat16.InChainServed | src/fs/fat/fat16.c:306-348 | a request inside the chain is served |
| Fat16.ReadDeliversSlice | src/fs/fat/fat16.c:306-356 | what is delivered is the slice [offset, offset + total) of the concatenated clusters |
| Fat16.ScatteredReadFails | src/fs/fat/fat16.c:318-322 | on a scattered chain an unaligned read across a boundary delivers a byte of another cluster |
| Fat16.WholeFile | src/fs/fat/fat16.c:358-380 | a file inside its chain, read as one item from position 0, is served and is its chain, byte for byte |
| Paths.RoundTrip | src/fs/pparser.c:113-150 | parsing a printed path, with or without a trailing slash, gives back its drive and components |
| Paths.PrintedAgain | src/fs/pparser.c:113-150 | printing a parsed path gives the path back, when no slash is doubled |
| Paths.NodesWithoutFirst | src/fs/pparser.c:137-147 | nodes are made without a first one exactly on a doubled slash with something behind it |
| Paths.LeakingPath | src/fs/pparser.c:137-147 | the path 0://a, and the node that leaks |
| Paths.ComponentsBound | src/fs/pparser.c:52-77 | a path has at most half as many components as characters, rounded up |
| PathParser.NothingGrown | src/memory/heap.c:108-152 | a table with no block taken since is the same table, byte for byte |
| PathParser.GrownLess | src/memory/heap.c:136-152 | freeing a block taken since leaves exactly the other ones |
| PathParser.ListedGrows | src/fs/pparser.c:79-97 | a node put behind the last one extends the list by its component |
| PathParser.ListedShrinks | src/fs/pparser.c:99-111 | freeing the first node leaves the list behind it readable |
| PathParser.Parser.GetPathPart | src/fs/pparser.c:52-77 | the component in a zero-terminated buffer it never overruns; an empty one gives its block back |
| PathParser.Parser.ParsePathPart | src/fs/pparser.c:79-97 | the node of the next component is linked in, or nothing is allocated |
| PathParser.Parser.Parse | src/fs/pparser.c:113-150 | null exactly for too long or ill-formed paths; else root, drive and linked list of the components, each block taken once |
| PathParser.Parser.Free | src/fs/pparser.c:99-111 | every text, node and root the list leads to is freed once |
| PathParser.Parser.ParseThenFree | src/fs/pparser.c:99-150 | parse then free restores the heap table byte for byte if and only if the path does not leak |
| Strings.Strncpy | src/string/string.c:3-13 | the text with its NUL, or the first n characters without; nothing else is written |
| Strings.CopiedIs | src/string/string.c:3-13 | the NUL is written exactly when the text is shorter than n |
| Strings.SpansAreMaximal | src/string/string.c:119-180 | the spans are exactly the maximal non-empty delimiter-free stretches |
| Strings.SpansOrdered | src/string/string.c:119-180 | they come from left to right |
| Strings.PiecesAreSpans | src/string/string.c:119-180 | the pieces strtok calls give are the texts of those spans |
| Strtok.FindDelimiter | src/string/string.c:138-145 | the inner loop finds whether a character is a delimiter |
| Strtok.Tokenizer.SkipDelimiters | src/string/string.c:134-153 | the start of the next piece |
| Strtok.Tokenizer.Next | src/string/string.c:119-180 | where the piece starts, the one byte that is overwritten, and the position kept; null clears the position |
| Strtok.Strtok | src/string/string.c:119-180 | the same, with the saved position used or set by the first argument |
| Strtok.TakenToken | src/string/string.c:119-180 | a call returns the first piece as a C string of its own and leaves a text with the others |
| Strtok.ProgressStart | src/string/string.c:182-192 | from a cleared position the first call gives the first piece |
| Strtok.ProgressStep | src/string/string.c:182-196 | after k pieces the next call gives piece k + 1, and null with the position cleared exactly after the last |
| Strtok.NextPiece | src/string/string.c:186-196 | the further calls basename makes |
| Strtok.Basename | src/string/string.c:182-201 | the last non-empty component; the name is undamaged and the saved position is cleared |
| ElfLoad.NameRoundTrip | src/loader/formats/elf/elfloader.c:269-292 | basename of "0:/" plus a name is the name, so a library is found under the name it was asked for |
| ElfLoad.BaseNameIsName | src/loader/formats/elf/elfloader.c:269-292 | a base name is never empty and has no slash |
| ElfLoad.Spare | src/loader/formats/elf/elfloader.c:685-723 | descriptors a load leaves over might as well not have been there: the result is the same without them |
| ElfLoad.More | src/loader/formats/elf/elfloader.c:685-723 | a load that leaves a descriptor over goes the same way with more of them |
| ElfLoad.LoadGrows | src/loader/formats/elf/elfloader.c:642-723 | loading a library whose whole closure opens to sane libraries returns 0, stays within the closure, takes one descriptor for each name it registers, and registers it and all it needs, each once, if a descriptor is left over |
| ElfLoad.LoadRegistersClosure | src/loader/formats/elf/elfloader.c:642-723 | when the executable is sane and each name of the closure t that is not registered yet opens to a sane library: loading returns 0 and registers different new names, all in t; it is all of t if and only if the executable and the new names fit the free descriptors, or there are no new ones; needs may be cyclic, and all other files may be anything |
| ElfLoad.SpareMeansRegistered | src/loader/formats/elf/elfloader.c:685-693 | after a load with result 0 and a descriptor to spare all needed names are registered if and only if each was before or opens to a library |
| ElfLoad.MissingLibrary | src/loader/formats/elf/elfloader.c:689-693 | an executable whose library is not on the disk is loaded with result 0, and the library is not registered |
| ElfLoad.NoDescriptorLeft | src/fs/file.c:67-85 | with one free descriptor an executable is loaded with result 0, and the library it needs is not |
| ElfLoad.LoadPasses | src/loader/formats/elf/elfloader.c:642-723 | a load by name succeeds only if all it registers has passed its own stages, and fails only if a file in its reach has not |
| ElfLoad.LoadResultMeans | src/loader/formats/elf/elfloader.c:642-723 | so does the load of an executable, and its result is the one of its last stages |
| ElfDescriptors.RankedEnough | src/loader/formats/elf/elfloader.c:685-723 | without a cycle of reachable files that are not libraries some number of descriptors is enough for every load, whatever the libraries need |
| ElfDescriptors.EnoughExactlyWhenRanked | src/loader/formats/elf/elfloader.c:685-723 | for the files reachable from one another, rejected and failing ones included: some number of descriptors is enough for every start and registry if and only if the files that are not libraries have no such cycle |
| ElfDescriptors.StuckTakesAll | src/loader/formats/elf/elfloader.c:685-723 | a load that starts among files that only lead to each other takes every descriptor |
| ElfDescriptors.LoadOpensFew | src/loader/formats/elf/elfloader.c:685-723 | where no needed name opens to another executable, a load opens no more files than it registers, and one more if it fails |
| ElfDescriptors.SuccessMeansRegistered | src/loader/formats/elf/elfloader.c:685-693 | so with two more descriptors than reachable libraries to register, a result of 0 means that all needed names are registered if and only if each was before or opens to a library |
| ElfDescriptors.ClosureExists | src/loader/formats/elf/elfloader.c:642-683 | the closure that loading is measured against exists for every disk and registry |
| ElfDescriptors.SelfNeedingTakesAll | src/loader/formats/elf/elfloader.c:642-723 | an executable that needs itself takes all descriptors there are, ends, and returns 0 |
| FileTable.Descriptors.New | src/fs/file.c:67-85 | the first free slot is taken and no other changes; -ENOMEM exactly when none is free |
| FileTable.Descriptors.Close | src/fs/file.c:241-254 | the result; no slot is given back |
| ElfLoader.Loader.Registered | src/loader/library.c:38-51 | the search finds exactly the registered names |
| ElfLoader.Loader.NameOf | src/loader/formats/elf/elfloader.c:277-279 | basename on buffers of 108 characters gives the base name of every path and needed name |
| ElfLoader.Loader.Open | src/fs/file.c:141-209 | 0 exactly when there is no such file or no free descriptor; else a descriptor is taken |
| ElfLoader.Loader.ElfLoad | src/loader/formats/elf/elfloader.c:685-723 | result code, registry and descriptors are those of the specification; the call ends for every set of files |
| ElfLoader.Loader.ProcessLoaded | src/loader/formats/elf/elfloader.c:642-683 | a rejected file changes nothing; a library is registered before what it needs is loaded |
| ElfLoader.Loader.ProcessDynamic | src/loader/formats/elf/elfloader.c:269-320 | the DT_NEEDED names in order, registered ones passed over, up to the first failure |
| ElfSegments.ElfFile.ProcessLoad | src/loader/formats/elf/elfloader.c:232-267 | one load header: for a library its address is the old one plus where the file was loaded, in 32 bits; the four bounds are widened |
| ElfSegments.ElfFile.ProcessPheader | src/loader/formats/elf/elfloader.c:322-337 | one header of any kind: its result, its rebasing and the bounds |
| ElfSegments.ElfFile.ProcessPheaders | src/loader/formats/elf/elfloader.c:339-353 | the first PT_DYNAMIC failure ends it with that code; every load header of a library before it has its old address plus where the file was loaded, exactly once; everything else in the headers stays; the bounds are those of the headers processed |
| ElfSegments.DifferencesKept | src/loader/formats/elf/elfloader.c:237-243 | differences between the load addresses of a library are those of its file |
| ElfSegments.LibraryTranslatesExactly | src/loader/formats/elf/elfloader.c:192-195 | a file-relative address of a library is translated to its own byte of the image, everywhere, if and only if the segments of the file share p_vaddr - p_offset |
| ElfSegments.EndIsMax | src/loader/formats/elf/elfloader.c:252-264 | the virtual end is the greatest p_vaddr + p_filesz |
| ElfSegments.BaseIsMinExactlyWhen | src/loader/formats/elf/elfloader.c:241-250 | the virtual base is the least p_vaddr if and only if none is zero or the last one is |
| ElfSegments.ZeroIsOverwritten | src/loader/formats/elf/elfloader.c:247-250 | a segment at address 0 in front of another: the base is that of the other |
| ElfSegments.BaseHasWitness | src/loader/formats/elf/elfloader.c:241-250 | one and the same header gave both base addresses |
| ElfSegments.EndHasWitness | src/loader/formats/elf/elfloader.c:254-264 | one and the same header gave both end addresses |
| ElfSegments.TranslatesExactlyWhenShared | src/loader/formats/elf/elfloader.c:192-195 | every segment byte is translated to its own byte of the image if and only if all segments share p_vaddr - p_offset |
| Library.FirstNamed | src/loader/library.c:107-120 | the earliest symbol of that name, or none exactly when no symbol has it |
| Library.SymbolArray.Insert | src/memory/array.c:14-29 | the sequence grows by the element at its end, in a new block; the old block keeps its content |
| Library.Entry.NewSymbol | src/loader/library.c:94-105 | appended, or refused when the name does not fit |
| Library.Entry.GetSymbolByName | src/loader/library.c:107-120 | the search over the array is the earliest symbol |
| ElfRelocations.FindLibrary | src/loader/library.c:38-51 | the first library of that name, or none exactly when none has it |
| ElfRelocations.LookupTakesFirst | src/loader/formats/elf/elfloader.c:414-452 | a symbol comes from the first needed library, in tag order, that defines it |
| ElfRelocations.LookupNowhere | src/loader/formats/elf/elfloader.c:414-452 | a symbol that none defines is 0, without an error |
| ElfRelocations.LookupEndsAtMissing | src/loader/formats/elf/elfloader.c:414-452 | a needed library that is not registered ends the search with 0 |
| ElfRelocations.NeededAreFound | src/loader/formats/elf/elfloader.c:642-683 | after loading, under the same conditions and within the free descriptors, every needed library is found when relocations are resolved |
| ElfRelocations.LookupAfterLoad | src/loader/formats/elf/elfloader.c:414-452 | so a symbol then comes from the first needed library that defines it, and is 0 when none does |
| ElfRelocations.AppliedElsewhere | src/loader/formats/elf/elfloader.c:541-576 | bytes outside all slots keep their value |
| ElfRelocations.SlotsFilled | src/loader/formats/elf/elfloader.c:541-576 | with slots apart, every slot holds the word of its own entry and all other bytes are unchanged |
| ElfRelocations.JumpSlotsFilled | src/loader/formats/elf/elfloader.c:507-515 | the place a jump slot names in the image, by the bounds of the file, holds byte for byte the address of the symbol that very entry names: the earliest in the first needed library that defines it, 0 if none does |
| ElfRelocations.JumpSlotsAfterLoad | src/loader/formats/elf/elfloader.c:507-576 | the same after a load within the free descriptors, with nothing asked about the registry |
| ElfRelocations.RelativesFilled | src/loader/formats/elf/elfloader.c:499-505 | the place a relative entry names holds its own address |
| ElfRelocations.RefusedEnds | src/loader/formats/elf/elfloader.c:517-576 | the first entry of an unknown type, or at null, ends it with its code; those before it are resolved |
| ElfRelocations.RelativeIsBasePlusAddend | src/loader/formats/elf/elfloader.c:499-505 | the word a relative entry stores is base plus the addend in its slot if and only if that addend is its own offset |
| ElfRelocations.RelativeIgnoresAddend | src/loader/formats/elf/elfloader.c:499-505 | a slot with addend 0 that gets a word other than the base |
| ElfRelocations.AppliedTwice | src/loader/formats/elf/elfloader.c:557-576 | resolving table after table is resolving all entries in a row, stopping at the first failure |
| ElfRelocations.Linker.LibraryGet | src/loader/library.c:38-51 | the search over the registry is the first of that name |
| ElfRelocations.Linker.GetLoadedSymbolAddress | src/loader/formats/elf/elfloader.c:414-452 | the two nested searches are the lookup; a library that is not registered ends it |
| ElfRelocations.Linker.Poke | src/loader/formats/elf/elfloader.c:454-465 | four bytes of the image, little-endian; -EIO for a null address |
| ElfRelocations.Linker.ResolveRelocation | src/loader/formats/elf/elfloader.c:499-539 | the word of the entry at its slot; -EUNIMP for an unknown type, -EIO for a slot at null, and then no change |
| ElfRelocations.Linker.ResolveTable | src/loader/formats/elf/elfloader.c:541-555 | the entries in order |
| ElfRelocations.Linker.ResolveRelocations | src/loader/formats/elf/elfloader.c:557-576 | all relocation sections in order |
| Scheduler.Search | src/task/task.c:340-356 | an awake task; none between it and the start is awake; it ends when the head is awake |
| Scheduler.AfterSelection | src/task/task.c:340-356 | selection wakes a task only when the head sleeps; the selected task is awake |
| Scheduler.CallsAbout | src/task/task.c:38-54 | what waking, pausing and sleeping write into a task, in plain numbers |
| Scheduler.SelectionNears | src/task/task.c:306-356 | selection never skips an awake task |
| Scheduler.BoundedWaiting | src/task/task.c:340-376 | a task awake at each of n calls is selected by one of them, whatever the other tasks do between the calls |
| Scheduler.WakesExactly | src/task/task.c:38-73 | in every run without a call about it, a sleeping task wakes exactly when the clock passes its deadline or a step selects it while the list head sleeps |
| Scheduler.SleepsUntil | src/task/task.c:38-73 | so a sleep of ms milliseconds ends at tick ms / 55 + 1, or at such a step before |
| Scheduler.LongSleepIsShort | src/task/task.c:38-73 | a wake-up time past 2^31 is negative, and the next tick wakes the task |
| Scheduler.WokenEarly | src/task/task.c:340-356 | a task that is to sleep for 19 ticks, and that the first one wakes |
| Scheduler.SleepsExactly | src/task/task.c:38-73 | while the list head stays awake it ends at tick ms / 55 + 1 and at no earlier step |
| Scheduler.PausedUntil | src/task/task.c:340-356 | in every run without a call about it, a paused task is woken exactly by a step that selects it while the list head sleeps |
| Scheduler.PausedWoken | src/task/task.c:340-356 | a paused task that one tick wakes |
| Scheduler.PausedStaysAsleep | src/task/task.c:516-520 | while the list head stays awake a paused task is not woken |
| Tasks.TaskList.New | src/task/task.c:415-450 | a fresh awake task at the end of the doubly linked list; the others keep place and state |
| Tasks.TaskList.GetAwakeCount | src/task/task.c:328-338 | the length of the awake front of the list |
| Tasks.TaskList.GetNextActive | src/task/task.c:340-356 | the recursion over the linked list ends and is the selection on positions |
| Tasks.TaskList.Next | src/task/task.c:368-376 | the current task becomes the selected one |
| Tasks.TaskList.WakeTasks | src/task/task.c:56-73 | exactly the sleeping tasks whose time has passed are woken |
| Tasks.TaskList.Interrupt | src/timer/pit.c:15-33 | a timer interrupt is the tick of the runs |
| Tasks.TaskList.Usleep | src/task/task.c:38-48 | the task sleeps until clock + ms, and gives way if it is the current one |
| Tasks.TaskList.Wake | src/task/task.c:50-54 | awake, with no wake-up time |
| Tasks.TaskList.Pause | src/task/task.c:516-520 | asleep, with no wake-up time |
| ProcessTree.WithoutConsistent | src/task/process.c:746-791 | taking out a process with all its descendants leaves every process with its parent |
| ProcessTree.ChildStays | src/task/process.c:720-730 | when the loop comes to a child it is still there, and so is its parent |
| ProcessTree.ThroughChild | src/task/process.c:720-730 | every proper descendant in the table descends from a child in the table |
| ProcessTree.AllChildrenGone | src/task/process.c:720-730 | the subtrees of all children, and the process, are the process with its descendants |
| ProcessTree.NotFromGone | src/task/process.c:782-785 | a live process never descends from one that is gone |
| ProcessTree.ProcessTable.GetFirstIgnore | src/task/process.c:609-620 | the other process in the lowest slot, or null exactly when there is none |
| ProcessTree.ProcessTable.TerminateSubprocesses | src/task/process.c:720-730 | exactly the subtrees of the children leave the table, each process freed once, with no halt inside |
| ProcessTree.ProcessTable.Free | src/task/process.c:746-791 | exactly the process and its descendants leave the table, each freed once and after its own descendants; a childless current process is succeeded by the one in the lowest other slot; it halts only when no other process exists |
| ProcessTree.ProcessTable.Terminate | src/task/process.c:507-512 | the same for every consistent table |
| Keyboard.PushAppends | src/keyboard/keyboard.c:123-139 | a non-zero character goes to the end of the queue while there is room |
| Keyboard.HoldsOne | src/keyboard/keyboard.c:123-161 | buffer and counters determine the queue |
| Keyboard.PushKeepsQueue | src/keyboard/keyboard.c:123-139 | after a push the ring holds the longer queue and no other, and none at all after a zero or into a full ring |
| Keyboard.PopTakesFirst | src/keyboard/keyboard.c:141-161 | the first character leaves the queue; an empty one gives 0 and stays |
| Keyboard.PlaceWraps | src/keyboard/keyboard.c:111-114 | the wrap of the counters at 2^32 agrees with the places in the ring |
| Keyboard.RunRefines | src/keyboard/keyboard.c:123-161 | every run of non-zero pushes that find room, and pops, gives out what a queue gives out |
| Keyboard.EmptyBufferIsQueue | src/keyboard/keyboard.c:123-161 | so does every such run from an empty buffer, wherever its counters stand |
| Keyboard.KeyboardBuffer.PushChar | src/keyboard/keyboard.c:123-139 | buffer and tail after a push; nothing without a process |
| Keyboard.KeyboardBuffer.PopChar | src/keyboard/keyboard.c:141-161 | buffer, head and character after a pop; 0 without one |

## Left out

Parts of the repository:

- Ports, ATA commands, interrupts, context switches and CR3 loads: hardware. The disk is a function from positions to bytes, and the page directory in use is a field. Reading a sector of the only disk there is waits for the drive and cannot fail (src/disk/disk.c:9-39 and :65-73), so the error branches behind it have no counterpart.
- FAT directory lookup, 8.3 names and `fat16_seek`: of `fopen`, what the directory finds is a map from path to content; the path check and the descriptor table are modelled.
- Section mapping of libraries and symbol export: the result of those later passes is one number per file image.
- The page-fault queue, `copy_string_to_task`, stack items, process arguments, video, fonts, GDT, system calls and user programs.
- `task_list_remove`: the source leaves a stale `prev` pointer behind, so no list invariant survives it. The task list is fixed or grows by `task_new`.
- The special keys, key listeners and the unused backspace of the keyboard.

Where the model says less than the code does, or asks for more:

- Heap.KernelHeap.Free: pointers 2 GB or more above the heap's start are excluded, because the block number would be computed from a negative int.
- PageDirectories.New4gb: with fewer than 1026 free blocks the source writes through a null pointer or halts; that is not modelled. The offset that the source keeps in a signed int is a word that wraps to 0 after the last table.
- PathParser.Parser.Parse: with fewer than 106 free blocks the source may write through a null pointer; that is not modelled. The buffer of a component is recorded as a whole when it is complete.
- UserCopy.Machine.CopyStringFromTask: asks that the user string is mapped and lies outside the page and the block of the temporary buffer, and that the destination does too; a page fault in the middle of the copy is not modelled. Bytes of memory, page frames and the heap table are three separate stores, so the copy cannot overwrite page tables.
- Paging.Set: page frames are 1024 words and are found by address; that a user page could be one of them is not expressed in this model. `ProcessMemory.Isolation` covers it for pages the heap has handed out.
- Fat16.Volume.ReadFromStream: asks that the positions computed for the clusters a request meets fit a signed 32-bit number, that is the first 2 GB of a volume, and that the data area lies far enough behind the start for clusters 0 and 1. What a failing read leaves in its own part of the buffer is not stated.
- Streamer.Stream.Read: positions stay below 2^31.
- Strtok.Basename: asks for a path with a non-empty component that is shorter than the buffers; without one the source copies from a null pointer.
- ElfLoader.Loader.ElfLoad: asks that the DT_NEEDED strings of the files reachable from the path have less than 108 characters and a last component of at most 104, so that the source's buffers hold them; longer ones run over those buffers. Memory for the files and stack for nested loads are taken to be enough. The tags of several PT_DYNAMIC headers are one list.
- ElfRelocations.Linker.ResolveRelocations: headers, symbol names and tags were parsed before, so a relocation cannot overwrite the metadata that is still to be read. Names are compared in full, where the source compares at most the length of its buffers.
- Library.SymbolArray.Insert: the registry of libraries is a sequence, where the source links the entries; nothing unlinks one.
- Scheduler.SleepsUntil: asks that the signed 32-bit clock has not run over at the tick that wakes the task; `Scheduler.PausedUntil` asks it for the run.
- ProcessTree.ProcessTable.Free: what a process owns (memory, page directory, files, video) is one entry in a log; its allocations are the subject of `ProcessCalls`. That the current process is one in the table afterwards is stated for processes without children only, since the switch can land on a child that is freed next. Waking the parent is not modelled, only that the parent has not been freed yet.
- Keyboard.PushKeepsQueue: what pops give once the ring holds no queue is not described.

# A verified model of an x86-64 teaching kernel

The kernel has three stateful parts, and this project models the hard core of
each: the memory stack (frame allocator, page tables, program loaders, heap),
the FAT16 file system with the shell commands that change it, and the process
table with its round-robin scheduler. Code that changes things in place is
modelled by classes and loops (`FrameAllocator`, `Vmm`, `HeapList`,
`Processes`, `Driver`); each method is proved equal to a function on values,
and the results are proved about those functions.

How the files build on each other:

- `pmm.dfy`: the bitmap over 32-bit words as a sequence of flags, and who owns
  which frame over whole runs.
- `paging.dfy`, `mapping.dfy`: four-level tables over physical frames. The
  central invariant is `Separated`: every table has one place in one tree, and
  everything else is data. On it rests that `vmm_map_page` is an update of a
  finite map.
- `address_spaces.dfy`, `identity.dfy`, `vmm.dfy`: what address spaces share
  and hide, the exact condition for the identity map, and the code.
- `loading.dfy`, `elf.dfy`, `elf_format.dfy`: a load as a trace of physical states. The loaders
  ignore a failed mapping, so the main theorem is an equivalence: the image is
  in place iff the free frames covered the pages and the missing tables.
- `load_area.dfy`, `progress.dfy`, `loader.dfy`, `flat.dfy`: the loaders as
  they run. They read the file from memory at 64 MB, which nothing reserves,
  while they take frames. A load is calm if that area is reserved or the free
  frames below it cover the demand; then the file stays where it is and the
  theorem applies. `FlatLoadLosesFile` is a load that is not calm.
- `taken.dfy`, `direct.dfy`: which frames a load takes, and when its mappings
  leave the kernel's own view of the memory it works on alone.
- `flat_exact.dfy`: the exact rule for flat files, which allows frames of the
  area to be taken behind the copying.
- `exec.dfy`, `launch.dfy`: from the sectors of the disk to the bytes the new
  process sees and the address it starts at, one exec after the other.
- `kheap.dfy`, `kheap_list.dfy`, `heap_runs.dfy`, `heap_fit.dfy`: the heap as a
  sequence of blocks, as the linked list of headers in memory, over whole runs
  on top of the frame allocator, and how much of it a request takes.
- `scheduler.dfy`, `context.dfy`, `process.dfy`: the scheduler as a state
  machine, the interrupt frame as pushes and pops on each process's stack, and
  the process table.
- `fat_names.dfy`, `fat_dir.dfy`, `fat_table.dfy`, `fat_volume.dfy`: names,
  directory entries, the allocation table and sectors, each as bytes and as
  what they mean.
- `fat_tree.dfy`, `fat_mount.dfy`, `fat_sessions.dfy`, `fat_commands.dfy`: the
  invariant of a healthy file system, how it is read off the bytes of a volume,
  that every session of commands keeps it, and what commands arrive at by name.
- `fat.dfy`, `fat_files.dfy`: the driver's loops over sectors and the loops
  that read files.

`dafny verify dfyconfig.toml` checks the whole project.

Assumptions about the machine. The disk is a sequence of 512-byte sectors that
reads back what was written. The loaders' accesses go to physical frames, as
src/kernel/elf.c:100 says; `SeesItsWork` states that the kernel's own mapping
leads there in every state, and `Direct` is the condition under which it does.
Clocks, devices and text output do not occur.
CR3 is the field `currentPml4` or `cr3`, the stack pointer of the TSS `tssRsp0`;
an interrupt out of user mode pushes there, any other on the current stack. Integers are unbounded; 64-bit
wrap-around is written out where an E820 entry or a segment can reach it.

Where promise and code part, the code is followed and the difference is a
theorem:

- docs/21_process_isolation.md:24-26 gives every process its own memory at
  256 MB; the code shares all of slot 0 (`UserAreaIsShared`,
  `IsolationExtent`).
- `kfree` merges list neighbours whatever their addresses, so the tiling
  theorems need contiguous pages (`ExpandTilesExactly`, `MergeAcrossGap`).
- The size of the bitmap is truncated (`InitPromise`, `InitPromiseCanFail`).
- A usable memory region that does not begin on a block boundary gives out a
  block that begins before it (`CoversExactly`).
- A first request that leaves 32 bytes or less takes them too, so two requests
  that would fit a page with their headers need not both be served
  (`TwoRequests`).
- rmdir stops at a volume label of the same name (`RmdirTargetExactly`).
- A loader can report success without having mapped everything
  (`LoadCanBeSilentlyIncomplete`, `LoadedExactly`).
- The load area is free memory to the allocator, so a load can overwrite the
  file it is reading although there are frames enough (`LoadAreaIsFree`,
  `FirstPageIsLost`, `FlatLoadLosesFile`); it keeps off the area exactly under
  the condition of `AreaUntakenExactly`, and flat files of a size all arrive
  exactly under that of `EveryFileArrivesExactly`.
- Programs are mapped inside the kernel's identity range, so loading one can
  take frames out of the kernel's direct reach (`IdentitySurvivesExactly`,
  `LoadReachesExactly`). An ELF file with a segment at 64 MB hides itself while
  it is being loaded (`FileIsHidden`).
- `rmdir .` deletes the current directory (`RmdirHealthyExactly`,
  `MkdirCdFindsItself`).
- mkdir and file reading treat a cluster as one sector
  (`FormattedIsFreshExactly`, `StaleDirectory`, `ReadsTheFileExactly`); the
  image is built with one sector per cluster (Makefile:51).

## Model

| member | source | states |
|---|---|---|
| `Pmm.TestAfterSet` | src/kernel/pmm.c:10-12 | setting bit i of a word and testing bit j: true for j = i, unchanged for every other bit |
| `Pmm.TestAfterClear` | src/kernel/pmm.c:10-12 | clearing bit i of a word: false for j = i, every other bit unchanged |
| `Pmm.InitPromise` | src/kernel/pmm.c:21-90 | whatever the bitmap memory held before, a block is free after initialisation iff it lies at or above 32 MB inside a usable entry; this holds exactly for the maps where the last total_blocks % 8 blocks, which the truncated memset misses, are reserved or usable |
| `Pmm.InitPromiseCanFail` | src/kernel/pmm.c:43-50 | a non-overflowing E820 map for which a block outside every usable entry ends up free |
| `Pmm.CoversExactly` | src/kernel/pmm.c:74-81 | the blocks freed for a usable entry are those that lie in it from first byte to last iff the entry begins on a block boundary or holds no whole block; otherwise the first block freed begins before it |
| `Pmm.LoadAreaIsFree` | src/kernel/pmm.c:84-90 | on a machine with 512 MB the block at 64 MB, where exec puts the file it loads, is free after initialisation: the load area is not reserved |
| `Pmm.CoveredIsBelowTotal` | src/kernel/pmm.c:30-42 | no bit at or above total_blocks is ever cleared |
| `Pmm.AllocCounts` | src/kernel/pmm.c:104-125 | allocation fails exactly when no block is free, and otherwise lowers the number of free blocks by one and marks exactly the block it returns |
| `Pmm.AllocKeepsOwnership` | src/kernel/pmm.c:104-125 | an allocation keeps the ownership account: used blocks are the reserved ones and the live ones, and no block has two owners |
| `Pmm.FreeKeepsOwnership` | src/kernel/pmm.c:128-133 | returning a live block keeps the ownership account |
| `Pmm.RunKeepsOwnership` | src/kernel/pmm.c:84-133 | over every sequence of allocations and frees of live blocks no block has two live owners and none lies below 32 MB |
| `Pmm.AllocReturnsLowestFree` | src/kernel/pmm.c:104-125 | in every such state 0 is returned iff every block is reserved or live, otherwise the lowest block that is neither |
| `Pmm.FrameAllocator.FindMaxAddr` | src/kernel/pmm.c:27-40 | the loop computes the largest end of a usable entry, in 64-bit arithmetic |
| `Pmm.FrameAllocator.Init` | src/kernel/pmm.c:21-90 | the word bitmap afterwards stands for exactly the flags of UsedAfterInit, block by block, relative to the old memory contents |
| `Pmm.FrameAllocator.AllocBlock` | src/kernel/pmm.c:104-125 | the bitmap scan refines allocation on the set of used blocks |
| `Pmm.FrameAllocator.FreeBlock` | src/kernel/pmm.c:128-133 | clearing the bit refines the release of one block |
| `Pmm.FrameAllocator.SetBlock` | src/kernel/pmm.c:10-10 | one bit of the word array changes and no other |
| `Pmm.FrameAllocator.ClearBlock` | src/kernel/pmm.c:11-11 | one bit of the word array changes and no other |
| `Paging.PathNamesPage` | src/kernel/vmm.c:28-39 | two addresses have the same four table indices iff they lie in the same page (bits 12 to 47) |
| `Paging.LookupViaDescend` | src/kernel/vmm.c:41-80 | the walk to a leaf entry is the walk to its table followed by one entry read |
| `Paging.PopulateKeepsSeparation` | src/kernel/vmm.c:41-77 | creating missing tables leaves every table with one place in one tree, whether or not a frame runs out half-way |
| `Paging.PopulateKeepsLookup` | src/kernel/vmm.c:41-77 | creating tables changes no translation of any address space |
| `Paging.PopulateCounts` | src/kernel/vmm.c:41-77 | the three levels succeed iff the missing tables can all be allocated, and take exactly that many frames; a failure uses up the rest |
| `Paging.PopulateKeepsData` | src/kernel/vmm.c:41-77 | no live data frame is overwritten or turned into a table |
| `Paging.PopulateTables` | src/kernel/vmm.c:41-77 | afterwards the tables under the root are the old ones and those along the path, and no others |
| `Mapping.MapTarget` | src/kernel/vmm.c:79-84 | after a mapping whose tables could be built the page's leaf entry is the new one |
| `Mapping.MapElsewhere` | src/kernel/vmm.c:34-84 | every other page, and in other address spaces every page outside slot 0, has the entry it had |
| `Mapping.MapFails` | src/kernel/vmm.c:42-75 | if a table cannot be allocated at any of the three levels, every translation everywhere is unchanged and the page was unmapped |
| `Mapping.MapKeepsSeparation` | src/kernel/vmm.c:34-84 | table separation is preserved whether the mapping succeeds or not |
| `Mapping.MapTranslates` | src/kernel/vmm.c:34-84 | address by address: the mapped page translates to its frame if the tables fit and the flags hold PRESENT, all others as before |
| `Mapping.MapPageRefinesUpdate` | src/kernel/vmm.c:34-84 | vmm_map_page is the update of a finite map from pages to frames at one key, or no update at all when a frame is missing |
| `Mapping.MapKeepsData` | src/kernel/vmm.c:34-84 | live frames that are not tables keep their contents and stay live |
| `Mapping.MapCounts` | src/kernel/vmm.c:34-84 | the exact number of frames a mapping consumes |
| `Mapping.NeedIsMissing` | src/kernel/vmm.c:42-75 | the number of frames asked for is the number of tables missing along the path |
| `Mapping.MapKeepsEntry` | src/kernel/vmm.c:42-77 | a present entry above the last level is never rewritten |
| `AddressSpaces.NewUserKeepsSharing` | src/kernel/vmm.c:115-127 | a user PML4 is a fresh table that shares slot 0 with all others |
| `AddressSpaces.RunIsConsistent` | src/kernel/vmm.c:34-127 | every run of PML4 creations, mappings and page allocations keeps all tables separated and slot 0 common |
| `AddressSpaces.SpacesAgreeBelow512GB` | src/kernel/vmm.c:121-124 | in every reachable state all address spaces translate every address below 2^39 alike |
| `AddressSpaces.IsolationExtent` | src/kernel/vmm.c:41-127 | a mapping made in one space shows in another iff its top index is 0; all translations with top index 1 to 511 in other spaces are unchanged |
| `AddressSpaces.UserAreaIsShared` | docs/21_process_isolation.md:24-26 | 256 MB lies in the shared slot: what one process maps there every process sees, contrary to the design text |
| `AddressSpaces.IdentitySurvivesExactly` | src/kernel/vmm.c:34-127 | an address below 2^39 that the kernel reaches at itself stays so after a mapping in any space iff the mapping was for another page or for the same frame again |
| `Identity.IdentityExactly` | src/kernel/vmm.c:98-108 | the loop maps the first 512 MB completely iff the tables it needs (one PDPT, one PD, 256 PTs) could be allocated |
| `Identity.InitMapsAllExactly` | src/kernel/vmm.c:92-113 | after vmm_init every address below 512 MB translates to itself iff at least 259 frames were free |
| `Identity.InitIsConsistent` | src/kernel/vmm.c:92-113 | a vmm_init with 259 free frames leaves a state from which all runs are separated and share slot 0 |
| `VirtualMemory.Vmm.EnsureTable` | src/kernel/vmm.c:41-52 | one level in place: the entry's table, or a fresh zeroed one hung into the entry, or nothing |
| `VirtualMemory.Vmm.FindPageTable` | src/kernel/vmm.c:41-77 | the three levels in place refine Populate |
| `VirtualMemory.Vmm.MapPage` | src/kernel/vmm.c:34-84 | the in-place walk refines the specified update and keeps the tables separated |
| `VirtualMemory.Vmm.MapIdentity` | src/kernel/vmm.c:100-108 | the loop passes through 131072 single-page mappings in order |
| `VirtualMemory.Vmm.Init` | src/kernel/vmm.c:92-113 | identity of the first 512 MB iff 259 frames were free, and then a consistent system |
| `VirtualMemory.Vmm.CreateUserPml4` | src/kernel/vmm.c:115-127 | in place: a fresh table with slot 0 of the kernel, or nothing when no frame is free |
| `Loading.NeverOutOfFrames` | src/kernel/elf.c:86-97 | if the free frames cover the pages and the missing tables, no allocation of a load ever fails |
| `Loading.EnoughFrames` | src/kernel/elf.c:86-124 | with enough frames every page of the plan is mapped at the end to a frame that holds its bytes |
| `Loading.TooFewFrames` | src/kernel/elf.c:86-124 | with too few, a load that was reported complete has an unmapped page |
| `Loading.LoadedExactly` | src/kernel/elf.c:86-128 | a reported load placed all its pages iff the free frames covered pages and missing tables |
| `Loading.LoadKeepsLiveFrames` | src/kernel/elf.c:99-123 | no frame that was live before the load and is not a page table is written |
| `Loading.StepKeepsSeparation` | src/kernel/elf.c:89-123 | the copy into a page never hits a page table |
| `Loading.LoadCanBeSilentlyIncomplete` | src/kernel/elf.c:97-97 | a state in which the loader reports success and the page is not mapped, since a failed mapping is not noticed |
| `Loading.LeafDecidesAccess` | src/kernel/vmm.c:42-82 | above the last level every entry of every table is present, writable and open to user mode, so user code can read and write a page iff its leaf entry says so |
| `Loading.LoadedIsAccessible` | src/kernel/elf.c:97-97 | after a load with frames enough all four entries along the path of every page allow reading and writing in user mode |
| `Elf.FillPage` | src/kernel/elf.c:101-123 | each page holds the file bytes of its overlap with the segment's data and zeros elsewhere |
| `Elf.ElfImageExactly` | src/kernel/elf.c:68-128 | for segments that share no page: on every page that a segment's memory reaches into, a process in user mode sees the file's bytes and zeros around them, iff the free frames covered the demand |
| `Elf.PlannedExactly` | src/kernel/elf.c:75-86 | a page is loaded for a segment iff it reaches into [vaddr, vaddr + memsz); for an empty segment, iff vaddr lies strictly inside the page |
| `Elf.SegmentIsSeen` | src/kernel/elf.c:75-124 | by the header alone: in a complete image the process sees file byte offset + (x - vaddr) at x in [vaddr, vaddr + filesz) and zeros up to vaddr + memsz |
| `ElfFormat.HeaderReadsBack` | includes/elf.h:19-34 | of an Elf64_Ehdr written field by field the loader accepts exactly 64-bit little-endian x86-64 EXEC or DYN files and reads back entry point, number and place of the program headers |
| `ElfFormat.SegmentReadsBack` | includes/elf.h:64-73 | of an Elf64_Phdr written field by field the loader reads back address, sizes and file offset, and asks for a load iff the type is 1 |
| `ElfFormat.FileReadsBack` | src/kernel/elf.c:60-79 | for a whole file: the segments that will be loaded are those of the PT_LOAD headers that were written, in order, and the program starts at the entry point that was written |
| `Elf.PlanOfHeader` | src/kernel/elf.c:71-75 | what a file asks for is the concatenation of the pages of its PT_LOAD headers, in order |
| `LoadArea.TakenFromRoom` | src/kernel/pmm.c:104-125 | allocation is lowest first: while a frame below 64 MB is free, the next one comes from there and leaves one fewer |
| `LoadArea.StepInRoom` | src/kernel/elf.c:88-123 | a page and its tables built from frames below the load area leave every data frame from 64 MB on as it was |
| `LoadArea.StepKeepsArea` | src/kernel/elf.c:88-123 | placing a page leaves the file in the load area if the area is reserved or the frames below it cover the page and its missing tables |
| `LoadArea.StepShields` | src/kernel/elf.c:86-124 | that condition, checked once for the whole load, holds again after every page |
| `LoadArea.AreaUntakenExactly` | src/kernel/elf.c:86-124 | the condition is exact: a complete load takes no frame of the load area iff the area was reserved or the free frames below it covered the pages and the missing tables |
| `TakenFrames.LoadCounts` | src/kernel/elf.c:86-97 | a load takes no more frames than its pages and missing tables, and exactly as many when it is complete and there were enough |
| `TakenFrames.TakenExactly` | src/kernel/pmm.c:104-125 | between two states a frame was taken iff it is among as many lowest free ones as were taken in all, so a caller can name them beforehand |
| `TakenFrames.TakenIsNamed` | src/kernel/elf.c:86-97 | every frame taken in any state of a load is one of those that can be named from its demand |
| `DirectView.LoadKeepsView` | src/kernel/vmm.c:34-127 | through a whole load every address whose page is not in the plan keeps its translation, in every address space |
| `DirectView.LoadKeepsReach` | src/kernel/elf.c:97-122 | so a frame whose own address no page of the plan has stays where the kernel sees it |
| `DirectView.StepTakesView` | src/kernel/elf.c:97-97 | placing the page of such an address in any space makes the kernel see the frame just taken there |
| `DirectView.FileIsHidden` | src/kernel/elf.c:97-122 | for a segment at 64 MB: when its frame is mapped and cleared, the kernel reads zeros where the file was |
| `DirectView.StepReachesExactly` | src/kernel/vmm.c:34-127 | one page: the kernel still finds a frame at its address iff the page was another one or the frame is the one taken |
| `DirectView.LoadReachesExactly` | src/kernel/elf.c:86-124 | a whole load: in every state the kernel still finds the frame iff the page at its address, if placed yet, was put into that frame itself |
| `DirectView.LoadIsDirect` | src/kernel/elf.c:86-124 | if beforehand no page of the plan has the address of a table, of a frame of the load area or of a frame that will be taken, then in every state of the load the kernel sees all of these at their own addresses |
| `LoadProgress.LoadKeepsSharing` | src/kernel/elf.c:86-124 | a load into one address space, whatever it places, keeps all spaces separated and slot 0 common to them |
| `Loader.LoadPage` | src/kernel/elf.c:88-123 | one iteration in place, on any memory, is one step of a load or finds memory exhausted; in a calm load it places the page of the segment that the file promises and keeps the load calm |
| `Loader.LoadSegment` | src/kernel/elf.c:75-124 | the page loop places as many pages as the segment covers, or stops with no frame left; in a calm load exactly the segment's pages |
| `Loader.LoadHeader` | src/kernel/elf.c:73-125 | a program header read from memory at the address the loop has come to; in a calm load it is the file's, and its segment is placed iff it is PT_LOAD |
| `Loader.LoadSegments` | src/kernel/elf.c:69-126 | the header loop, which reads the address of the table once and the number of headers again each time, ends on any memory; in a calm load it places exactly the plan |
| `Loader.LoadFile` | src/kernel/elf.c:60-129 | on any memory the tables stay separated, and an unsupported header changes nothing; for a supported file that is in the load area, shielded and out of the way of the kernel's view, the entry point comes back, the kernel sees all it works on in every state, and the whole image is in place iff the demand was covered |
| `FlatBinary.WriteThenMap` | src/kernel/kernel.c:345-358 | filling a live data frame and then mapping a page has the same effect as mapping first |
| `FlatBinary.FillFirstIsLoadStep` | src/kernel/kernel.c:342-358 | an iteration of the flat loop is a step of a load |
| `FlatBinary.TakeFilled` | src/kernel/kernel.c:342-355 | the frame taken is cleared first and then filled from the load area as it is after the clearing |
| `FlatBinary.FlatBytesOfFile` | src/kernel/kernel.c:348-355 | with the file in the load area a page holds the file's bytes from its offset on and a zero tail |
| `FlatBinary.FlatPages` | src/kernel/kernel.c:336-359 | on any memory the loop passes through the specified states and places the specified pages, one per page of the size, or stops with no frame left |
| `FlatBinary.LoadFlat` | src/kernel/kernel.c:336-361 | for a file in a shielded load area and out of the way of the kernel's view: in every state the kernel sees what it works on, and the file is in place at 0x10000000 and success was reported iff the frames covered pages and missing tables |
| `FlatBinary.FlatSpares` | src/kernel/kernel.c:336-358 | a flat file is out of the way of exactly those frames that do not lie in its own range from 256 MB on |
| `FlatBinary.FlatImage` | src/kernel/kernel.c:336-361 | byte x of a loaded file is seen at 0x10000000 + x, and zeros up to the end of the last page |
| `FlatBinary.FirstPageIsLost` | src/kernel/kernel.c:342-355 | whenever the lowest free frame is the first of the load area, the process sees zeros for the first page, whatever the file |
| `FlatBinary.FlatLoadLosesFile` | src/kernel/kernel.c:336-361 | a memory with more free frames than the load asks for in which the file is lost, so the condition on the load area is needed |
| `FlatExactly.TakenByCopyExactly` | src/kernel/kernel.c:340-349 | whether the frame of page k has been taken when that page is copied can be told before the load |
| `FlatExactly.RightIfCopiedInTime` | src/kernel/kernel.c:336-361 | frames of the load area may be taken behind the copying: if none is taken before its page was copied, the process sees the file |
| `FlatExactly.WrongIfTakenBefore` | src/kernel/kernel.c:336-361 | if the frame of page k is taken before, the file with a single one at the beginning of page k is not what the process sees |
| `FlatExactly.FlatRunExists` | src/kernel/kernel.c:340-359 | from every state with frames enough there is a complete run of the loop |
| `FlatExactly.EveryFileArrivesExactly` | src/kernel/kernel.c:336-361 | with frames enough: every load of every file of a size arrives whole iff each frame of the load area is in use beforehand or not among the frames taken up to the copy of its page |
| `FlatExactly.ProgressIsUntakenExactly` | src/kernel/elf.c:86-124 | for the progress that either loader returns: it took no frame of the load area iff the area was reserved or the free frames below covered what it placed |
| `Elf.DecidedByFile` | src/kernel/elf.c:13-34 | a file of four bytes, or one with a byte that does not belong to the ELF mark, is told apart by its own bytes whatever lies behind it |
| `Exec.LoadImage` | src/kernel/kernel.c:326-361 | the choice between the ELF and the flat loader, with the entry point, the kernel's view in every state, and the exact condition for the image to be in place |
| `Exec.FlatStartsAtFirstByte` | src/kernel/kernel.c:360-363 | the address where a flat program starts shows the file's first byte |
| `Exec.ReadProgram` | src/kernel/kernel.c:292-306 | reading the file changes frames of the load area only and leaves the file there; the address spaces stay in order |
| `Exec.SpaciousIsShielded` | src/kernel/vmm.c:115-127 | if the load area is reserved, or the frames below 64 MB cover the new PML4, the pages and the missing tables, neither the PML4 nor the load takes a frame of the area |
| `Exec.RoomyIsDirect` | src/kernel/vmm.c:115-127 | if no page of the program has the address of memory that exec works on, that still holds in the new address space when the load begins |
| `Exec.Exec` | src/kernel/kernel.c:292-361 | from disk to image: all address spaces stay separated and share slot 0, one more is there iff a frame was free and it is handed on, the frames taken are the lowest free ones; for a program with room the entry point is handed on, the kernel sees what it works on in every state of the load, and the new space shows exactly the bytes read iff the frames sufficed |
| `Exec.ExecCommand` | src/kernel/kernel.c:263-361 | by name: a name that is not found changes nothing; otherwise exec of the entry's chain and size with all that Exec says, after which the next command can follow |
| `Launching.Run` | src/kernel/kernel.c:263-363 | the whole command: what exec comes to, with image and processes left in order; there is one process more iff a program was loaded and the table has a slot and memory two frames, and that process will start at the program's entry point in the program's address space |
| `Launching.Start` | src/kernel/kernel.c:363-363 | no process without an entry point; otherwise it is created exactly when slot and stacks are there, and starts at that entry point in that address space |
| `ProcessTable.CanSpawnExactly` | src/kernel/process/process.c:85-106 | a process can be created iff fewer than 16 are in the table and two frames are free |
| `Exec.FileOfIsContents` | src/kernel/kernel.c:280-306 | with one sector per cluster and a chain long enough, what exec reads are exactly the file's bytes |
| `Exec.SecondExecOverwritesFirst` | src/kernel/kernel.c:319-363 | after a second flat file was loaded, the process of the first exec reads the second file's bytes at 0x10000000 |
| `KHeap.ExpandTilesExactly` | src/kernel/kheap.c:82-111 | growth keeps the blocks tiling the heap range iff the new page starts where the last block ends |
| `KHeap.RunIsSound` | src/kernel/kheap.c:11-143 | over every run of kmalloc and kfree of live pointers with contiguous pages: blocks tile the range, size + 24 sums to whole pages, live payloads are inside, disjoint and as large as requested |
| `KHeap.InitialHeapIsSound` | src/kernel/kheap.c:11-28 | the heap of init_kheap is such a starting point |
| `KHeap.PayloadsApart` | src/kernel/kheap.c:47-71 | between two payloads in use there is room for a header |
| `KHeap.CoalesceIsCanonical` | src/kernel/kheap.c:127-142 | the merge loop leaves no two neighbours free |
| `KHeap.FreeIsCanonical` | src/kernel/kheap.c:116-143 | after any kfree no two list neighbours are both free |
| `KHeap.CarveIsCanonical` | src/kernel/kheap.c:47-71 | kmalloc without growth keeps that form |
| `KHeap.FreeUndoesMalloc` | src/kernel/kheap.c:47-143 | from every heap of that form, wherever its pages lie, kfree(kmalloc(n)) restores the block list exactly, split or not |
| `KHeap.CarveSucceeds` | src/kernel/kheap.c:46-71 | first fit succeeds iff some free block is large enough |
| `KHeap.RetrySucceeds` | src/kernel/kheap.c:73-113 | for 0 < n <= 4072 the call after a growing one succeeds |
| `HeapFit.MallocTakes` | src/kernel/kheap.c:47-71 | a successful kmalloc(n) takes the first block with room and gives out n bytes of it, or at most 32 more; exactly n if more than 32 would be left over, and the free bytes go down by what was given out and by a header if the block was split |
| `HeapFit.RequestsServedExactly` | src/kernel/kheap.c:47-71 | a free block behind blocks in use serves a whole sequence of requests iff each but the last leaves more than a header and 8 bytes and the next one fits |
| `HeapFit.TwoRequests` | src/kernel/kheap.c:47-71 | from init_kheap on two requests are both served iff both fit with their headers and the first leaves a block worth splitting off; the second payload then lies behind the first and one header |
| `KHeap.GrowthIsBounded` | src/kernel/kheap.c:73-113 | with contiguous pages at most ceil((n + 24) / 4096) growing calls precede success |
| `KHeap.ScatteredGrowthNeverHelps` | src/kernel/kheap.c:103-111 | without contiguity no growing call ever serves a request larger than a page |
| `KHeap.TwoPagesTaken` | src/kernel/kheap.c:30-114 | from init_kheap on, three requests of 4072 bytes end with the first page and any later page both in use |
| `KHeap.MergeAcrossGap` | src/kernel/kheap.c:133-137 | from there, for any two pages with a gap: kfree merges across it and the next kmalloc hands out memory outside the heap |
| `KHeapList.HeapList.Init` | src/kernel/kheap.c:11-28 | the linked list after initialisation is the one block of the page, or empty when no page came |
| `KHeapList.HeapList.FindFit` | src/kernel/kheap.c:43-71 | the list walk finds the block first fit chooses, or the last block and the proof that none fits |
| `KHeapList.HeapList.Use` | src/kernel/kheap.c:52-67 | splitting and marking in place refines the split of one block in the sequence |
| `KHeapList.HeapList.Append` | src/kernel/kheap.c:82-111 | linking in a page, with the adjacency merge, refines growth of the sequence |
| `KHeapList.HeapList.Malloc` | src/kernel/kheap.c:30-114 | the linked-list kmalloc refines kmalloc on the sequence of blocks |
| `KHeapList.HeapList.Merge` | src/kernel/kheap.c:130-142 | the pointer loop refines coalescing from the head on |
| `KHeapList.HeapList.Free` | src/kernel/kheap.c:116-143 | the linked-list kfree refines kfree on the sequence of blocks |
| `HeapRuns.SupportedIsReady` | src/kernel/kheap.c:30-114 | a tiled heap whose frames are handed out is everything that the linked-list kmalloc asks for |
| `HeapRuns.InitIsSupported` | src/kernel/kheap.c:11-28 | init_kheap sets up such a heap |
| `HeapRuns.RunIsSupported` | src/kernel/kheap.c:11-143 | over every run of kmalloc, kfree and other users of the frame allocator it stays so, with contiguous pages |
| `HeapRuns.Serve` | src/kernel/kheap.c:30-143 | the code serves any request of such a run and leaves the list ready for the next |
| `HeapRuns.ServeAll` | src/kernel/kheap.c:30-143 | the code serves whole runs: list and bitmap end as the run on values does |
| `KHeapList.TilesAreApart` | src/kernel/kheap.c:52-63 | in a tiled heap headers are distinct and no header lies inside another block |
| `Scheduler.PickIsFirstReady` | src/kernel/process/process.c:192-203 | the scan returns the READY process the fewest steps ahead, and the current one only when none is READY |
| `Scheduler.RunIsSafe` | src/kernel/process/process.c:14-231 | in every run with PID 0 never killed: current_pid inside the table, exactly one scanned slot RUNNING and it is the current one |
| `Scheduler.DeadStaysDead` | src/kernel/process/process.c:161-216 | a DEAD process stays DEAD and never runs again |
| `Scheduler.DeadRunsAgainExactly` | src/kernel/process/process.c:205-216 | without that assumption: schedule puts a DEAD process back to RUNNING iff it is the current one, nothing is READY and PID 0 is not RUNNING |
| `Scheduler.StepComesCloser` | src/kernel/process/process.c:192-216 | every schedule call strictly lowers the forward distance modulo 16 to a process that stays READY |
| `Scheduler.WaitIsBounded` | src/kernel/process/process.c:192-216 | fewer schedule calls than the initial distance can pass without choosing a READY process |
| `Scheduler.ChosenWithin15` | src/kernel/process/process.c:192-216 | a READY process is chosen within 15 schedule calls whatever is created or killed meanwhile |
| `Context.PopsReversePushes` | src/kernel/interrupt.asm:49-114 | the pops read back the words in the reverse order of the pushes |
| `Context.PushOrderIsLayout` | src/kernel/isr.c:15-23 | the words the stub and the CPU push form the registers_t layout, lowest address first |
| `Context.SaveThenResume` | src/kernel/interrupt.asm:47-118 | saving and resuming on the same stack pointer restores every register, for any memory contents |
| `Context.HandlerReads` | src/kernel/isr.c:15-36 | the handler finds the interrupt number and rax in words 16 and 1 of the frame |
| `Context.EntersOwnStack` | src/kernel/process/process.c:225-228 | in every coherent machine an interrupt out of user mode pushes its frame at the upper end of the running process's own kernel stack, because the TSS holds it |
| `Context.SwitchEquips` | src/kernel/process/process.c:215-228 | after a switch TSS and CR3 are those of the process picked |
| `Context.FirstResume` | src/kernel/process/process.c:114-148 | a never-run process is resumed with zeroed registers, RIP at the entry, the given CS and SS, RFLAGS 0x202 and RSP at its stack top, out of all 23 frame words |
| `Context.SwitchRestores` | src/kernel/process/process.c:182-231 | a switch resumes the chosen process with the registers recorded when it was last switched out |
| `Context.SwitchIsCoherent` | src/kernel/process/process.c:182-231 | after a switch every waiting process still has its frame on its own stack, every created process its own stack in the table, and TSS and CR3 belong to the one running |
| `Context.SpawnIsCoherent` | src/kernel/process/process.c:85-157 | so does creation, for the old processes and the new one |
| `Context.FailingIsCoherent` | src/kernel/process/process.c:97-106 | so does a creation that ran out of stacks |
| `Context.ExecutionIsCoherent` | src/kernel/isr.c:25-110 | and hence every execution of computing, switching, creating and failing to create |
| `Context.SwitchedOutAndBack` | src/kernel/process/process.c:182-231 | a process switched out and next resumed, however much later, continues with exactly the registers it left with |
| `ProcessTable.Processes.Init` | src/kernel/process/process.c:14-29 | a safe scheduler state with PID 0 running |
| `ProcessTable.Processes.WriteFrame` | src/kernel/process/process.c:114-146 | the 23 words written downward are the pushes of a frame, nothing else changes |
| `ProcessTable.Processes.CreateUser` | src/kernel/process/process.c:85-157 | a full table changes nothing, a failed stack allocation leaves process_count alone, success is the creation step with its first frame in memory |
| `ProcessTable.FreshStackSpawns` | src/kernel/process/process.c:97-148 | that a new kernel stack overlaps no other follows from the frame allocator, so creation is a spawning of an execution |
| `ProcessTable.Processes.SpawnUser` | src/kernel/process/process.c:85-157 | from a coherent machine with owned stacks, every outcome of create_user_process is coherent with owned stacks again; a process is added iff there is a slot and a frame for each stack, and it waits with its entry point, PML4, kernel stack, and a user stack of its own that overlaps no kernel stack |
| `ProcessTable.FreshRegisters` | src/kernel/process/process.c:114-148 | such a process comes up in ring 3 (a kernel process in ring 0) at its entry point, with its stack pointer, interrupts on and cleared registers |
| `ProcessTable.BootIsCoherent` | src/kernel/process/process.c:14-29 | the machine after init_multitasking is where executions begin |
| `ProcessTable.Processes.CreateKernel` | src/kernel/process/process.c:33-83 | the same for kernel processes, whose stack allocation is not checked |
| `ProcessTable.Processes.SpawnKernel` | src/kernel/process/process.c:33-83 | when there was a stack, creating a kernel process keeps the machine coherent, and it waits in ring 0 on the stack that it will be interrupted on |
| `ProcessTable.Processes.Scan` | src/kernel/process/process.c:192-203 | the do-while loop finds what Pick specifies and its early return is never taken |
| `ProcessTable.Processes.Schedule` | src/kernel/process/process.c:182-231 | the in-place scheduler refines the step function; the returned rsp, CR3 and TSS stack are those of the chosen process |
| `ProcessTable.Processes.KillCurrent` | src/kernel/process/process.c:161-180 | exactly the current entry becomes DEAD |
| `ProcessTable.Processes.HandleInterrupt` | src/kernel/isr.c:25-110 | timer and exit are the scheduler's steps, every other vector returns to the interrupted frame |
| `ProcessTable.Processes.Interrupt` | src/kernel/interrupt.asm:47-118 | an interrupt from the pushes to iretq: pushed where the TSS says or on the kernel's stack, it is a switch of an execution or returns with all registers as they were, and the machine stays coherent |
| `FatTable.EntryWriteRefines` | src/fs/fat.c:110-123 | writing two bytes on disk changes exactly one entry of the 16-bit table |
| `FatTable.TableBytes` | src/fs/fat.c:95-123 | the table on disk is its 16-bit entries one after the other, low byte first |
| `FatTable.AllocateClaimsLowest` | src/fs/fat.c:125-154 | the lowest free cluster from 2 on is claimed as a chain of its own; 0 comes back iff none is free |
| `FatTable.ChainUnique` | src/fs/fat.c:156-195 | a first cluster determines its chain |
| `FatTable.FreeKeepsOtherChain` | src/fs/fat.c:564-575 | freeing one chain leaves every disjoint chain whole |
| `Names.StoredReadsBack` | src/fs/fat.c:446-476 | a name of 8.3 shape without blanks, stored and shown again, is the name in capitals |
| `Names.MatchesUpToCase` | src/fs/fat.c:198-239 | such a stored name is matched by exactly the spellings equal up to ASCII case |
| `Names.SameUpToCase` | src/fs/fat.c:224-236 | characters compare equal iff they are equal or the two forms of one letter |
| `Names.FoundAsTypedExactly` | src/fs/fat.c:198-239 | a stored name is matched by the text it was made from iff that text has 8.3 shape |
| `Names.FilenameMatch` | src/fs/fat.c:198-239 | the buffer-building comparison decides Matches |
| `Names.EncodeName` | src/fs/fat.c:446-476 | the parsing loops compute the stored name and extension |
| `Directory.FindIsFirst` | src/fs/fat.c:345-364 | lookup returns n iff n is the first candidate and no end marker lies before it |
| `Directory.FindNothing` | src/fs/fat.c:345-368 | with a clean tail lookup fails iff no entry is a candidate |
| `Directory.RmSearchAgrees` | src/fs/fat.c:625-681 | with a clean tail the search of rm, which skips to the next sector at an end marker, finds what find finds |
| `Directory.FindToDeleteIsFirst` | src/fs/fat.c:625-648 | the search before a deletion returns a slot iff it is the first live entry of the name, for rmdir volume entries included |
| `Directory.FindToDeleteNothing` | src/fs/fat.c:625-648 | and nothing iff there is no such entry |
| `Directory.LayoutOf` | includes/fat.h:33-49 | cluster, size, attributes and name are read where the on-disk entry has them |
| `Directory.NewEntryFields` | src/fs/fat.c:501-511 | a new entry reads back with its name, attributes, cluster and size |
| `Directory.EmptyMeansDotsOnly` | src/fs/fat.c:577-615 | the emptiness test holds iff every live entry is a dot entry |
| `Directory.CreateFindAgreement` | src/fs/fat.c:442-562 | after a create the new entry is found under every spelling of its name that found nothing before, and all other names as before |
| `Directory.CreatedIsFoundExactly` | src/fs/fat.c:442-562 | among new names exactly those of 8.3 shape that do not begin with byte 0xE5 are found again as typed |
| `Directory.DeleteThenFind` | src/fs/fat.c:617-686 | after deleting the only match the name is not found; names the entry did not have are found as before |
| `Mount.CreateShowsInFind` | src/fs/fat.c:478-537 | the same on the bytes of the volume, for a directory of any chain of sectors |
| `Mount.DeleteShowsInFind` | src/fs/fat.c:668-678 | the same on the bytes of the volume after the chain was freed and the entry marked |
| `Commands.RmdirTargetExactly` | src/fs/fat.c:702-744 | rmdir takes a slot iff it is the first live entry of the name and a directory with dot entries only |
| `Commands.RmTargetExactly` | src/fs/fat.c:625-666 | rm takes a slot iff it is the first file or directory of the name and no directory |
| `Commands.RmdirRemoves` | src/fs/fat.c:688-763 | rmdir of an empty subdirectory by its only name removes it: the name is not found, other names are as before, its clusters and no others become free, and the volume is healthy |
| `Commands.RmRemoves` | src/fs/fat.c:617-686 | the same for rm of a file |
| `Commands.EmptyExactly` | src/fs/fat.c:577-615 | on a healthy volume, in a directory without volume entries, empty means neither files nor subdirectories |
| `Commands.RmdirUndoesMkdir` | src/kernel/kernel.c:411-494 | mkdir of a new 8.3 name followed by rmdir of it restores the allocation table and every lookup |
| `Commands.CdArrives` | src/fs/fat.c:370-383 | the first file or directory of the name decides: a subdirectory leads to its cluster, .. to the directory that holds the entry of the current one, anything else nowhere |
| `Commands.CdThereAndBack` | src/fs/fat.c:370-440 | cd into a subdirectory and cd .. return |
| `Commands.CdUpInEverySession` | src/kernel/kernel.c:379-494 | in every state of every session cd .. leads from every directory to the one that holds its entry |
| `Volume.SlotReadsBack` | src/fs/fat.c:501-511 | rewriting one 32-byte slot of a sector changes that slot only |
| `Volume.ChainSectorAt` | src/fs/fat.c:177-193 | sector q * spc + r of a chain is sector r of its cluster q, for any sectors per cluster |
| `Volume.ClustersApart` | src/fs/fat.c:156-159 | distinct clusters have no sector in common |
| `Volume.ClusterOfExactly` | src/fs/fat.c:156-159 | sector k behind the root directory is sector k % spc of cluster 2 + k / spc, and of no other |
| `Volume.ClustersFollow` | src/fs/fat.c:156-159 | cluster 2 begins behind the root directory and each cluster spc sectors after the one before |
| `Volume.ChainsApart` | src/fs/fat.c:156-195 | chains without common clusters have no common sectors |
| `Volume.ChainSectorsDistinct` | src/fs/fat.c:156-195 | an acyclic chain visits no sector twice |
| `Volume.ChainClearOfRoot` | src/fs/fat.c:79-83 | no cluster shares a sector with the root directory |
| `FileTree.LiveIsNotFree` | src/fs/fat.c:564-575 | no cluster of a live chain is free |
| `FileTree.RemoveIsHealthy` | src/fs/fat.c:668-675 | deleting the entry of a file or an empty directory, not the current one, with its chain keeps every other chain whole and disjoint and the tree owned entry by entry |
| `FileTree.ClaimIsHealthy` | src/fs/fat.c:125-154 | claiming a free cluster cross-links nothing; at worst the cluster is lost |
| `FileTree.AdoptIsHealthy` | src/kernel/kernel.c:411-465 | entering a claimed, formatted cluster as a directory keeps all chains disjoint and every directory owned once |
| `FileTree.MoveIsHealthy` | src/fs/fat.c:383-383 | moving to a live directory keeps the file system healthy |
| `Mount.PutIsMounted` | src/fs/fat.c:513-536 | a slot write on the volume shows as that slot of that directory and nowhere else in the tree |
| `Mount.RemoveIsMounted` | src/fs/fat.c:668-675 | so does a deletion with the freeing of a chain |
| `Mount.TouchIsGood` | src/kernel/kernel.c:393-410 | touch keeps the volume a healthy file system |
| `Mount.RmIsGood` | src/fs/fat.c:617-686 | so does rm, whatever name is given |
| `Mount.RmdirIsGood` | src/fs/fat.c:688-763 | so does rmdir unless it found the current directory's own entry; .. always leads to a directory that is not empty |
| `Mount.OnlyDotFindsItself` | src/fs/fat.c:707-718 | that happens for no argument but . |
| `Mount.RmdirLosesCurrentDir` | src/fs/fat.c:746-752 | given . it frees the cluster of the current directory |
| `Mount.FreshDirFindsItself` | src/fs/fat.c:688-763 | in a fresh directory rmdir . does find the directory itself |
| `Sessions.MkdirCdFindsItself` | src/kernel/kernel.c:379-494 | mkdir of a new name and cd into it lead to such a state from every healthy volume with a free cluster and slot |
| `Mount.RmdirHealthyExactly` | src/fs/fat.c:688-763 | when rmdir deletes something, the volume still holds a healthy file system with this current directory iff what it found was not . |
| `Mount.CdIsGood` | src/fs/fat.c:370-440 | cd arrives at a live directory or stays |
| `Sessions.FormatIsGood` | src/kernel/kernel.c:422-452 | claiming and formatting a cluster shows in no directory |
| `Sessions.FormattedIsFreshExactly` | src/kernel/kernel.c:430-452 | on clusters of any size the new directory holds . and .. and end markers iff the sectors mkdir does not clear held nothing but end markers |
| `Sessions.StaleDirectory` | src/kernel/kernel.c:430-452 | a volume with two sectors per cluster on which mkdir leaves a directory with entries behind its first end marker |
| `Sessions.MkdirIsGood` | src/kernel/kernel.c:411-465 | for any cluster size, if the claimed cluster is blank behind its first sector, mkdir keeps the file system healthy whether it succeeds, finds no cluster, or finds no slot and leaks the cluster |
| `Sessions.EverySessionIsSound` | src/kernel/kernel.c:379-494 | for any cluster size, in every state of every session of touch, mkdir (with a blank rest of the claimed cluster), rm, rmdir (not .) and cd: chains acyclic, end-marked and pairwise disjoint, no live chain with a free cluster, clean directory tails, a live current directory |
| `Sessions.EmptyVolumeIsSound` | src/fs/fat.c:79-83 | a volume with an empty root directory is such a state |
| `Sessions.SessionsGoOn` | src/kernel/kernel.c:379-494 | in such a state every allowed command has its step, so the statement covers all sessions |
| `Sessions.FileBytesAreKept` | src/kernel/kernel.c:379-494 | no command changes a byte of a file's clusters |
| `Sessions.FileChainsAreKept` | src/kernel/kernel.c:379-494 | a command takes a file's chain away iff it is an rm that found the file's own entry |
| `Fat16.Driver.constructor` | src/fs/fat.c:79-83 | the layout arithmetic of fat_init |
| `Fat16.Driver.NextCluster` | src/fs/fat.c:95-108 | the bytes read are the table entry |
| `Fat16.Driver.WriteFatEntry` | src/fs/fat.c:110-123 | one entry of the table changes, the sectors behind the FATs do not |
| `Fat16.Driver.AllocateCluster` | src/fs/fat.c:125-154 | the sector-by-sector scan refines Allocate |
| `Fat16.Driver.FreeClusterChain` | src/fs/fat.c:564-575 | the loop ends, because each step uses up a link, and exactly the chain's entries become free |
| `Fat16.Driver.LbaOfCluster` | src/fs/fat.c:156-159 | the sector of a cluster: c - 2 whole clusters behind the start of the data area |
| `Fat16.Driver.ReadDirSector` | src/fs/fat.c:161-195 | with index 0, 1, 2, ... the directory's sectors are read in order and then it stops, for any sectors per cluster |
| `Fat16.Driver.DirLba` | src/fs/fat.c:513-534 | the address recomputed for writing back is the sector just read, never in the FATs, and behind the root for a subdirectory |
| `Fat16.Driver.FindFile` | src/fs/fat.c:334-368 | the two loops find the entry of Find, or nothing iff Find finds nothing |
| `Fat16.Driver.SearchToDelete` | src/fs/fat.c:625-648 | the search loops of rm and rmdir refine FindToDelete and deliver sector and slot |
| `Fat16.Driver.IsDirEmpty` | src/fs/fat.c:577-615 | the two loops decide IsEmpty |
| `Fat16.Driver.CreateEntry` | src/fs/fat.c:442-562 | the disk afterwards and the result are those of CreateIn: the first free slot filled, or nothing changed when there is none |
| `Fat16.Driver.DeleteFile` | src/fs/fat.c:617-686 | the disk afterwards is that of the specified deletion, and unchanged when a directory or nothing was found |
| `Fat16.Driver.DeleteDir` | src/fs/fat.c:688-763 | the same for directories, with the emptiness test |
| `Fat16.Driver.ChangeDir` | src/fs/fat.c:370-440 | the current directory becomes the found directory's cluster or stays |
| `Fat16.Driver.MakeDir` | src/kernel/kernel.c:411-465 | the mkdir sequence on disk refines MkdirOn |
| `Fat16.Driver.Command` | src/kernel/kernel.c:379-494 | each command does to the disk what the session step says and leaves a healthy file system on it |
| `Files.Cat` | src/kernel/kernel.c:237-250 | the loops end and print the first file_size bytes of the chain's first sectors |
| `Files.ByteOfFile` | src/kernel/kernel.c:237-250 | byte o of sector r of the q-th cluster of a chain is byte 512 * (q * spc + r) + o of the file |
| `Files.ReadToArea` | src/kernel/kernel.c:292-306 | the same bytes arrive in the frames from 0x4000000 on, and no frame outside them changes |
| `Files.AreaIsOverwritten` | src/kernel/kernel.c:292-306 | a frame of the area holds the file's bytes afterwards, whoever it belonged to |
| `Files.ReadsTheFile` | src/kernel/kernel.c:237-306 | with one sector per cluster and a chain long enough these are exactly the first file_size bytes of the file |
| `Files.ReadsTheFileExactly` | src/kernel/kernel.c:237-306 | for a chain that fits the size: what is read is the file iff clusters have one sector or the file has at most 512 bytes |

## Left out

- Port I/O, ATA transfers, PIC, timer, keyboard, screen and shell parsing: hardware and text.
- Boot code, GDT, TSS and IDT descriptors, `lidt`, `invlpg`, CR3 loads: machine effects or straight-line packing.
- `vmm_unmap_page`, `vmm_get_phys`, `vmm_create_pml4`: empty or not implemented; translation is a specification function.
- `fat_init` printing, `fat_list`, and the path string that `cd` maintains (src/fs/fat.c:386-429): display only.
- The second FAT copy, long file names and time stamps: the driver does not maintain them; all statements are about the first FAT copy.
- Failing `kmalloc` of sector buffers inside the driver: buffers are values, as if every such allocation succeeded.
- The is_fat_initialized guard: the driver object stands for a mounted volume.
- Name uniqueness after a create: not checked by the code, so it is a hypothesis where a statement needs it.
- Physical frames are typed as a table or as bytes; reading a table frame as bytes, or the reverse, is not modelled, and page-table flags that reach into the address bits 12 to 51 are excluded.
- The bitmap at 0x200000 is memory of its own in the model; it lies below 32 MB, which is never handed out.
- Loads outside the condition `Direct`: the loaders' reads and writes are modelled as going to the physical frame they name; what they do where the kernel's mapping leads elsewhere is followed for one page only (`FileIsHidden`).
- Stacks are kept as words apart from the frames; the allocator that both are taken from is the same.
- Memory behind the end of the frames reads as zero, where the machine would read whatever the bus returns.
- The segment registers es, fs and gs: the stub does not save them, it reloads all of them from ds.
- What handlers write on a process's stack stays below the saved frame, and processes do not write on each other's kernel stacks: hypotheses of the context theorems.
- PID 0 never runs in user mode, and an interrupt of kernel code finds room on the current stack: hypotheses of the context theorems.
- PID 0 never exits (its loop is src/kernel/kernel.c:611-614): hypothesis of the scheduler theorems; `DeadRunsAgainExactly` says what happens otherwise.
- Exec.Exec: the image is described for files that their own bytes tell to be ELF or not (all but those shorter than four bytes that are a beginning of the ELF mark, where the code goes by what lies behind them), ELF files with headers and segments inside; no page table may lie in the part of the load area that is read over.
- Exec.ExecCommand: the same.
- Launching.Run: the same.
- Loader.LoadFile: the image is described for files whose headers and PT_LOAD segments lie in the load area; what other headers lead to is described only as a load of some pages.
- Pmm.FrameAllocator.Init: E820 entries whose base plus length exceeds 64 bits are excluded; for them the code clears bits outside the bitmap.
- ProcessTable.Processes.CreateKernel: a kernel process whose unchecked stack allocation failed runs on page 0; that two of them share it is not followed up.
- Names.FilenameMatch: the name buffer has 13 cells where src/fs/fat.c:200 declares 12, one short of a full 8.3 name with its terminator.
- Sessions.MkdirIsGood: the rest of a larger claimed cluster has to be blank; `FormattedIsFreshExactly` shows that this is what it takes.
- Fat16.Driver.AllocateCluster: for a FAT of at most 256 sectors, beyond which the 16-bit cluster number of src/fs/fat.c:138 wraps.

# BinBows 95: a verified model

This project models four stateful parts of the BinBows 95 kernel and its toolchain in Dafny 4.11 and
proves what they keep, refine and conserve over whole runs:

- the FAT12 file system: packed table, cluster allocator, directory, chain writer and reader, formatting
  and the BPB cache, with the FAT16 and FAT32 allocators beside it;
- kernel memory: the sorted first-fit heap, the physical frame pool and the four-level page tables;
- the BEXE assembler's encoder, label resolver and image writer, and the virtual machine that runs the image;
- the scheduler's process table.

Run `dafny verify dfyconfig.toml` in this directory; add `--resource-limit 2000000
--verification-time-limit 0` for the limits the proofs are written for.

## How it is built

Code that updates state in the original is a class here (`Ide.Controller`, `Fat12Driver.Driver`,
`KernelHeap.Allocator`, `Mmu.Paging`, `BexeAssembler.Assembler`, `BexeExecutor.VirtualMachine`,
`Scheduler.ProcessTable`). Each of its methods is proved to compute a function of the old state, and the
theorems are about that function: for all inputs, all runs, or all reachable states. Where the code does not
meet what it promises, the theorem is an equivalence that names the exact condition, or stands beside a
concrete input that shows the failure.

| files | contents |
|---|---|
| `Bytes`, `Options` | little-endian words, optional results |
| `FatTable` | the table as a sequence of entries; the one allocator behind all three codecs |
| `Fat12Codec`, `Fat16Alloc`, `Fat32Alloc` | the codecs and allocation loops on byte arrays |
| `Ide`, `Fat12Volume`, `Fat12Driver` | sectors and devices, the FAT12 routines as functions, the driver object |
| `Fat12Names` | which names the 8.3 format tells apart |
| `Fat12Chains`, `Fat12Effects`, `Fat12RoundTrip`, `Fat12Runs` | what a write does, write-then-read, whole runs against a map of files |
| `Fat12Layout`, `Fat12Written`, `Fat12Boot` | the on-disk format in bytes and sectors: where the bytes of a file lie, what a write leaves in directory and table, boot sectors |
| `Fat12Format`, `Fat12Cache` | geometry and formatting, coherence of the BPB cache |
| `HeapModel`, `KernelHeap`, `HeapInit` | the heap as a partition into blocks, its words in memory, its arenas |
| `PhysFrames`, `PageTables`, `PageTeardown` | frames, walks and map_page, the teardown loops |
| `PageSpaces`, `PageStacks`, `PageShares`, `Mmu` | exclusively owned address spaces, user stacks, roots that share tables, the paging object |
| `BexeCode`, `BexeAsm`, `BexeAssembler` | instructions and bytes, sections and labels, the assembler object |
| `BexeVm`, `BexeSim`, `BexeRun`, `BexeExecutor`, `BexeFromDisk` | the machine, simulation, loading, the machine object, programs stored on a volume |
| `BexeMeaning`, `BexeData` | each instruction from its bytes in plain arithmetic; the data in memory, accepted lines, loaded files |
| `BexeStack`, `BexeSizes`, `BexeReturns` | stack discipline, the image sizes that are safe, programs whose stack holds return addresses only |
| `SchedulerModel`, `SchedulerRuns`, `Scheduler` | process table, invariant and waiting, the scheduler object |

## What the proofs found

- A file that `fat12_write_file` reports as written reads back only if its size is between 1 and 2^28 bytes, its
  name does not start with the byte 0xE5, its cluster count fits 16 bits and the last cluster of its chain lies
  on the device (`Fat12RoundTrip.WriteThenRead`); an empty file on a formatted device is the simplest that does
  not (`Fat12Format.FirstWrite`). The allocator's limit always lies past the end of a freshly formatted device
  (`Fat12Format.LimitPastDevice`).
- The table writer receives the reserved sector count in 8 bits. With a multiple of 256 the first write lands
  on the boot sector and the cached BPB goes stale, unless the table happens to read as the same BPB
  (`Fat12Cache.CoherentAfterWrite`, `Fat12Cache.StaleCache`).
- `kfree` drops a block, silently, exactly when more than 1001 free blocks lie below it
  (`HeapModel.DroppedExactly`); over a run nothing is lost if and only if every call stays within that limit
  (`HeapModel.RunLosesNothing`).
- `free_physical_page` is sound exactly when the frame is foreign or in use: given back twice, a frame is handed
  out twice (`PhysFrames.ReleaseSound`, `PhysFrames.ReleaseTwice`).
- A root made by `create_user_pml4` shares the lower-half tables of the current root, so destroying it frees
  them under the current root (`PageShares.CreateThenDestroy`). `allocate_user_stack` leaks the frame in hand
  when `map_page` fails, which happens exactly when at some page the frames left are at least one and at most
  the tables that page needs; no teardown gives that frame back (`PageStacks.StackMaps`,
  `PageStacks.StackThenDestroy`). A stack whose top is not on a page boundary has its topmost bytes left unmapped
  (`PageStacks.StackCovers`).
- The first word pushed on an empty VM stack can never be popped, so a top-level CALL stops the machine on RET
  (`BexeStack.CallThenRet`). The overflow test of `push` is blind below rsp 8 (`BexeStack.PushInBounds`): stores
  get out of memory for exactly the image sizes with 5 or more bytes of code where code and data together are at
  most the remainder of the image size modulo 8 (`BexeSizes.SafeSizes`). The ordering jumps are right exactly
  while the 64-bit difference does not overflow (`BexeVm.CompareMeans`).
- Terminating a lower slot while the running process sits in the last one loses track of it
  (`SchedulerRuns.TerminateKeeps`); a blocked kernel process is run when nobody is ready
  (`SchedulerRuns.BlockedRuns`); a waiting process ever runs exactly when nobody has a smaller priority number,
  or one process has and it is the first of its own priority behind that one (`SchedulerRuns.RunsEver`);
  the identifier 2^32 - 1 is returned as the error code -1 (`SchedulerRuns.CreateKeeps`).

## Model

| member | source | states |
|---|---|---|
| Fat12Codec.WriteThenRead | kernel/src/kernel/fs/fat12/fat12_alloc.c:63-84 | Packed-entry non-interference: after writing v to entry c, entry c reads v and every other entry reads as before, the neighbour sharing a byte included |
| Fat12Codec.PutEntry | kernel/src/kernel/fs/fat12/fat12_alloc.c:72-84 | The in-place store is the functional update of the packed bytes |
| Fat12Codec.FindFreeCluster | kernel/src/kernel/fs/fat12/fat12_alloc.c:86-93 | The lowest free cluster below the limit, or -1 when there is none |
| Fat12Codec.LinkFree | kernel/src/kernel/fs/fat12/fat12_alloc.c:33-60 | The allocation loop links the first free clusters into the packed bytes and returns their head, or returns 0 |
| FatTable.FirstFreeIsFirst | kernel/src/kernel/fs/fat12/fat12_alloc.c:37-48 | First fit: no free cluster below the last one taken is passed over, and a short result means all free ones were taken |
| FatTable.AllocCorrect | kernel/src/kernel/fs/fat12/fat12_alloc.c:33-60 | Success exactly when enough clusters are free; then a strictly increasing end-marked chain of the first free clusters, all other entries unchanged and the free count down by exactly count |
| Fat16Alloc.LinkFree | kernel/src/kernel/fs/fat16/fat16_alloc.c:34-76 | The FAT16 loop meets the same abstract allocator contract through its 16-bit codec |
| Fat16Alloc.EntryBytes | kernel/src/kernel/fs/fat16/fat16_alloc.c:64-76 | The entries the contract speaks of are the little-endian words of the table |
| Fat16Alloc.LimitIs | kernel/src/kernel/fs/fat16/fat16_alloc.c:23-32 | The search goes to the end of the table or up to cluster 65524; with 65536 entries its 16-bit limit is 0 |
| Fat32Alloc.LinkFree | kernel/src/kernel/fs/fat32/fat32_alloc.c:30-69 | The FAT32 loop meets it through the 28-bit codec and keeps the top four bits of every entry |
| Fat32Alloc.EntryBytes | kernel/src/kernel/fs/fat32/fat32_alloc.c:57-69 | The entries are the low 28 bits of the little-endian words of the table, and the reserved bits the top four |
| Ide.ReadBack | kernel/src/drivers/block/ide/ide_rw.c:8-66 | Sectors written on the device and read again come back |
| Fat12Driver.Driver.WriteFat | kernel/src/kernel/fs/fat12/fat12_alloc.c:95-103 | All copies of the table are written, sector by sector, at the reserved count cut to 8 bits |
| Fat12Driver.Driver.AllocClusters | kernel/src/kernel/fs/fat12/fat12_alloc.c:3-61 | The allocator on the device: the disk and head the specification gives, 0 and an untouched disk on failure |
| Fat12Driver.Driver.FindFreeRootDirEntry | kernel/src/kernel/fs/fat12/fat12_dir.c:3-20 | The first free or deleted slot of the root directory, or -1 |
| Fat12Driver.Driver.WriteDirEntry | kernel/src/kernel/fs/fat12/fat12_dir.c:22-47 | Exactly one 32-byte slot is replaced by the new entry, or nothing when its sector cannot be read |
| Fat12Driver.FormatFilename | kernel/src/kernel/fs/fat12/fat12_utils.c:7-34 | The padded upper-case 8.3 name, for every C string |
| Fat12Names.SameName | kernel/src/kernel/fs/fat12/fat12_utils.c:7-34 | Two names that fit 8.3 without spaces share a formatted name exactly when base and extension agree up to case |
| Fat12Names.FormattedBytes | kernel/src/kernel/fs/fat12/fat12_utils.c:7-34 | The eleven bytes one by one for every name: characters before and behind the first dot in capitals, spaces, no small letter |
| Fat12Names.CaseFolds | kernel/src/kernel/fs/fat12/fat12_utils.c:29-33 | "a.txt" and "A.TXT" are one file |
| Fat12Driver.Driver.ReadBpb | kernel/src/kernel/fs/fat12/fat12_utils.c:68-104 | The cached BPB of the drive or the one in a signed boot sector, which is then cached |
| Fat12Driver.Driver.WriteClusters | kernel/src/kernel/fs/fat12/fat12_file.c:159-220 | The data lands in the clusters of the chain, padded with zeros, and the table copies are written back |
| Fat12Driver.Driver.WriteFile | kernel/src/kernel/fs/fat12/fat12_file.c:4-39 | The driver's system state and return code after a write, for every exit |
| Fat12Driver.Driver.ReadFile | kernel/src/kernel/fs/fat12/fat12_file.c:42-146 | The bytes and size the specification reads, or nothing, for every exit |
| Fat12Layout.FileBytes | kernel/src/kernel/fs/fat12/fat12_file.c:42-146 | On any volume, what a read returns is the file of the first matching directory slot: byte i is byte i % 512 of the sector that the boot sector's fields, the links of the packed table and i lead to, and it comes short only where the chain ends |
| Fat12Layout.ClusterSectors | kernel/src/kernel/fs/fat12/fat12_file.c:159-220 | The sectors of the data area that a write changes are those of the clusters the table leads to, each with the bytes of the data at its place in the file; all other sectors keep their contents |
| Fat12Layout.AllocatedClusters | kernel/src/kernel/fs/fat12/fat12_alloc.c:18-61 | The clusters taken are the lowest ones whose packed entry is zero, up to the end of the table or cluster 4084, or none when they are too few |
| Fat12Written.WrittenEntry | kernel/src/kernel/fs/fat12/fat12_dir.c:3-47 | After a successful write the first slot that was free holds name, archive bit, first cluster and size, zeros elsewhere; all other slots keep their bytes |
| Fat12Written.WrittenChain | kernel/src/kernel/fs/fat12/fat12_alloc.c:33-103 | After a successful write each cluster of the chain leads to the next and the last holds 0xFFF, other entries are as before, both copies agree, and the chain has just as many clusters as the size needs |
| Fat12Written.TablesWritten | kernel/src/kernel/fs/fat12/fat12_file.c:165-220 | Whatever the state, every copy of the table becomes the one read with the entry of the cluster that took the last byte set to 0xFFF, byte by byte |
| Fat12Chains.WriteChainStores | kernel/src/kernel/fs/fat12/fat12_file.c:182-213 | Writing along a chain stores the data there and touches no other cluster |
| Fat12Chains.ReadStored | kernel/src/kernel/fs/fat12/fat12_file.c:117-139 | Reading a stored chain on the device gives the data back |
| Fat12Effects.AllocEffect | kernel/src/kernel/fs/fat12/fat12_alloc.c:33-57 | After an allocation the chain is linked in the table, all copies agree and nothing outside the table changes |
| Fat12Effects.FindSlotMeaning | kernel/src/kernel/fs/fat12/fat12_dir.c:8-18 | The slot found is free and every slot before it is in use |
| Fat12RoundTrip.WriteFileEffect | kernel/src/kernel/fs/fat12/fat12_file.c:4-39 | What each return code of fat12_write_file has done to table, directory and data |
| Fat12RoundTrip.WriteThenRead | kernel/src/kernel/fs/fat12/fat12_file.c:4-220 | If the write returns 0 and no visible file had the name, the read returns exactly the bytes and size if and only if the file is readable and the heap has room |
| Fat12RoundTrip.WriteKeepsOthers | kernel/src/kernel/fs/fat12/fat12_file.c:4-220 | Whatever the write returns, every file with another 8.3 name reads back as before |
| Fat12Runs.WriteRefines | kernel/src/kernel/fs/fat12/fat12_file.c:22-36 | One write keeps the disk in step with a list of files and chains and returns what that model says, chains orphaned by -3 included |
| Fat12Runs.RunRefines | kernel/src/kernel/fs/fat12/fat12_file.c:4-39 | Every run of writes stays in step: chains acyclic, end-marked and disjoint, and the clusters in use exactly those of the chains |
| Fat12Runs.ReadRefines | kernel/src/kernel/fs/fat12/fat12_file.c:42-146 | In such a state a read finds the first file of the name, and returns its contents under exactly the stated conditions |
| Fat12Format.ComputeGeometry | kernel/src/kernel/fs/fat12/fat12_format.c:27-73 | The geometry variables in 8, 16 and 32-bit arithmetic |
| Fat12Format.GeometryFits | kernel/src/kernel/fs/fat12/fat12_format.c:45-73 | Room for clusters + 2 twelve-bit entries, regions disjoint and on the device, at most 4084 clusters or 128 sectors per cluster |
| Fat12Format.HugeDevices | kernel/src/kernel/fs/fat12/fat12_format.c:56-59 | From 2^28 sectors on the table size fits 16 bits exactly when its 32-bit computation wraps around, for the last 2034 sizes |
| Fat12Boot.ChosenGeometry | kernel/src/kernel/fs/fat12/fat12_format.c:26-73 | Table size, cluster size and cluster count of every device, by inequalities that have one solution each: the least table, the doubling only while there are more than 4084 clusters, whole clusters only |
| Fat12Layout.FormattedClusters | kernel/src/kernel/fs/fat12/fat12_format.c:45-73 | On a formatted device clusters follow one another from sector 15 + 2 * table size, and those the geometry counts are the ones that lie wholly on it |
| Fat12Format.FitsBuffers | kernel/src/kernel/fs/fat12/fat12_format.c:45-61 | The device sizes whose table fits the 12-sector buffers of the other routines, exactly |
| Fat12Format.LimitPastDevice | kernel/src/kernel/fs/fat12/fat12_alloc.c:23-26 | On a formatted volume the allocator's limit lies past the last cluster on the device |
| Fat12Format.BootSectorParses | kernel/src/kernel/fs/fat12/fat12_format.c:93-143 | The boot sector written is signed and parses to the geometry chosen |
| Fat12Boot.BootBytes | kernel/src/kernel/fs/fat12/fat12_format.c:93-143 | Every byte of the boot sector written |
| Fat12Boot.FormattedDevice | kernel/src/kernel/fs/fat12/fat12_format.c:4-24 | Every other byte of the device: zero but for F8 FF FF in sector 1, which is missing when the table size is a multiple of 256 |
| Fat12Boot.AcceptedFields | kernel/src/kernel/fs/fat12/fat12_utils.c:40-66 | Which boot sectors are valid, in bytes |
| Fat12Boot.BootFields | kernel/src/kernel/fs/fat12/fat12_utils.c:86-100 | Where the driver finds each field in the boot sector |
| Fat12Boot.MountMeans | kernel/src/kernel/fs/fat12/fat12_utils.c:68-104 | When the cached BPB is taken, when sector 0 is read and cached, and when neither |
| Fat12Boot.Refused | kernel/src/kernel/fs/fat12/fat12_file.c:4-16 | A write returns -1 exactly without a valid BPB, and then neither reading nor writing does anything |
| Fat12Boot.OneDrive | kernel/src/kernel/fs/fat12/fat12_format.c:26-187 | Formatting leaves the image and no cached BPB, whatever drive it was of; formatting and writing touch no other drive |
| Fat12Format.FormattedIsEmpty | kernel/src/kernel/fs/fat12/fat12_format.c:87-179 | A formatted device is a valid volume that represents the empty file system |
| Fat12Format.FormattedRuns | kernel/src/kernel/fs/fat12/fat12_format.c:26-187 | From a freshly formatted device every run of writes refines the model that starts empty |
| Fat12Format.FirstWrite | kernel/src/kernel/fs/fat12/fat12_file.c:4-146 | On every freshly formatted device the first write of at most one byte returns 0; an empty file never reads back, one byte does exactly when the device has a cluster |
| Fat12Format.FormatFat12 | kernel/src/kernel/fs/fat12/fat12_format.c:26-187 | All sectors the formatter leaves, and the cache invalidated |
| Fat12Cache.RunCoherent | kernel/src/kernel/fs/fat12/fat12_utils.c:68-104 | On every run of formats, reads and writes over all drives a valid cache equals the BPB in sector 0, if no device starts with a reserved count that is a multiple of 256 |
| Fat12Cache.CoherentAfterWrite | kernel/src/kernel/fs/fat12/fat12_alloc.c:95-103 | A write leaves the cache right exactly when the reserved count is no multiple of 256, nothing is allocated, or the first sector of the linked table reads as the same BPB |
| Fat12Cache.StaleCache | kernel/src/kernel/fs/fat12/fat12_alloc.c:95-98 | A device with 256 reserved sectors on which the first write makes the cache stale |
| HeapModel.FirstFitExact | kernel/src/x86_64/mm/mem.c:347-392 | For sizes kmalloc accepts NULL is returned exactly when every free block has fewer than that many payload bytes; otherwise the 16-aligned payload of the lowest free block with as many, which keeps fewer than size + 47 of them, the remainder a free block directly behind |
| HeapModel.RunGood | kernel/src/x86_64/mm/mem.c:347-412 | Over every run the list stays sorted and complete, blocks tile the arenas byte for byte, and later partitions refine earlier ones |
| HeapModel.DroppedExactly | kernel/src/x86_64/mm/mem.c:265-278 | A block is dropped exactly when more than 1001 free blocks lie below it; otherwise it becomes free, and nothing else changes |
| HeapModel.RunLosesNothing | kernel/src/x86_64/mm/mem.c:265-412 | A run drops no block, so that free and live blocks alone tile the arenas, if and only if every kfree in it meets at most 1001 free blocks below |
| HeapModel.NoByteLost | kernel/src/x86_64/mm/mem.c:265-412 | While that limit is respected every byte of the arenas stays in a free or live block |
| KernelHeap.Allocator.Kmalloc | kernel/src/x86_64/mm/mem.c:347-392 | The words in memory after kmalloc thread the list of the model; the payload is zeroed and live payloads are kept |
| KernelHeap.Allocator.Kfree | kernel/src/x86_64/mm/mem.c:394-412 | The words after kfree thread the list of the model; live payloads are kept |
| KernelHeap.Allocator.InsertFreeBlockSorted | kernel/src/x86_64/mm/mem.c:256-278 | Sorted insertion, or nothing after 1001 steps |
| HeapInit.InitBlocks | kernel/src/x86_64/mm/mem.c:305-337 | The set-up loop leaves a good heap over exactly the usable arenas, one free block for each while there are at most 1002 entries |
| HeapInit.EntryBytes | kernel/src/x86_64/mm/mem.c:309-326 | Which bytes of a memory map entry the heap gets |
| HeapInit.BlocksAvoidPool | kernel/src/x86_64/mm/mem.c:315-324 | In every later state no heap block meets the paging pool |
| PhysFrames.AllocFresh | kernel/src/x86_64/mm/mem.c:84-104 | A frame handed out was not in use, is zeroed, and is the only one to join those in use; failure exactly when list and pool are exhausted |
| PhysFrames.ReleaseSound | kernel/src/x86_64/mm/mem.c:106-112 | Giving a frame back keeps the list acyclic and duplicate-free if and only if the frame is foreign or in use |
| PhysFrames.ReleaseTwice | kernel/src/x86_64/mm/mem.c:106-112 | After a double release the next two allocations return the same frame |
| PhysFrames.FramesConserved | kernel/src/x86_64/mm/mem.c:84-112 | Over every run the frames ever handed out are split between the free list and the frames in use |
| PageTables.SamePage | kernel/src/x86_64/mm/mem.c:128-131 | Two 48-bit addresses have the same four indices exactly when they lie in the same page |
| PageTables.TranslatesAsHardware | kernel/src/x86_64/mm/mem.c:127-142 | The translations the theorems speak of are those of the four-level walk, written out on the entries' bits |
| PageTables.GetTableGrows | kernel/src/x86_64/mm/mem.c:114-125 | An existing table is returned as is; a missing one is a fresh zeroed frame hooked in at exactly one path, unless no frame is left |
| PageTables.MapRefines | kernel/src/x86_64/mm/mem.c:127-145 | map_page is map update: succeeds exactly when the frames for the missing tables are there and uses up so many, changes that page only, changes no translation on failure, keeps the table tree and the contents of all other frames; new tables are linked present, writable and open to user code and without other flags |
| PageTables.UnmapRefines | kernel/src/x86_64/mm/mem.c:469-489 | unmap_page removes that page only, and fails exactly when it was not mapped |
| PageTables.MapThenUnmap | kernel/src/x86_64/mm/mem.c:127-145 | Mapping and unmapping a page leaves every other page as it was |
| PageTeardown.ClearReleases | kernel/src/x86_64/mm/mem.c:497-540 | The nested loops release the frames owned at the start, in order, although they rewrite the tables they walk |
| PageTeardown.OwnedDistinct | kernel/src/x86_64/mm/mem.c:497-540 | A lower half reached in one way only owns each frame once |
| PageSpaces.DestroyConserves | kernel/src/x86_64/mm/mem.c:491-544 | Teardown puts each owned pool frame on the free list exactly once, in a known order, and touches nothing else |
| PageSpaces.DestroySparesOthers | kernel/src/x86_64/mm/mem.c:491-544 | Another address space keeps all its translations and its tables stay out of the allocator's hands |
| PageSpaces.MapKeepsOwner | kernel/src/x86_64/mm/mem.c:127-145 | Mapping a fresh or foreign frame keeps the lower half exclusively owned, new tables included |
| PageStacks.StackMaps | kernel/src/x86_64/mm/mem.c:450-466 | Pages are mapped bottom up, each with a frame of its own that is present, writable and open to user code, as many as the frames suffice for; all frames taken are owned but for one, taken and reached by nobody, exactly when at some page the frames left are at least one and at most the tables the page needs; when 0 is returned and which frame otherwise |
| PageStacks.StackCovers | kernel/src/x86_64/mm/mem.c:440-466 | With frames enough every byte from the top minus the size up to the last page boundary at or below the top is mapped for user code; the page in which a top off a boundary lies stays as it was |
| PageStacks.StackThenDestroy | kernel/src/x86_64/mm/mem.c:440-544 | Teardown gives back everything a stack took, except that under exactly that condition one frame stays in use |
| PageStacks.EmptySpaceLoses | kernel/src/x86_64/mm/mem.c:450-466 | In a space without tables for the stack, such as a fresh one, a frame is lost whenever one to three are left |
| PageSpaces.FreshSpace | kernel/src/x86_64/mm/mem.c:84-104 | A frame just allocated is an exclusively owned address space with nothing mapped: the state the ownership theorems start from is reached |
| PageShares.CreateShares | kernel/src/x86_64/mm/mem.c:414-434 | The new root has the current translations, lower-half entries opened to user code, and shares every table below it |
| PageShares.ClearFades | kernel/src/x86_64/mm/mem.c:497-540 | The teardown loops on any tables, shared or not: words stay or become absent entries, and nothing leaves the free list |
| PageShares.CreateThenDestroy | kernel/src/x86_64/mm/mem.c:414-544 | Destroying a new space is safe for the current one exactly when its lower half has no table, whatever that half maps |
| PageSpaces.RunKeepsOwner | kernel/src/x86_64/mm/mem.c:84-145 | After any run of mappings and unmappings the space is still exclusively owned, so teardown conserves frames |
| Mmu.Paging.AllocPhysicalPage | kernel/src/x86_64/mm/mem.c:84-104 | The intrusive list in memory behaves as the list of the model |
| Mmu.Paging.FreePhysicalPage | kernel/src/x86_64/mm/mem.c:106-112 | Likewise for pushing any frame; the pool stays in order exactly when the frame is foreign or in use |
| Mmu.Paging.MapPage | kernel/src/x86_64/mm/mem.c:127-145 | State and return code of map_page |
| Mmu.Paging.UnmapPage | kernel/src/x86_64/mm/mem.c:469-489 | State and return code of unmap_page, the missing root included |
| Mmu.Paging.CreateUserPml4 | kernel/src/x86_64/mm/mem.c:414-434 | State and result of create_user_pml4 |
| Mmu.Paging.AllocateUserStack | kernel/src/x86_64/mm/mem.c:440-467 | State and result of allocate_user_stack, the root in use restored |
| Mmu.Paging.DestroyUserMappings | kernel/src/x86_64/mm/mem.c:491-544 | State after the teardown loops, on any tables; the pool stays in order when the lower half is exclusively owned |
| BexeCode.FlatAt | assembler/main.py:577-727 | The bytes at a line's offset are that line's encoding |
| BexeCode.EncodePatched | assembler/main.py:634-637 | Resolving a label changes its four-byte slot and nothing else of the instruction |
| BexeCode.RefsApart | assembler/main.py:900-928 | The slots patched are pairwise disjoint and inside the code |
| BexeAsm.ResolveLinks | assembler/main.py:895-929 | Patching all slots gives the program's encoding with every name replaced by its address, and fails exactly at an undefined name |
| BexeAsm.ParsedBuilt | assembler/main.py:732-863 | The code and references built line by line are those of the program, and text labels are line offsets |
| BexeAsm.LabelMeaning | assembler/main.py:765-777 | A label's address is where the first byte emitted or reserved after it lies in code, data or bss |
| BexeData.ParsedExactly | assembler/main.py:336-390 | A file is accepted exactly when every line may stand in its section: operands only in text, data outside text, reservations in bss, elements of 1, 2, 4 or 8 bytes |
| BexeData.SectionIs | assembler/main.py:753-763 | A line's section is that of the last section directive before it, text without one |
| BexeData.SectionSizes | assembler/main.py:336-390 | The sizes of data and bss are the sums over their directives |
| BexeData.DirectiveHeld | assembler/main.py:353-388 | Every data directive is in the final data section behind all that was defined before it: the bytes of a string, the little-endian value modulo 256^width of an element |
| BexeAssembler.Assembler.ParseFile | assembler/main.py:868-890 | The assembler object after a file of parsed lines, or its failure |
| BexeAssembler.Assembler.ResolveLabels | assembler/main.py:895-929 | The patch loop computes the resolved code or fails |
| BexeAssembler.Assembler.WriteBexe | assembler/main.py:934-941 | The image, or a refusal when a size exceeds 16 bits |
| BexeData.HeaderBytes | assembler/main.py:934-941 | The bytes of the file: magic, three 16-bit sizes, code, data |
| BexeData.ImageRefused | assembler/main.py:934-937 | Refused exactly when a size is 65536 or more |
| BexeRun.LoadImage | kernel/src/kernel/executor/bexe.c:487-530 | Loading the written image gives code, data and zeros, with the registers of an empty stack |
| BexeData.LoadMeans | kernel/src/kernel/executor/bexe.c:482-530 | What the loader makes of any file: which are rejected, and memory and registers of the others |
| BexeRun.AssembledLoads | assembler/main.py:895-941 | Assembling, resolving, writing and loading gives a machine holding the linked program at its first line |
| BexeData.LoadedData | kernel/src/kernel/executor/bexe.c:505-509 | In the loaded machine each data directive lies at the address of any data label before it plus the bytes defined in between |
| BexeData.LoadedBss | kernel/src/kernel/executor/bexe.c:500-511 | A bss label names zeroed memory, as much as is reserved from it on, below 64 KiB of stack |
| BexeData.SystemCallBytes | assembler/main.py:809-833 | A system call line is 0x50 and its number in memory, 0x80 when none is written |
| BexeSim.StepSimulates | kernel/src/kernel/executor/bexe.c:190-465 | At a line's offset one VM step on the bytes does exactly what the line says with labels replaced by addresses |
| BexeSim.OnlyRetStrays | kernel/src/kernel/executor/bexe.c:321-423 | From a line control reaches a line, leaves the code or stops, except by a RET whose popped word is no line's offset |
| BexeSim.EnvOnLines | assembler/main.py:897-916 | The addresses of labels are line offsets or lie past the code |
| BexeSim.NoRetNeverStrays | kernel/src/kernel/executor/bexe.c:321-423 | Programs without RET never leave the lines |
| BexeReturns.ReturnsNeverStray | kernel/src/kernel/executor/bexe.c:124-145 | Programs with subroutines whose lines push nothing and leave rsp alone never leave the lines: every word on the stack is the offset after a CALL |
| BexeReturns.CallsNeverStray | assembler/main.py:895-941 | The same for every run of such a program assembled and loaded |
| BexeSim.RunSimulates | kernel/src/kernel/executor/bexe.c:545-568 | Over any run that stays on lines the VM and the program go through the same states |
| BexeVm.StepsKeepImage | kernel/src/kernel/executor/bexe.c:124-145 | Over any run of any bytes the code and data sections never change |
| BexeVm.CompareMeans | kernel/src/kernel/executor/bexe.c:151-155 | Equality jumps are always right; ordering jumps decide the signed order exactly when the difference does not overflow |
| BexeVm.ArithmeticUndone | kernel/src/kernel/executor/bexe.c:220-301 | SUB undoes ADD, and DIV undoes MUL exactly when the product fits 64 bits; what each leaves is stated by the four rows that follow |
| BexeMeaning.MoveMeans | kernel/src/kernel/executor/bexe.c:199-218 | MV from its bytes: the destination holds the source operand, all else is unchanged |
| BexeMeaning.AddMeans | kernel/src/kernel/executor/bexe.c:220-236 | ADD: the sum when it is below 2^64, otherwise the sum less 2^64 |
| BexeMeaning.SubMeans | kernel/src/kernel/executor/bexe.c:238-254 | SUB: the difference when it is not negative, otherwise the difference plus 2^64 |
| BexeMeaning.MulMeans | kernel/src/kernel/executor/bexe.c:256-272 | MUL: the low word of the product |
| BexeMeaning.DivMeans | kernel/src/kernel/executor/bexe.c:274-301 | DIV: the q with q * b <= a < q * b + b; a zero divisor stops the machine |
| BexeMeaning.OtherModes | kernel/src/kernel/executor/bexe.c:199-318 | In other addressing modes MV stops the machine and the others are skipped |
| BexeMeaning.CompareThenJump | kernel/src/kernel/executor/bexe.c:303-392 | CMP sets the flags of the wrapped difference alone, and a jump behind it goes by the operands in the order written |
| BexeMeaning.PushMeans | kernel/src/kernel/executor/bexe.c:394-416 | PUSH and CALL store eight bytes below the stack, lowest first, and change no other byte |
| BexeMeaning.PopMeans | kernel/src/kernel/executor/bexe.c:402-423 | POP and RET take the word at rsp; an empty stack stops the machine |
| BexeMeaning.OthersMean | kernel/src/kernel/executor/bexe.c:425-463 | A system call changes rax alone, NOP nothing, any other opcode stops the machine |
| BexeMeaning.CutOffStops | kernel/src/kernel/executor/bexe.c:100-118 | An instruction cut off by the end of the code stops the machine |
| BexeMeaning.LineMeans | kernel/src/kernel/executor/bexe.c:199-301 | The same for the lines of a program: what a two-operand line leaves in its destination |
| BexeMeaning.CompareLines | kernel/src/kernel/executor/bexe.c:303-392 | The same for a CMP line and the jump line behind it |
| BexeStack.PushInBounds | kernel/src/kernel/executor/bexe.c:124-133 | From a good stack a push leaves memory exactly when rsp is below 8 |
| BexeStack.RunSafe | kernel/src/kernel/executor/bexe.c:100-145 | Over every run of a program that never writes rsp and reaches above the lowest word boundary of the stack, no store is out of bounds and rsp stays on its grid |
| BexeSizes.SafeSizes | kernel/src/kernel/executor/bexe.c:100-133 | For exactly which sizes of code, data and bss no program that leaves rsp alone ever stores out of bounds |
| BexeStack.PushThenPop | kernel/src/kernel/executor/bexe.c:124-145 | A pushed word is popped again exactly when the stack was not empty before the push |
| BexeStack.CallThenRet | kernel/src/kernel/executor/bexe.c:410-423 | A RET that finds rsp and the word there as CALL left them, whatever the callee pushed, called or wrote below, continues after the CALL exactly when the stack was not empty before it |
| BexeSizes.AssembledRuns | assembler/main.py:895-941 | From source lines to runs: the loaded VM does what the lines say, stays in bounds and keeps its image |
| BexeExecutor.VirtualMachine.ExecuteInstruction | kernel/src/kernel/executor/bexe.c:190-465 | The machine object after one instruction |
| BexeExecutor.VirtualMachine.Execute | kernel/src/kernel/executor/bexe.c:545-568 | The machine object after a run of at most ten million instructions, its code and data unchanged |
| BexeFromDisk.StoredProgramLoads | kernel/src/kernel/executor/bexe.c:471-539 | An assembled image written to a FAT12 volume is loaded back as the machine that holds the program |
| SchedulerModel.SearchEnds | kernel/src/x86_64/scheduler/scheduler.c:111-116 | Pigeonhole: the wrapping identifier search meets a free identifier |
| SchedulerModel.FreshPidFresh | kernel/src/x86_64/scheduler/scheduler.c:111-116 | The identifier found is non-zero, below 2^32 and in no slot |
| SchedulerModel.FreshPidFirst | kernel/src/x86_64/scheduler/scheduler.c:111-116 | It is the first unused one from the counter on, around from 2^32 - 1 to 1 |
| SchedulerModel.FindNextIsFirstBest | kernel/src/x86_64/scheduler/scheduler.c:224-249 | The ready process of minimum priority number that is scanned first, slots behind the current one before those up to it, and only it; else the running process or slot 0 |
| SchedulerRuns.CreateKeeps | kernel/src/x86_64/scheduler/scheduler.c:88-142 | When a process is created: not with 255 of them, no entry point or no stack; the fresh identifier, priority, entry point, stack and full slice it gets; and when the returned int is -1 |
| SchedulerRuns.InitInv | kernel/src/x86_64/scheduler/scheduler.c:52-86 | The first table: the kernel process alone, running, with a full slice |
| SchedulerRuns.TerminateRemoves | kernel/src/x86_64/scheduler/scheduler.c:144-178 | A listed process other than 0 is the one that goes: all others stay, unchanged and in order; the kernel's identifier and unknown ones change nothing |
| SchedulerRuns.TerminateKeeps | kernel/src/x86_64/scheduler/scheduler.c:144-178 | Termination keeps the invariant exactly when it does not remove a lower slot while the running process is in the last |
| SchedulerRuns.TerminateFollows | kernel/src/x86_64/scheduler/scheduler.c:165-170 | The current process is followed exactly when it is not in the last slot behind the one removed, and then slot 0 counts as current; which slot does when it is itself removed |
| SchedulerRuns.BlockThenUnblock | kernel/src/x86_64/scheduler/scheduler.c:180-194 | Neither call touches another slot or the current index, whatever the identifier; blocking and unblocking a running process makes it ready |
| SchedulerRuns.BlockedWaits | kernel/src/x86_64/scheduler/scheduler.c:180-186 | A running process that is blocked stays blocked and is not run by any later tick while another is ready or running |
| SchedulerRuns.BlockedRuns | kernel/src/x86_64/scheduler/scheduler.c:245-248 | A blocked process is switched to exactly in the fallback to slot 0 |
| SchedulerRuns.YieldGivesUp | kernel/src/x86_64/scheduler/scheduler.c:298-307 | A yielding process stays current exactly when all others have larger priority numbers, and is then left ready |
| SchedulerRuns.TickChanges | kernel/src/x86_64/scheduler/scheduler.c:251-296 | What one tick does to slices, states, charged time and the current index |
| SchedulerRuns.RunInv | kernel/src/x86_64/scheduler/scheduler.c:88-307 | On every run without that termination: unique identifiers, process 0 in slot 0, current in range, at most the current process running |
| SchedulerRuns.BoundedWaiting | kernel/src/x86_64/scheduler/scheduler.c:251-296 | A ready process that none comes before runs within 3 ticks per place of cyclic distance |
| SchedulerRuns.RunsEver | kernel/src/x86_64/scheduler/scheduler.c:224-290 | A waiting process runs at some later tick if and only if nobody has a smaller priority number, or exactly one process has and it is the first of its priority after that one in cyclic order |
| SchedulerRuns.RunsBehind | kernel/src/x86_64/scheduler/scheduler.c:224-290 | In the second case it runs within six ticks |
| SchedulerRuns.Starves | kernel/src/x86_64/scheduler/scheduler.c:233-243 | With two others of better priority a process is never chosen |
| Scheduler.ProcessTable.CreateProcess | kernel/src/x86_64/scheduler/scheduler.c:88-142 | Table and return value of create_process |
| Scheduler.ProcessTable.FindFreePid | kernel/src/x86_64/scheduler/scheduler.c:111-116 | The search loop terminates with the fresh identifier of the model |
| Scheduler.ProcessTable.TerminateProcess | kernel/src/x86_64/scheduler/scheduler.c:144-178 | The table after the shift, valid exactly when track is not lost |
| Scheduler.ProcessTable.FindNextProcess | kernel/src/x86_64/scheduler/scheduler.c:224-249 | The scan returns the choice of the model |
| Scheduler.ProcessTable.ChangeProcess | kernel/src/x86_64/scheduler/scheduler.c:251-290 | The table after one tick |
| Scheduler.ProcessTable.YieldProcess | kernel/src/x86_64/scheduler/scheduler.c:298-307 | The table after a yield |

## Left out

- Hardware: IDE polling and error bits, PCI, interrupt and timer code, CR3 loads, TLB flushes and interrupt masking. A disk transfer copies sectors, fails on reads past the end of the device and loses writes there; an interrupt-protected section is one atomic step.
- Allocation results: the pointers kmalloc gives the file reader and the scheduler are the parameters `heapHasRoom` and `stack`, and the contents of the C stack behind the table buffer is the parameter of that name.
- Fat12RoundTrip.WriteThenRead: assumes a table of at most 12 sectors, the size of the local buffer; a larger table overruns it in the original, and so does a reserved count above 255, which the table writer cuts to 8 bits.
- Fat12Runs.RunRefines: runs of writes only. Nothing in the modelled code deletes files, so chains orphaned by the return code -3 stay in use for ever.
- Fat12Format.GeometryFits: devices below 17 sectors and the last 2034 sizes below 2^32, for which the 32-bit computations wrap around, are not covered. The copies of the table are not equal after formatting, because the template is cleared after the first copy, and no such claim is made.
- FAT16 and FAT32: only the entry codecs and allocation loops; BPB, directory and file code would repeat FAT12 or, in FAT32, uses `sizeof` of a pointer as a length.
- fat12_read_files, fat12_write_subdir, Elixir FS, the commented-out old_code, the shell, drivers and console code.
- KernelHeap.Allocator.Kmalloc: the payload is zeroed and kept in 8-byte words rather than bytes, and pointers are numbers in the direct map. The heap's pointer check in kfree is modelled; freeing a pointer that is not live is not.
- PageTables.MapRefines: huge pages and the NX bit are not decoded, and the tables of the space form a tree in memory. The mappings init_paging makes over the boot loader's tables, which use huge pages, are not part of this model.
- PageSpaces.DestroyConserves: needs the lower half exclusively owned; `PageShares.CreateThenDestroy` says what happens otherwise in the one way the kernel makes a shared one.
- Mmu.Paging.MapPage: needs tables in memory that form a tree the allocator holds; with a frame of the free list among them the list is overwritten, and the state after that is not modelled.
- Mmu.Paging.FreePhysicalPage: asks for a page-aligned address, as all callers pass.
- BexeAsm.Feed: starts from parsed lines. Regular expressions, `eval`, include files, macros, `equ`, the beginner syntax, memory operands, sized immediates and registers narrower than 64 bits are not part of this model; the VM does not decode the last three. Reserve counts are not negative.
- BexeVm.Step: a system call sets rax to an arbitrary word; calls that write VM memory are not modelled. A store outside VM memory, undefined in C, stops the model and is recorded.
- BexeRun.Load: an image whose header promises more bytes than the file holds makes the loader read past its buffer; the model reports this and goes no further. Failures of kmalloc in the loader, which the original does not check, are not modelled.
- BexeSim.RunSimulates: a RET to a word that is no line's offset executes from the middle of an instruction; such runs are outside the simulation, though the code and data sections stay unchanged on them too.
- Scheduler.ProcessTable.ChangeProcess: ends before the context switch; stack contents, stack pointers and freeing stacks on termination are not modelled. The timer interrupt never calls change_process, so a tick is a call of it.

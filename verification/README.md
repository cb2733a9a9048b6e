# PeachOS memory, process, disk and parser cores, verified

PeachOS is a small 32-bit x86 kernel. This project models its layered memory
system and the stateful cores beside it, and proves what they keep over whole
runs. `dafny verify dfyconfig.toml` checks everything.

| module | models |
|---|---|
| `Bits`, `Memory`, `Buffers`, `StatusCodes` | 32-bit words with bitwise AND and OR, physical memory as 2^20 pages of 1024 words with little-endian byte access, error numbers |
| `BlockTable`, `HeapRuns`, `BlockHeap` | the block heap: first-fit scan, flag chains, the allocation map a table stands for, all runs, and the class whose methods update the table in place |
| `Kheap`, `PageBlocks` | `kmalloc`, `kzalloc`, `kfree` over physical memory; single-block allocations seen as page frames |
| `PageTables`, `PagingRuns`, `Paging`, `AddressSpace` | two-level page tables held in heap blocks, the flat page map they refine, mapping operations, set-up and tear-down of an address space |
| `SpaceRuns` | any number of address spaces created, used and freed over one heap that everybody else uses too |
| `ProcessImage`, `ImageLayout`, `LoadedProgram` | ELF, binary and stack mapping, the page map of a loaded program read off its headers, and which memory the program can write |
| `UserStrings`, `TaskCopy` | `strncpy` through a page map; `copy_string_from_task` with its scratch page |
| `ProcessHeap` | `process_malloc` and `process_free` of any number of processes over one heap |
| `Streamer`, `Fat16`, `FatReads`, `FatFiles` | byte streams over disk sectors; FAT16 cluster chains; several reads and seeks through one descriptor; files given by the list of their clusters |
| `PathSyntax`, `PathParser` | path syntax; the parser that builds a linked list in heap blocks, and its release |
| `Keyboard`, `TaskList`, `Itoa` | the keyboard ring, the round-robin list, decimal printing |

How the parts fit: a page-table pointer is recovered from a directory entry by
masking, which is right because the heap hands out page-aligned blocks
(`MaskRecoversTable`); one address space cannot disturb another because heap
allocations are disjoint (`NewJoins`, `Isolation`), in every interleaving with
other users of the heap (`EveryState`), and a loaded program whose writable headers
stay inside its blocks is such a user (`ProgramStore`, `TablesOutOfReachIff`);
tear-down gives back exactly what set-up took (`LifeCycle`, `ParseThenFree`).

The heap's flag bytes are bit-vectors. Words are integers below 2^32, because
they are divided into page indexes as well as masked. Additions that C wraps at
32 bits wrap here. Memory is one array of words: page tables, strings and list
nodes all live in it. Pointers to page-aligned blocks are passed as frame numbers.

## Where the code does not do what one would expect

Each is proved with the exact condition under which the expected property holds.

- A request that fits nowhere is answered with the trailing free run, however
  short, and marking then runs past the table (`BlockTable.InBoundsIff`; it happens
  on a heap of two blocks in `BlockTable.ShortTrailingRun`).
- A request of size 0 can be recorded by a process without being allocated
  (`BlockHeap.BlocksForIs`, `ProcessHeap.MallocKeepsInvIff`,
  `ProcessHeap.EmptyRequestBreaks`). The blocks a process is given are recorded by
  nobody if and only if its slots are all in use (`ProcessHeap.BlocksLostIff`). A
  free reaches the heap with an address outside the pool if and only if it is of
  null and a slot is empty (`ProcessHeap.FreesInPoolIff`).
- An ELF segment translates to its file bytes if and only if its address and
  offset agree modulo the page size (`ProcessImage.ElfBytes`,
  `ProcessImage.UnalignedSegment`).
- A header is mapped for its whole memory size, file or no file behind it, so a
  loaded program may be able to write memory that is not its own. It can write no
  page table, on any heap that holds its image and stack and has room for a space,
  if and only if what its writable headers are mapped to, where not covered over,
  stays inside those two blocks or outside the pool
  (`LoadedProgram.TablesOutOfReachIff`; `LoadedProgram.OverlongSegment` is a header
  for which it does not).
- The FAT reader takes a whole cluster's worth per piece, even from the middle of
  a cluster; it is right for every volume if and only if the read starts on a
  cluster boundary or stays within one cluster (`Fat16.GuardIsExact`), and for a
  read of several items if and only if that holds of each (`FatReads.ItemsFitIff`).
- `fat16_read` does not advance the descriptor's position, so a second call repeats
  the first: two calls read one slice of twice the length, on every volume that has
  it, if and only if they read nothing (`FatReads.ReadTwiceIff`). If the items fit
  and a seek by what was read comes in between and is not refused, they do read that
  slice (`FatReads.SeekBetween`, `FatReads.SeekBetweenIff`).
- Removing a task leaves the next task's `prev` stale unless the last task was
  removed (`TaskList.RemoveFullyIff`). A removal is right if and only if the `prev`
  of the removed task is: its predecessor, or, for the first task, no later one and
  null if there is no other (`TaskList.RemoveIff`; two ways to break the list are
  `TaskList.SecondRemovalBreaks` and `TaskList.HeadReuseBreaks`).
- A push onto a full keyboard ring, or a backspace on an empty one, leaves a state
  that is no queue (`Keyboard.PushIff`, `Keyboard.BackspaceIff`).
- `paging_get` answers for page 0 when its address is not page-aligned
  (`Paging.PagingGet`).

## Model

| member | source | states |
|---|---|---|
| BlockTable.LiveIsUnique | src/memory/heap/heap.h:8-19 | a table that is a union of flag chains stands for exactly one allocation map, the one its IS_FIRST and HAS_NEXT bits spell out |
| BlockTable.TableIsUnique | src/memory/heap/heap.h:8-19 | the allocation map determines every byte of the table |
| BlockTable.ChainBytes | src/memory/heap/heap.c:100-117 | the flag bytes of an allocation are 0x41 alone, else 0xc1, then 0x81s, then 0x01 |
| BlockTable.LiveDisjoint | src/memory/heap/heap.c:100-117 | live allocations never share a block and end inside the table |
| BlockTable.StartBlockIsFirstFit | src/memory/heap/heap.c:63-94 | for every table and request the scan answers the lowest fit; failing that the start of the trailing free run; failing that -ENOMEM |
| BlockTable.FreeBytes | src/memory/heap/heap.c:59-61 | a byte counts as free exactly if its low four bits are clear |
| BlockTable.OneBlockScan | src/memory/heap/heap.c:63-94 | for one block the scan fails if and only if no block is free |
| BlockTable.InBoundsIff | src/memory/heap/heap.c:83-93 | marking the answer stays inside the table if and only if nothing is asked, a fit exists, or the last block is taken |
| BlockTable.ShortTrailingRun | src/memory/heap/heap.c:88-93 | on the well-formed table that one malloc leaves of two fresh blocks, a request for two is answered with the one that is left |
| BlockTable.FreeClearsChain | src/memory/heap/heap.c:136-148 | walking from a start clears that chain and nothing else |
| BlockTable.FreeRunIff | src/memory/heap/heap.c:63-94 | a run of free flags is exactly a run of blocks that no live allocation covers |
| BlockTable.TakeKeeps | src/memory/heap/heap.c:100-117 | marking a free run keeps the table a union of disjoint chains and adds one allocation |
| BlockTable.FreeKeeps | src/memory/heap/heap.c:136-148 | freeing a live start keeps the table a union of disjoint chains and removes that allocation |
| BlockTable.MallocThenFree | src/memory/heap/heap.c:119-163 | malloc then free of the answer restores every byte of the table |
| HeapRuns.Account | src/memory/heap/heap.c:25-46 | free blocks plus the lengths of live allocations are all the blocks |
| HeapRuns.TakeStep | src/memory/heap/heap.c:119-134 | a served request adds one map entry that was not there and takes exactly its blocks from the free ones |
| HeapRuns.FreeStep | src/memory/heap/heap.c:136-148 | freeing removes one map entry and returns exactly its blocks |
| HeapRuns.StepRefines | src/memory/heap/heap.c:119-163 | one step does to the allocation map what a tableless lowest-fit allocator does |
| HeapRuns.RunRefines | src/memory/heap/heap.c:119-163 | every run keeps the chains, keeps the block account, and refines the tableless allocator |
| HeapRuns.FreshTable | src/memory/heap/heap.c:41-42 | the zeroed table has no allocation and every block free |
| HeapRuns.OneBlockAvailable | src/memory/heap/heap.c:63-94 | a one-block request succeeds whenever some block is free |
| BlockHeap.BlocksForIs | src/memory/heap/heap.c:48-57 | sizes round up to whole blocks, and to none exactly for 0 and the last 4095 sizes |
| BlockHeap.BytesApart | src/memory/heap/heap.c:96-98 | after every run, the byte range of each live allocation is non-empty and lies in the pool, and no two overlap |
| BlockHeap.Heap.Create | src/memory/heap/heap.c:25-46 | succeeds exactly for aligned bounds and a table of matching length, and then every block is free |
| BlockHeap.Heap.GetStartBlock | src/memory/heap/heap.c:63-94 | the loop over bc and bs computes the scan |
| BlockHeap.Heap.MarkBlocksTaken | src/memory/heap/heap.c:100-117 | the loop writes exactly one chain |
| BlockHeap.Heap.MarkBlocksFree | src/memory/heap/heap.c:136-148 | the loop clears along HAS_NEXT from the given block |
| BlockHeap.Heap.Malloc | src/memory/heap/heap.c:154-159 | the new table and the page-aligned, non-null address of the answer, or 0; the heap stays valid for every in-bounds request |
| BlockHeap.Heap.Free | src/memory/heap/heap.c:161-163 | the new table, and that freeing a live start keeps the heap valid |
| Memory.LittleEndian | src/memory/memory.c:3-10 | the four bytes at a word's address are its value, lowest first |
| Kheap.Kernel.Memset | src/memory/memory.c:3-10 | exactly the given bytes change, and no page they do not reach |
| Kheap.Kernel.Kzalloc | src/memory/heap/kheap.c:26-33 | as malloc, with the block zero-filled and all other bytes kept |
| Kheap.Kernel.Kfree | src/memory/heap/kheap.c:35-37 | as free; memory contents are kept |
| Kheap.KheapInit | src/memory/heap/kheap.c:10-20 | the kernel heap comes up valid with 25600 free blocks |
| PageTables.OwnFramesOnly | src/memory/paging/paging.c:157-165 | a space's frames, well-formedness and flat map depend on its own 1026 pages only |
| PageTables.SetEntryFlat | src/memory/paging/paging.c:135-154 | in the flat map a write changes that page's entry and no other, and the space stays well formed |
| PageTables.SetEntryElsewhere | src/memory/paging/paging.c:135-154 | a write to one space shows in no space that shares no frame with it |
| PagingRuns.RangeRefines | src/memory/paging/paging.c:90-102 | the mapping loop refines the closed form on the flat map, wrap-around included |
| PagingRuns.ApplyRefines | src/memory/paging/paging.c:81-154 | every operation on the two-level tables refines the same operation on the flat map and keeps the frames and the directory |
| PagingRuns.AllOrNothing | src/memory/paging/paging.c:81-132 | an error changes no byte of memory; success installs phys+i with the flags at page virt+i for exactly the counted pages |
| PagingRuns.OpsInNumbers | src/memory/paging/paging.c:81-154 | for each operation, the arguments it refuses and the entries it leaves, as arithmetic on its arguments |
| PagingRuns.RunOpsRefines | src/memory/paging/paging.c:81-154 | the same for every sequence of operations |
| PagingRuns.RunOpsTouches | src/memory/paging/paging.c:81-154 | no sequence of operations changes memory outside the space's own 1026 pages |
| PagingRuns.Isolation | src/memory/paging/paging.c:52-64 | in every interleaving over spaces that share no frame, each space ends as if its own operations had run alone |
| Paging.GetIndexes | src/memory/paging/paging.c:52-64 | the two indexes recombine to the page number; for an unaligned address an error and zero indexes |
| Paging.PagingSet | src/memory/paging/paging.c:135-154 | status and memory of the operation; the space stays well formed |
| Paging.PagingGet | src/memory/paging/paging.c:157-165 | the flat map's entry for the address's page, page 0 if unaligned |
| Paging.PagingMap | src/memory/paging/paging.c:81-88 | status and memory of the operation, errors included |
| Paging.PagingMapRange | src/memory/paging/paging.c:90-102 | status and memory of the whole loop, errors and non-positive counts included |
| Paging.PagingMapTo | src/memory/paging/paging.c:104-132 | status and memory, with all four argument checks |
| AddressSpace.MaskRecoversTable | src/memory/paging/paging.c:20-36 | masking a directory entry gives back the table it was made from |
| AddressSpace.New4gb | src/memory/paging/paging.c:9-26 | takes exactly 1026 fresh blocks, all other memory kept; the flat map is the identity with the flags, and every directory word carries the flags and the writable bit |
| AddressSpace.Free4gb | src/memory/paging/paging.c:33-42 | releases exactly the 1026 blocks of the space and no other allocation |
| AddressSpace.LifeCycle | src/memory/paging/paging.c:9-42 | create, any operations, free: every byte of the block table is as before |
| AddressSpace.KernelStart | src/kernel.c:129-149 | heap and kernel space come up: an identity map in 1026 of the 25600 blocks, every page present, writable and open to programs at both levels |
| AddressSpace.AllowsIff | src/memory/paging/paging.c:9-26 | a page is allowed what both its directory word and its own entry have the bit for |
| AddressSpace.NewJoins | src/memory/paging/paging.c:9-26 | a new space shares no frame with existing ones and changes none of their maps |
| AddressSpace.FreeLeaves | src/memory/paging/paging.c:33-42 | freeing one space leaves all others well formed and owned |
| SpaceRuns.EveryState | src/memory/paging/paging.c:9-154 | in every state of every interleaving of creating, mapping into and freeing spaces with other users' allocations, frees and writes, the live spaces are whole and disjoint, each maps what its own operations make of an identity map, and its directory carries the flags it was made with |
| SpaceRuns.StepKeeps | src/memory/paging/paging.c:9-154 | each single step, whoever takes it, keeps that |
| SpaceRuns.NewSpace | src/memory/paging/paging.c:9-26 | creating a space is such a step |
| SpaceRuns.FreeSpace | src/memory/paging/paging.c:33-42 | freeing a space is such a step |
| SpaceRuns.MapIn | src/memory/paging/paging.c:81-154 | a mapping operation is such a step |
| SpaceRuns.AllocateFor | src/memory/heap/kheap.c:26-33 | another user's allocation with its zero-fill is such a step |
| SpaceRuns.ReleaseFor | src/memory/heap/kheap.c:35-37 | another user's free is such a step |
| ProcessImage.MapElf | src/task/process.c:154-176 | headers are mapped in order up to the first that fails, whose status is returned |
| ProcessImage.MapMemory | src/task/process.c:148-197 | the operations performed for an ELF file or a binary and the stack, and the status |
| ProcessImage.LastCoverWins | src/task/process.c:160-173 | after any run a page has the entry of the last operation that covers it |
| ProcessImage.StackCovers | src/task/process.c:194 | the stack mapping covers exactly four pages, each mapped to its page of the stack block |
| ProcessImage.CompletePageMap | src/task/process.c:148-197 | the entry of every page after a successful load: stack, last covering header or image, or read-only identity |
| ProcessImage.WritablePages | src/task/process.c:163-167 | a page is writable if and only if it is a stack page, a binary page, or its last header has PF_W |
| ImageLayout.HeaderCovers | src/task/process.c:160-168 | for every header: refused exactly if the wrapped end of its pages is below their beginning, else it covers the pages of its segment and no other, by vaddr, offset and memsz |
| ImageLayout.SegmentCount | src/task/process.c:168 | for a segment that ends a page or more below 2^32 these are the pages its bytes fill |
| ImageLayout.BinaryCovers | src/task/process.c:148-152 | for every pointer and size, the pages a binary covers |
| ImageLayout.ElfPageMap | src/task/process.c:154-197 | loaded if and only if every header fits; then the entry of every page in numbers: stack, last segment, or read-only identity |
| ImageLayout.RejectedPageMap | src/task/process.c:168-192 | a rejected file leaves the headers before the first that does not fit, and no stack |
| ImageLayout.BinaryPageMap | src/task/process.c:148-197 | the entry of every page of a binary in numbers |
| LoadedProgram.ShowsIff | src/task/process.c:160-168 | what decides which pages a header makes writable, and where they go, in the headers' fields |
| LoadedProgram.ProgramAllows | src/task/process.c:148-197 | with both levels read, a program may read every page and write exactly the stack, the binary and pages whose last header has PF_W |
| LoadedProgram.WritableTarget | src/task/process.c:148-197 | a writable page translates to its page of the stack block, or to the frame its last covering operation, which allows writing, maps it to |
| LoadedProgram.OutOfReachIff | src/task/process.c:148-197 | for any image and any set of frames: the program can write none of them if and only if they lie off its stack and off what writable headers, where not covered over, are mapped to |
| LoadedProgram.TablesOutOfReach | src/task/process.c:148-197 | if writable headers, where not covered over, stay inside image and stack blocks or outside the pool, no writable page reaches a page table, directory or chunk of any space the heap owns |
| LoadedProgram.TablesOutOfReachIff | src/task/process.c:148-197 | the same over all heaps that hold image and stack and all spaces in them, as an equivalence whose condition speaks of headers and the two blocks only |
| LoadedProgram.OverlongSegment | src/task/process.c:160-168 | a header of six pages over a file of one, with a heap at the kernel's address in which the sixth page is the chunk of a space |
| LoadedProgram.ProgramStore | src/task/process.c:148-197 | a store through a writable page of a program that stays inside is a step every space survives |
| ProcessImage.ElfBytes | src/task/process.c:160-168 | every byte of a segment translates to its byte of the loaded file if and only if address and offset agree modulo 4096 |
| ProcessImage.UnalignedSegment | src/task/process.c:160-168 | a segment at 0x400100 with file offset 0x1000, all else in order, whose first byte is not found |
| ProcessImage.BinaryBytes | src/task/process.c:148-152 | byte k of a binary is found at the program address plus k |
| LoadedProgram.LoadImage | src/task/task.c:174-181 | a new space takes 1026 blocks, changes no memory outside them and, on success, has the complete page map; what the program may read and write with both levels read; a program that stays inside reaches none of these blocks |
| UserStrings.ReadStringIs | src/string/string.c:92-102 | what strncpy copies is the one non-NUL sequence there that stops at a NUL or at the limit |
| UserStrings.Strncpy | src/string/string.c:92-102 | with all accesses translated, a string shorter than count and a NUL arrive and nothing else changes, overlap or not; without overlap its bytes are those of memory at the source, and it ends at a NUL there or at the limit |
| TaskCopy.RemapUndone | src/task/task.c:123-130 | putting the old entry back restores every page but the scratch page |
| TaskCopy.MappedString | src/task/task.c:125-127 | the string read through the changed map is the string of the old map |
| TaskCopy.CopyToScratch | src/task/task.c:122-130 | whatever the source, memory is as before but for the scratch page, which holds a string shorter than max; the source string if that avoids the scratch page and its entry |
| TaskCopy.CopyStringFromTask | src/task/task.c:112-141 | for every source string and on every return path the page map of the space and the block table are exactly as before; on success a string and its NUL arrive; if the source avoids the scratch page and its entry, byte for byte what memory held at the translated addresses |
| ProcessHeap.EveryInterleaving | src/task/process.c:48-88 | in every interleaving of all processes and the rest of the kernel, recorded pointers are live starts and no two slots anywhere hold the same one |
| ProcessHeap.ForeignFree | src/task/process.c:80-84 | freeing a pointer another process holds changes nothing |
| ProcessHeap.DoubleFree | src/task/process.c:80-88 | freeing the same pointer twice is freeing it once |
| ProcessHeap.MallocTakes | src/task/process.c:48-61 | a pointer is answered exactly if blocks and a slot are found; then its blocks are newly taken and it is in the first empty slot, all others kept |
| ProcessHeap.FreeReleases | src/task/process.c:80-88 | freeing a recorded pointer gives back its allocation and no other, empties its slot and keeps every other |
| ProcessHeap.MallocFreeRestores | src/task/process.c:48-88 | freeing what a request answered restores every byte of the block table and every slot |
| ProcessHeap.MallocKeepsInvIff | src/task/process.c:48-61 | a request keeps the invariant if and only if it is for some block, is refused, or finds no slot |
| ProcessHeap.EmptyRequestBreaks | src/task/process.c:48-61 | size 0 on a fresh heap of one block records a pointer that is not allocated |
| ProcessHeap.FreesInPoolIff | src/task/process.c:80-88 | what a free hands on to the heap is an address in the pool, unless null is freed with a slot empty |
| ProcessHeap.BlocksLostIff | src/task/process.c:54-57 | blocks taken for a process are recorded by no process, and null is returned, if and only if it has no empty slot |
| ProcessHeap.Process.FindFreeAllocationIndex | src/task/process.c:37-46 | the first empty slot or -ENOMEM |
| ProcessHeap.Process.Malloc | src/task/process.c:48-61 | block table, slots and answer of the step; the block is newly taken and zero-filled, and recorded in the first empty slot |
| ProcessHeap.Process.IsProcessPointer | src/task/process.c:63-70 | true if and only if the pointer is in a slot |
| ProcessHeap.Process.AllocationUnjoin | src/task/process.c:72-78 | every slot with the pointer is emptied and no other |
| ProcessHeap.Process.Free | src/task/process.c:80-88 | block table and slots of the step; a recorded live pointer's allocation leaves the map and its blocks are free again |
| Streamer.SliceAppend | src/disk/streamer.c:46-48 | two consecutive slices of the disk are one longer slice |
| Streamer.DiskStream.Seek | src/disk/streamer.c:19-22 | the new position |
| Streamer.DiskStream.Read | src/disk/streamer.c:24-53 | the recursive sector reader delivers the flat slice from its position, advances by its length, and terminates |
| Fat16.WalkOn | src/fs/fat/fat16.c:391-436 | re-walking from the head agrees with walking on from where one stopped |
| Fat16.PieceOfContents | src/fs/fat/fat16.c:351-354 | a piece of cluster k of the concatenated chain is the disk at the cluster the walk finds |
| Fat16.ReadRefines | src/fs/fat/fat16.c:438-475 | for any FAT, if no piece runs past its cluster the reader yields exactly bytes offset to offset+total of the chain, and fails exactly when the chain is too short |
| Fat16.GuardIsExact | src/fs/fat/fat16.c:450-453 | for given offset and total the reader is right on every volume if and only if the guard holds |
| Fat16.ItemsAreOneSlice | src/fs/fat/fat16.c:682-703 | if every item fits, nmemb items are one slice of the chain |
| Fat16.FileRead | src/fs/fat/fat16.c:682-703 | item and cluster sizes that divide one another, at matching positions: one slice |
| Fat16.Reader.GetClusterForOffset | src/fs/fat/fat16.c:391-436 | the loop computes the walk, its failures included |
| Fat16.Reader.ReadInternalFromStream | src/fs/fat/fat16.c:438-475 | status and bytes of the recursive reader for every offset and total; nothing outside the buffer range changes |
| Fat16.Reader.Read | src/fs/fat/fat16.c:682-703 | the buffer and count for all items from the descriptor's position, or the first failure; the position stays |
| Fat16.FileDescriptor.Seek | src/fs/fat/fat16.c:705-742 | position and status for every mode: accepted exactly for a file, an offset inside it and the first two modes; the position kept otherwise |
| FatFiles.ReadsFile | src/fs/fat/fat16.c:391-475 | for a file given by any list of its clusters, an aligned read inside it delivers the bytes of the disk at those clusters, in order |
| FatFiles.ReadEnds | src/fs/fat/fat16.c:401-428 | if the last cluster's entry is 0, 0xff0, 0xff6, 0xff7, 0xff8 or 0xfff, a read that needs more fails with -EIO |
| FatFiles.ItemsReadFile | src/fs/fat/fat16.c:682-703 | the same bytes for the items of fat16_read |
| FatFiles.TwoClusters | src/fs/fat/fat16.c:391-475 | a contiguous file in clusters 2 and 3 is read whole |
| FatReads.TwoCalls | src/fs/fat/fat16.c:682-703 | two calls through one descriptor, with or without a seek between them, are the two specified sequences of reads |
| FatReads.ReadTwiceIff | src/fs/fat/fat16.c:687-703 | on all volumes of a geometry, two calls give one slice of twice the length where the chain has it, if and only if they read nothing; for every position, and every buffer below 4 GiB |
| FatReads.ItemsAppend | src/fs/fat/fat16.c:688-699 | m items and then n items are m+n items, failures included |
| FatReads.ItemsFitIff | src/fs/fat/fat16.c:682-703 | on all volumes of a geometry, nmemb items are one slice of the chain if and only if every item fits |
| FatReads.SeekBetween | src/fs/fat/fat16.c:682-742 | if the items fit, reading, seeking by what was read and reading again is one slice of twice the length |
| FatReads.SeekBetweenIff | src/fs/fat/fat16.c:682-742 | on all volumes of a geometry, when the seek is accepted, if and only if all items of both calls fit |
| PathSyntax.AcceptedIff | src/fs/pparser.c:8-90 | accepted are exactly the paths of 3 to 108 characters that begin with a digit, a colon and a slash |
| PathSyntax.PartsAreSplitPrefix | src/fs/pparser.c:32-69 | the parts are the longest prefix of non-empty pieces between slashes |
| PathSyntax.PartsFit | src/fs/pparser.c:33-39 | every part is non-empty, slash-free and no longer than the rest of the path |
| PathSyntax.RoundTrip | src/fs/pparser.c:83-114 | parsing a printed drive and list of components gives them back |
| PathSyntax.PrintParsed | src/fs/pparser.c:83-114 | printing what was parsed gives the path back if and only if no piece of it is empty |
| PathParser.GetPathPart | src/fs/pparser.c:32-52 | the component as a NUL-terminated string in a fresh buffer it fits in, or no allocation left behind |
| PathParser.ParsePathPart | src/fs/pparser.c:54-69 | one more node linked behind the last, or null for an empty component |
| PathParser.Parse | src/fs/pparser.c:83-114 | null without effect for a rejected path; otherwise a root whose list in memory holds exactly the parts, in exactly the blocks taken; no other memory changes but one block that was and is free |
| PathParser.PathparserFree | src/fs/pparser.c:71-81 | exactly the blocks of the list and its root are released |
| PathParser.ParseThenFree | src/fs/pparser.c:71-114 | every byte of the block table is as before, for every path |
| Keyboard.HoldsUnique | src/task/process.h:36-40 | a ring stands for at most one queue |
| Keyboard.WrapKeepsSlot | src/keyboard/keyboard.c:35-37 | wrapping a counter at 2^32 does not move its slot |
| Keyboard.PushIff | src/keyboard/keyboard.c:45-58 | a push leaves a queue if and only if there was room or the character is NUL |
| Keyboard.BackspaceIff | src/keyboard/keyboard.c:39-43 | a backspace leaves a queue if and only if the ring was not empty |
| Keyboard.StepRefines | src/keyboard/keyboard.c:35-75 | push, pop and backspace are the operations of a double-ended queue |
| Keyboard.RunRefines | src/keyboard/keyboard.c:35-75 | every legal run answers as the queue does and ends standing for it, counters wrapping |
| Keyboard.KeyboardPush | src/keyboard/keyboard.c:45-58 | the fields after the step; no effect without a current process |
| Keyboard.KeyboardPop | src/keyboard/keyboard.c:60-75 | the fields and the character of the step; NUL and no effect without a current task |
| Keyboard.KeyboardBuffer.KeyboardBackspace | src/keyboard/keyboard.c:39-43 | the fields after the step |
| TaskList.RemoveIff | src/task/task.c:63-79 | whatever the prev pointers, removing a task leaves chain, head, tail and current right if and only if its own prev is its predecessor or, for the first task, no later one (null if it is the only one) |
| TaskList.RemoveFullyIff | src/task/task.c:63-79 | from a well-formed list any removal leaves the forward chain right, and the prev pointers right if and only if the last was removed |
| TaskList.SecondRemovalBreaks | src/task/task.c:64-66 | after a removal in the middle, removing the successor next breaks the list |
| TaskList.CurrentAfterRemove | src/task/task.c:76-78 | the current task after a removal: unchanged, the next, or the first |
| TaskList.RemoveHarmless | src/task/task.c:63-79 | prev pointers that are right or point outside the list stay so in every removal |
| TaskList.AppendIff | src/task/task.c:34-44 | appending keeps the list right, prev pointers included, if and only if it did not contain the new one |
| TaskList.AppendHarmlessIff | src/task/task.c:34-44 | stale prev pointers still point outside the list if and only if none of them names the new task |
| TaskList.ReusedBlockBreaks | src/task/task.c:34-79 | if the stale prev of the first task names a block that is handed out again for a new task, removing the first breaks the list |
| TaskList.HeadReuseBreaks | src/task/task.c:34-79 | from every well-formed list of two or more: remove the first, create one in its block, remove the first, and the list is broken |
| TaskList.TailRuns | src/task/task.c:22-79 | every run of creations and tail removals keeps a well-formed list |
| TaskList.EachOnce | src/task/task.c:55-61 | n switches visit each of n places once and return |
| TaskList.Tasks.TaskNew | src/task/task.c:34-44 | for every task not in it, re-issued blocks included, the list is extended in creation order and current kept |
| TaskList.Tasks.TaskGetNext | src/task/task.c:55-61 | the next pointer, or head after the last |
| TaskList.Tasks.TaskListRemove | src/task/task.c:63-79 | all pointers after the removal, and when they are right |
| TaskList.Tasks.SwitchAround | src/task/task.c:91-95 | repeated switching to the next follows the round-robin order |
| Itoa.ReadDecimal | programs/stdlib/src/stdlib.c:4-28 | reading the decimal form gives back the number |
| Itoa.DecimalIsTheCanonical | programs/stdlib/src/stdlib.c:4-28 | the decimal form is the one canonical numeral for its number |
| Itoa.Itoa | programs/stdlib/src/stdlib.c:4-28 | for every 32-bit int, the minimum included, the text is its decimal form and stays inside the buffer |

## Left out

- BlockHeap.Heap.Malloc: requests whose marking would run past the table are excluded by its precondition; `BlockTable.InBoundsIff` says exactly which they are.
- BlockHeap.Heap.Free: addresses outside the pool, null included, are excluded; the code would then write outside the table.
- Kheap.Kernel.Kzalloc: the 4095 largest sizes are excluded; they round to no block and the zero-fill would cover nearly all memory.
- ProcessHeap.Process.Free: a null pointer with an empty slot is excluded, because it matches that slot and reaches the heap; `ProcessHeap.FreesInPoolIff` says that nothing else does.
- AddressSpace.New4gb: at least 1026 free blocks are required, because the code does not check its allocations.
- AddressSpace.KernelStart: what the drivers allocate between the two steps is left out.
- PathParser.Parse: enough free blocks for the list are required, because the code does not check its allocations.
- Kheap.Kernel: the block table is an array apart from memory, while the code keeps it at address 0x7e00; so no write through an address can touch it here.
- ProcessHeap.MallocKeepsInvIff: covers the 4095 largest sizes as far as table and slots go; the zero-fill, which would then cover nearly all memory, is not part of the step.
- TaskCopy.CopyStringFromTask: a non-positive max is excluded, and the destination must lie off the scratch page and off the page tables of the space. The kernel's map is taken to be the identity whatever memory holds, so a destination on the kernel's own page tables is not told apart from any other. Page faults and permission checks are not modelled.
- UserStrings.Strncpy: non-positive counts are excluded, and the destination must be mapped to itself and lie off the page tables in force.
- SpaceRuns.EveryState: other users are taken to free and write their own allocations only, or to write outside the pool; for what a loaded program writes this is `LoadedProgram.ProgramStore`.
- LoadedProgram.TablesOutOfReachIff: heaps with no room for a space beside image and stack are excluded.
- Fat16.Reader.Read: positions are unbounded integers, so 32-bit overflow beyond 2 GiB of disk is not modelled; the geometry puts clusters 0 and 1 at non-negative positions.
- The byte position of FAT entries and the 12-bit end markers against FAT16's own: the entry lookup is an arbitrary function.
- Streamer.DiskStream.Read: sector reads succeed; ATA transfer and its errors are not modelled.
- ProcessHeap.Process.Malloc: the block table and the slot table are taken to be different arrays.
- Keyboard.KeyboardPush: the current process is a parameter; which one it is is not modelled.
- The heap side of task creation and release, registers, interrupt dispatch, system-call wrappers and the terminal.
- FAT16 directories and names, the file descriptor table, ELF validation and GDT packing: field copies and searches with no state between calls.

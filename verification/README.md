# MiqOSoft: a verified model of its storage, loader and console code

MiqOSoft is a small operating system for i686 machines. This project models the parts of it
that keep state and should nevertheless agree with a simple abstract object, and proves that
they do:

- **Kernel heap** (`BlockList`, `KernelHeap`, `HeapRuns`, `HeapShares`, `SharedHeap`). A first-fit
  allocator over a fixed 1 MB arena, with 12-byte headers inside the arena. The arena is an array
  of bytes that the methods change in place; the block list that its headers describe is proved
  to be a function of the set of live blocks. Its two users in the kernel, the system-call files
  and the RAM file system, are proved not to disturb each other in any mixed run of calls that their
  callers may make, although the RAM file system at times writes a zero into a header.
- **System-call files** (`FileSpec`, `FileTable`, `SyscallFiles`, `SyscallRuns`). A file table
  and a descriptor table whose buffers live in that heap refine a map from names to byte
  sequences.
- **FAT reader** (`FatVolume`, `FatBoot`, `FatFile`, `FatLookups`, `FatHandle`, `FatReader`,
  `FatRuns`, `FatSessions`, `FatStray`, `FatDirectory`, `FatPath`, `FatStart`, `FatTable`, `FatFormat`).
  A five-sector sliding window on the table, shared by all handles, and a one-sector buffer per handle
  present every file as a byte sequence; directories are searched and paths are walked through the
  same handles. Entry widths, end-of-chain values and the fields of the boot sector and of directory
  entries are those of the sections "FAT Data Structure", "Boot Sector and BPB" and "FAT Directory
  Structure" of the FAT32 File System Specification, version 1.03. Disks that are written field by
  field in this layout are read as they were written.
- **ELF loader** (`ElfImage`, `ElfLoader`, `ElfWritten`). Program headers, laid out as in chapter 5 of
  the System V ABI, are turned into a memory image by reading the file through the FAT driver. An
  executable that is written header by header is in memory after it has been loaded.
- **RAM file system** (`RamTree`, `RamStore`, `RamFileSystem`, `RamLosses`, `RamRuns`). A table of 64
  slots with parent indices stays a tree, and its files own distinct blocks of the kernel heap.
- **Console** (`KeyRing`, `LineEditor`, `Tokens`, `Terminal`, `Numbers`). The keyboard ring
  with pushes that interrupt a pop, the line editor, the in-place tokenizer, the scrolling
  screen, and printing and parsing of numbers.

Each object whose functions change fields is a class. Its `Valid` predicate ties the fields to
a value (a block list, a map, a stream, a tree, a zipper, an endless sheet of paper), every
method says what it does to that value, and lemmas about the values say what that means. Formats are
tied down from the other side: encoders that are written down from the layout alone, field after
field, are shown to be what the code reads (`FatTable`, `FatFormat`, `ElfWritten`, and
`Numbers.NumeralSpelled` for numerals).

## How to read the results

Where the code does not do what one would expect of it, the model keeps the code as it is, and
a lemma states the exact condition under which it does:

- The kernel's and the boot loader's `memcpy` take a 16-bit length. Where it copies nothing, a
  file has what its buffer held before. So a write is right exactly when the bytes that were not
  copied were there already (`FileSpec.WriteExact`, `FileSpec.OverwriteExact`), and an append is
  right whatever the buffer held exactly when the data, and a file that has to be moved, are below
  64 KB (`FileSpec.AppendExact`). Of 64 KB written to a new file nothing arrives
  (`SyscallRuns.LoseChunk`). The ELF loader copies whole 64 KB chunks not at all, so a loaded
  file is right exactly when those chunks are zero (`ElfImage.LoadedFaithfully`).
- `malloc` adds 31 to its request in 32 bits, which wraps for the 31 largest requests
  (`BlockList.RoundedCovers`). Such a request is given a block without bytes exactly when the
  first free block is large enough to be split (`BlockList.ServeGoodSizes`).
- A truncating `open` leaves another descriptor past the end of the file exactly when that
  descriptor has advanced (`FileSpec.OpenKeepsPositions`). A read there returns how far it is past
  the end, as a negative number, puts the position back to the end, and copies a number of bytes
  that does not depend on how many were asked for (`SyscallFiles.FileSystem.Read`,
  `SyscallFiles.BehindTheEnd`).
- A 12-bit table entry whose second byte is just outside the cached window is completed with
  the byte that follows the cache in memory, the low byte of the cache position
  (`FatVolume.CachedNextExact`). This cannot happen to entries in the first four sectors of the
  table, and it can to every later one that crosses a sector boundary, the first being that of
  cluster 1706 (`FatVolume.RightFromEverywhere`, `FatVolume.Cluster1706`). Reading is therefore
  stated for the chain that the lookups find: `FatLookups.Seen` follows the lookups of a read from
  the window as it is at that moment, and holds of the chain on disk exactly when all lookups that
  matter agree with the table (`FatLookups.SeenExact`). It always does on FAT16 and FAT32, and for
  FAT12 files in clusters below 1706 (`FatLookups.UsuallySteady`). Where it does not, a read delivers
  the clusters that the lookups find (`FatStray.Found`), and is right exactly when their sectors hold
  the same bytes as those of the file (`FatStray.ReadAsFound`). The first file that fails goes on
  after cluster 1706 (`FatStray.StrayFrom1706`).
- An end-of-chain entry of FAT32 is only taken for one when the four bits that do not belong to the
  entry are ones (`FatFile.EndExact`, `FatLookups.DirectoryEnd`). The usual marker 0x0FFFFFFF is
  taken for a cluster, and the driver asks for a sector of it (`FatFile.StandardEnd`,
  `FatReader.Driver.Refill`).
- `FAT_Open` ends the last component of a path one byte late. That makes no difference, whatever is on
  the stack, exactly when the short form of that name has no room for one more character
  (`FatPath.LateEndHarmless`), as for the boot loader's own path (`FatStart.KernelPath`).
- Closing the root directory rewinds it but does not reload its buffer; the handle is good
  again exactly when the buffer still is the first sector (`FatReader.Driver.CloseRoot`), so a path
  can be opened a second time if its first name was found in that sector (`FatPath.Open`).
- A failed load leaves one file handle open (`ElfLoader.Load`).
- `ramfs_write_file` stores a zero behind the data. When the data fill their block, it hits the low
  byte of the next block's size: that block, free or in use, then ends up to 255 bytes early as far as
  the allocator knows, and nobody gets these bytes again (`RamLosses.TerminatorEffect`,
  `BlockList.LostForGood`). The store does no harm exactly when there is a byte left in the block, or
  it is the last block, or that low byte is zero already. Blocks and their payloads stay where they
  are all the same, so that no file loses a byte, in whatever runs (`RamFileSystem.RamFs.WriteFile`,
  `SharedHeap.Interleave`). The first file of 256 bytes on an empty heap costs 232 bytes
  (`RamLosses.FirstFullFile`).
- `ramfs_create` looks for the name as it was given but stores at most 31 characters of it. Names
  stay unique exactly when the stored name is new (`RamTree.CreateKeepsUnique`), and a file can be
  deleted by the name it was created with exactly when that has at most 31 characters
  (`RamLosses.CreateWriteDelete`; `RamLosses.LeaveBehind` is the input that fails).
- The path that `pwd` prints leads back exactly when no name on the way has a slash in it or is ".."
  (`RamTree.PathIsAddress`); `mkdir a/b` makes one that does not (`RamRuns.LoseTheWay`).
- A directory is reached by its own name exactly when `cd` does not treat that name specially
  (`RamTree.CdOwnName`).
- A tab advances by two, two, one or three columns, because its loop looks at the column again
  after each space (`Terminal.TabStops`).

Preconditions state what the code demands of its callers: pointers given to `free` are live,
buffers of system calls lie outside the heap, paths have fewer than 64 characters, position
plus count does not wrap, a built-in file is not made to grow, a read past the end of a file does not
leave the memory of its buffer or of the heap, the boot sector does not make the code divide by zero,
the components of a FAT path fit the name buffer and none but the last fails to open once it is found,
and the table lookups of a FAT read find the chain that the file is said to have. A disk
read is a lookup that fails past the end of the disk; a failed read leaves the buffer as it was. The
two literal texts of the built-in files, the memory the machine starts with, the stack and the disk
are parameters. The mixed run of `SharedHeap.Interleave` ends at the first call that does not meet
these conditions.

## Model

| member | source | states |
|---|---|---|
| BlockList.Canonical | src/kernel/syscall.c:139-179 | two block lists that tile the arena without free neighbours and have the same live blocks have the same blocks in the same places; if no bytes have been lost they are the same list |
| BlockList.RoundedCovers | src/kernel/syscall.c:136-137 | rounding to 32 bytes covers the request exactly for requests up to 0xFFFFFFE0, with less than 32 bytes of waste; above, it wraps to zero |
| BlockList.MallocIsFirstFit | src/kernel/syscall.c:139-160 | malloc fails exactly when no free block is large enough; otherwise it grants the lowest one, at most 44 bytes more than the rounded request |
| BlockList.ServeWellFormed | src/kernel/syscall.c:131-161 | after any request the blocks tile the arena, no two neighbours are free, and no live block is lost |
| BlockList.AllocateEffect | src/kernel/syscall.c:141-155 | a served request adds exactly the granted block to the live set |
| BlockList.ServeGoodSizes | src/kernel/syscall.c:136-155 | serving a request keeps every block at 32 bytes or more if and only if the request does not wrap, or no block is free, or the first free block is too small to be split |
| BlockList.WrappedRequestIsEmpty | src/kernel/syscall.c:136-155 | on the heap as it is at boot, a request in the wrapping range is granted a block without bytes, which breaks the minimum block size |
| BlockList.ReleaseEffect | src/kernel/syscall.c:163-181 | freeing a live block removes exactly that block from the live set and leaves no two free neighbours |
| BlockList.FreeUndoesMalloc | src/kernel/syscall.c:131-181 | free of what malloc has just granted restores every block, and the whole list if no bytes have been lost |
| BlockList.FreesCommute | src/kernel/syscall.c:163-181 | two frees give the same blocks in either order, and the same list if no bytes have been lost |
| BlockList.RunWellFormed | src/kernel/syscall.c:131-181 | every run of mallocs and frees of live blocks keeps the list well formed |
| BlockList.HistoryDoesNotMatter | src/kernel/syscall.c:131-181 | two runs that end with the same live blocks end with the same block list |
| BlockList.AllFreedIsInitial | src/kernel/syscall.c:29-39 | a run that has freed everything ends with the single initial block |
| BlockList.NickedEffect | src/kernel/shell/shell_commands.c:349-353 | a zero in the low byte of a size field moves no block and touches nobody's; it loses as many bytes as that byte said |
| BlockList.LostForGood | src/kernel/syscall.c:131-181 | no run of mallocs and frees loses further bytes or finds lost ones again |
| BlockList.AllFreed | src/kernel/syscall.c:163-181 | from any heap, a run that has freed everything ends with one free block that lacks exactly the lost bytes |
| BlockList.RunGoodSizes | src/kernel/syscall.c:131-181 | through a run every block keeps at least 32 bytes and a size that is a multiple of 4 if and only if no request is given an empty block |
| BlockList.SmallRequests | src/kernel/syscall.c:136-137 | none is, whatever the heap, if no request is in the wrapping range |
| KernelHeap.PayloadsDisjoint | src/kernel/syscall.c:15-23 | payloads lie in the arena, are pairwise disjoint and contain no header byte |
| KernelHeap.Served | src/kernel/syscall.c:131-161 | the pointer malloc returns is NULL exactly when the heap is full, and else the payload of a new live block of at least the requested size |
| KernelHeap.SweptIsCoalesce | src/kernel/syscall.c:170-178 | the merging loop, started anywhere in the list, computes the recursive merging of free runs |
| KernelHeap.Heap.Init | src/kernel/syscall.c:29-39 | the first call writes the header of the single free block; later calls change nothing |
| KernelHeap.Heap.Malloc | src/kernel/syscall.c:131-161 | malloc on memory does to the headers what first fit does to the block list, returns its pointer, and changes no payload of any block that there then is, live or free |
| KernelHeap.Heap.Search | src/kernel/syscall.c:139-158 | the walk over the headers in memory finds the first free block that is large enough |
| KernelHeap.Heap.Carving | src/kernel/syscall.c:143-155 | marking and splitting a block in memory is splitting it in the list, and changes no live payload |
| KernelHeap.Heap.Free | src/kernel/syscall.c:163-181 | free on memory does to the headers what releasing does to the block list, and changes no other live payload |
| KernelHeap.Heap.Sweep | src/kernel/syscall.c:169-178 | the merging loop over the headers in memory terminates with the merged list |
| KernelHeap.Heap.Relocate | src/kernel/syscall.c:279-284 | malloc, memcpy and free in a row move the front of a block to a new one, whose other bytes are what memory held there, keep all other payloads, and keep everything when malloc fails |
| KernelHeap.Heap.PutZero | src/kernel/shell/shell_commands.c:349-353 | a zero stored behind n bytes of a live block keeps these bytes and every other payload, and the headers are then those of the list with the size behind it cut down, if it hits one |
| HeapRuns.Replay | src/kernel/syscall.c:131-181 | a whole run on memory follows the run on block lists, and changes no byte of a block that it does not free |
| HeapShares.OtherOwner | src/kernel/syscall.c:131-181 | what one owner does with its blocks leaves every other owner its blocks, with their bytes and for itself |
| SharedHeap.SystemCall | src/kernel/syscall.c:109-296 | any system call that its caller may make changes the files and descriptors as its return code says, a read delivers the bytes of its own file, and the RAM file system stays as it is |
| SharedHeap.RamCall | src/kernel/shell/shell_commands.c:253-370 | any command on the RAM file system, with any data, changes the table and the contents as its return code says, a read delivers the front of the file, and the system-call files stay as they are |
| SharedHeap.Interleave | src/kernel/syscall.c:109-296 | in any mixed run of system calls and commands, up to the first call that its caller may not make, each of the two file systems changes by its own calls only, as their outcomes say, and reads deliver its own files |
| FileSpec.ShortWriteIsWriteTo | src/kernel/syscall.c:276-295 | with data, and a moved file, below 64 KB a write splices the data into the file at the position and changes nothing else |
| FileSpec.WriteExact | src/kernel/syscall.c:276-295 | a write is a splice if and only if every byte that memcpy did not copy, of the data or of a file that was moved, was in the buffer already |
| FileSpec.OverwriteExact | src/kernel/syscall.c:289-295 | an overwrite inside the file is a splice if and only if the bytes not copied repeat those of the file |
| FileSpec.AppendExact | src/kernel/syscall.c:283-289 | an append adds exactly the data whatever its buffer held before if and only if the data, and a moved file, are below 64 KB |
| FileSpec.ChunkIsLost | src/kernel/syscall.c:289-292 | 64 KB written to an empty file leave it with what its buffer held before |
| FileSpec.OpenKeepsPositions | src/kernel/syscall.c:218-230 | opening leaves a descriptor past the end of its file if and only if it truncates a file on which another descriptor has advanced |
| FileSpec.WriteAllAppends | src/kernel/syscall.c:250-296 | writes at the end, in any pieces, add the concatenation of the pieces |
| FileSpec.WriteAllSplices | src/kernel/syscall.c:250-296 | writes from any position, in any pieces, replace as many bytes there as the pieces have in all, or add those that reach past the end |
| FileSpec.OpenWriteClose | src/kernel/syscall.c:183-296 | opening an existing file, writing it in any pieces and closing it leaves the pieces if the open truncates, the old contents and then the pieces if it only appends, and otherwise the pieces over the front of the old contents |
| FileSpec.ReadAllDelivers | src/kernel/syscall.c:109-129 | reads in any pieces deliver what one read of the same total delivers |
| FileSpec.CreateWriteClose | src/kernel/syscall.c:183-296 | creating a file, writing it in any pieces and closing it adds exactly that file |
| FileSpec.WriteReopenRead | src/kernel/syscall.c:109-296 | what is written to a new file in any pieces is read back after a reopen in any pieces, and no other file changes |
| SyscallFiles.FileSystem.constructor | src/kernel/syscall.c:66-89 | at boot there are exactly the two built-in files, with their texts, and no open descriptor |
| SyscallFiles.FileSystem.Open | src/kernel/syscall.c:183-235 | open finds, creates, truncates and positions as the map of files says; each failure has its code, and a file created before descriptors ran out stays |
| SyscallFiles.FileSystem.Create | src/kernel/syscall.c:198-213 | creating takes an unused entry and a 256-byte block; a full table or a full heap leaves every file as it was; no other owner's block is touched |
| SyscallFiles.FileSystem.OpenDescriptor | src/kernel/syscall.c:217-234 | the lowest free descriptor from 3 on is taken |
| SyscallFiles.FileSystem.Close | src/kernel/syscall.c:237-248 | close frees exactly that descriptor, or rejects one that is not open |
| SyscallFiles.FileSystem.Read | src/kernel/syscall.c:109-129 | read delivers the bytes at the position, as far as memcpy copies them, moves the position by the count it returns, and changes no file; past the end of the file it returns the wrapped difference, copies what lies behind the file, and puts the position back to the end |
| SyscallFiles.BehindTheEnd | src/kernel/syscall.c:120-128 | less than 2 GB past the end that is the distance, negative, and the number of bytes copied is its remainder modulo 64 KB, whatever was asked for |
| SyscallFiles.FileSystem.Write | src/kernel/syscall.c:250-296 | write changes the one file as far as memcpy copies, even when its buffer is moved, and otherwise the file has what its buffer held; rejected and out-of-memory writes change nothing; no other owner's block is touched |
| SyscallFiles.FileSystem.Grow | src/kernel/syscall.c:276-287 | a larger buffer has the contents that memcpy copies, and behind them what memory held there; a failed malloc changes nothing |
| SyscallRuns.WriteThenRead | src/kernel/syscall.c:109-296 | the calls themselves, one after the other: a new file written in pieces, reopened and read in pieces gives back what was written, and nothing else has changed; it can only fail when there is no entry, no descriptor or no memory |
| SyscallRuns.OpenAndWrite | src/kernel/syscall.c:183-296 | the calls do so: a file that is there, opened with any flags that allow writing, written in pieces and closed holds what its flags say, and nothing else has changed; it only fails when descriptors or memory run out |
| SyscallRuns.WriteDenied | src/kernel/syscall.c:260-272 | a file that was opened without the write flag cannot be written: the code is -4 and no file changes |
| SyscallRuns.OpenMissing | src/kernel/syscall.c:183-216 | without the create flag a file that is not there is not made: the code is -5 |
| SyscallRuns.LoseChunk | src/kernel/syscall.c:276-295 | on the heap as it is at boot, writing 64 KB to a new file reports success, but the file holds the bytes that were in memory before |
| FatBoot.RegionsInOrder | src/bootloader/stage2/fat.c:174-184 | tables, root directory and data follow one another, and the root region is just long enough for the root directory |
| FatFormat.BootParsed | src/bootloader/stage2/fat.c:17-59 | the fields of a boot sector that is written in the order of the specification are the fields the driver uses, those of FAT32 included |
| FatFormat.LayoutWritten | src/bootloader/stage2/fat.c:131-190 | for a boot sector that is written the driver finds the root directory right behind the tables, or at its cluster on FAT32, the data right behind both, and the width of an entry from the number of clusters: 12 bits below 4085 of them, else 16 or 32 |
| FatFormat.StartWritten | src/bootloader/stage2/fat.c:140-205 | on a disk with that boot sector the driver starts with exactly that volume, and fails exactly when the root directory is not on the disk |
| FatVolume.CachedNextExact | src/bootloader/stage2/fat.c:252-299 | the cached lookup agrees with the table on disk if and only if the entry does not straddle the window or the stray byte carries the same bits |
| FatVolume.CachedNextRight | src/bootloader/stage2/fat.c:252-299 | for FAT16, FAT32, and FAT12 entries inside one sector or in the first four sectors of the table, the lookup is right from every cache position |
| FatVolume.RightFromEverywhere | src/bootloader/stage2/fat.c:252-299 | a lookup is right from every cache position if and only if its entry is such a one, or the one window that it straddles leaves a stray byte with the right bits |
| FatVolume.CrossingCanStraddle | src/bootloader/stage2/fat.c:266-282 | every other entry straddles the window from some cache position |
| FatVolume.Cluster1706 | src/bootloader/stage2/fat.c:266-282 | cluster 1706 is the first such one; read through the window at the start of the table only the low eight bits of its entry count |
| FatTable.NextWritten | src/bootloader/stage2/fat.c:252-299 | in a table that is written entry by entry, of any of the three widths, what comes after a cluster is its entry, with end values extended |
| FatTable.NextInTable | src/bootloader/stage2/fat.c:252-299 | the driver returns that entry from every window but the one that ends between its two bytes |
| FatTable.ChainWritten | src/bootloader/stage2/fat.c:342-346 | a chain of clusters is on such a table if and only if its entries lead along the chain, and to an end behind a directory without a size |
| FatTable.ByteOfFile | src/bootloader/stage2/fat.c:207-250 | byte p of a file is byte p modulo 512 of the sector that p has in its clusters |
| FatTable.ReadLaidOut | src/bootloader/stage2/fat.c:212-367 | opening and reading a file whose clusters such a table links delivers exactly the bytes of these sectors, in order |
| FatLookups.SeenExact | src/bootloader/stage2/fat.c:342-346 | the lookups of a read find the chain on disk if and only if every lookup that matters agrees with the table |
| FatLookups.SteadyIsSeen | src/bootloader/stage2/fat.c:342-346 | a chain on disk whose entries never straddle is found wherever the window is |
| FatLookups.UsuallySteady | src/bootloader/stage2/fat.c:266-282 | that is every chain of FAT16 and FAT32, and every FAT12 chain in clusters below 1706 |
| FatReader.Driver.Initialize | src/bootloader/stage2/fat.c:140-205 | a volume is set up from its boot sector, all handles are closed, the window is nowhere, and the root directory of FAT12 and FAT16 is a stream at its start; it fails exactly when there is no boot sector or the root's first sector is not on the disk |
| FatReader.Driver.ReadFat | src/bootloader/stage2/fat.c:125-128 | the cache becomes the five sectors, or stays as it was when they are not on the disk |
| FatReader.Driver.NextCluster | src/bootloader/stage2/fat.c:252-299 | from every cache position the next cluster is the cached lookup, and the window ends where it says |
| FatReader.Driver.Read | src/bootloader/stage2/fat.c:301-367 | if its lookups find the file's chain, a read delivers the next bytes of the file, as many as asked or as are left, moves the position by as many, leaves the window where the lookups do, and touches no other handle |
| FatReader.Driver.UsuallySees | src/bootloader/stage2/fat.c:301-367 | they find it for the root directory of FAT12 and FAT16 and for every file whose chain is on the table and never straddles |
| FatStray.FoundExact | src/bootloader/stage2/fat.c:252-299 | for a file with a size, the clusters that the lookups find are its chain on disk if and only if every lookup that matters agrees with the table |
| FatStray.SameContent | src/bootloader/stage2/fat.c:356-361 | two lists of sectors have the same content up to a position if and only if they have it sector by sector |
| FatStray.ReadAsFound | src/bootloader/stage2/fat.c:212-367 | opening and reading any file with a size delivers the clusters that the lookups find, and that is the file if and only if their sectors hold the same bytes, as far as was read |
| FatStray.StrayFrom1706 | src/bootloader/stage2/fat.c:266-299 | from cluster 1706, with the window at the start of the table, the next cluster found is the low eight bits of the entry, which is the one on disk if and only if the other bits are zero |
| FatReader.Driver.Refill | src/bootloader/stage2/fat.c:347-361 | past an end-of-chain value the file is given its position for its size; otherwise the sector is read, whatever cluster it would be in, and a failed read leaves the buffer |
| FatFile.EndExact | src/bootloader/stage2/fat.c:294-298 | an entry is taken for the end of a chain if and only if it is an end-of-chain value of its width and, on FAT32, its four bits that do not count are ones |
| FatFile.StandardEnd | src/bootloader/stage2/fat.c:342-357 | the FAT32 marker 0x0FFFFFFF is an end-of-chain value, but the driver takes it for a cluster and asks for the sector that this cluster would have |
| FatLookups.DirectoryEnd | src/bootloader/stage2/fat.c:342-352 | a directory without a size on FAT16 or FAT32 is seen to end if and only if its last entry is one that the driver takes for an end |
| FatReader.Driver.OpenEntry | src/bootloader/stage2/fat.c:212-250 | opening takes the lowest closed handle, puts it at the start of the entry's bytes, and leaves every open handle as it was; it fails exactly when no handle is closed or the first sector is not on the disk |
| FatReader.Driver.Close | src/bootloader/stage2/fat.c:374-385 | closing a file marks exactly its handle as closed |
| FatReader.Driver.CloseRoot | src/bootloader/stage2/fat.c:376-380 | closing the root directory rewinds it, and it can be read again if and only if its buffer still is its first sector |
| FatFile.ContentOfSector | src/bootloader/stage2/fat.c:356-361 | sector n of a file is its bytes from 512 n on |
| FatFile.LbaNoWrap | src/bootloader/stage2/fat.c:207-210 | the 32-bit sector number of a good cluster is its true sector number |
| FatHandle.NextInCluster | src/bootloader/stage2/fat.c:342-357 | inside a cluster the cursor moves to the next sector of the file |
| FatHandle.NextIsCluster | src/bootloader/stage2/fat.c:343-357 | after the last sector of a cluster the cursor moves to the first sector of the next one |
| FatHandle.NextIsEnd | src/bootloader/stage2/fat.c:343-354 | after the last cluster the file is at its end, and a directory without a size ends there |
| FatHandle.NextInRoot | src/bootloader/stage2/fat.c:329-339 | in the root directory the cursor moves to the next sector |
| FatHandle.InterleavedReads | src/bootloader/stage2/fat.c:301-367 | however requests interleave and are chunked, each file delivers from its position what was asked of it in all, or all it has |
| FatRuns.Schedule | src/bootloader/stage2/fat.c:252-367 | the driver does so on any run of reads over any of its open handles, which share one cache, if the lookups of the run find the chains |
| FatRuns.SteadySees | src/bootloader/stage2/fat.c:252-367 | they do for every run over open files whose chains never straddle |
| FatSessions.Session | src/bootloader/stage2/fat.c:212-385 | in any session of opening, reading and closing, every answer of the driver and what is open at the end are those of the session on values |
| FatSessions.OwnBytes | src/bootloader/stage2/fat.c:301-367 | until it is closed a handle delivers its own file from its own position on, whatever is opened, read and closed on other handles |
| FatSessions.FromOpenOn | src/bootloader/stage2/fat.c:212-367 | a file that is opened and read in any pieces, among any other calls, is delivered from its start |
| FatSessions.ProperIsLegal | src/bootloader/stage2/fat.c:212-385 | for files whose chains never straddle a session needs no condition on the window |
| FatDirectory.GetShortName | src/bootloader/stage2/fat.c:387-405 | the 11 bytes are the upper-case base and extension, padded with blanks |
| FatDirectory.ShortNamesMatch | src/bootloader/stage2/fat.c:387-405 | two valid 8.3 names become the same 11 bytes if and only if they are equal up to ASCII case |
| FatDirectory.ShortNameSpelled | src/bootloader/stage2/fat.c:387-405 | letter by letter: small letters become capitals and nothing else changes, the base is padded with blanks to eight and the extension to three |
| FatDirectory.ReadEntry | src/bootloader/stage2/fat.c:369-372 | the next 32 bytes of the directory are delivered if it has that many left |
| FatDirectory.FindFile | src/bootloader/stage2/fat.c:407-455 | the search terminates, delivers the first entry with the name and stops behind it, or reports none and stops at the end; other handles are untouched |
| FatDirectory.SearchIsFirst | src/bootloader/stage2/fat.c:415-452 | no entry before the one found, and none at all if none is found, has the name |
| FatFormat.ItemParsed | include/fat.h:5-19 | the name, first cluster, size and directory flag of an entry that is written in the order of the structure are those the driver uses |
| FatFormat.SearchWritten | src/bootloader/stage2/fat.c:415-452 | in a directory that is written entry by entry the search finds the first entry with the name, and none exactly when there is none |
| FatFormat.FindWritten | src/bootloader/stage2/fat.c:407-455 | so does the driver, which delivers the fields that were written |
| FatPath.LateEndHarmless | src/bootloader/stage2/fat.c:475-482 | ending a name one byte late makes no difference to its short form, whatever the byte, if and only if the extension has three characters, or there is none and the base has eight, or the dot is one that is not seen |
| FatPath.NamesOfPath | src/bootloader/stage2/fat.c:464-484 | a path of components without slashes is looked up component by component, the last one with its late end |
| FatPath.PathAsSpelled | src/bootloader/stage2/fat.c:457-511 | a path whose last name is full leads where its components lead, whatever the name buffer held |
| FatPath.ProperIsOk | src/bootloader/stage2/fat.c:457-511 | through directories whose chains are on the table and never straddle a walk needs no condition on the window |
| FatPath.Enter | src/bootloader/stage2/fat.c:486-509 | one component is searched for, its directory is closed, and the entry is opened; it fails exactly when it is not there, cannot be read, or no handle is closed |
| FatPath.Open | src/bootloader/stage2/fat.c:457-511 | opening a path gives a handle at the start of what its names lead to, one directory after the other, or none exactly when they lead nowhere or no handle is closed; all other handles are as before, and the root directory can be searched again if the search in it did not leave its first sector |
| FatStart.Start | src/bootloader/stage2/fat.c:140-205 | from a disk with a FAT12 or FAT16 volume the driver starts with its root directory at hand and no file open |
| FatStart.KernelPath | src/bootloader/stage2/main.c:66 | the boot loader's own path leads to kernel.elf in boot, whatever is on the stack |
| FatStart.KernelNames | src/bootloader/stage2/main.c:66 | in the directories these two are looked for as BOOT and KERNEL ELF, padded |
| FatStart.ReadPath | src/bootloader/stage2/fat.c:140-511 | starting the driver, opening a path and reading delivers the front of the file that the path leads to on the disk, or fails exactly when it leads nowhere |
| FatFormat.ReadWritten | src/bootloader/stage2/fat.c:140-455 | on a FAT12 or FAT16 disk of which boot sector, table and root directory are written, starting the driver, finding a name and reading delivers the front of the first file with that name, byte for byte from the clusters the table links, or reports that there is none |
| FatStart.LoadProgram | src/bootloader/stage2/elf.c:8-95 | starting the driver, finding a file in the root directory and loading it puts the program that the disk has under that name into memory, or leaves memory alone when there is none |
| ElfImage.TableIsAtOffset | src/bootloader/stage2/elf.c:38-49 | a table that is not empty is read from its offset if and only if it lies in the file behind the ELF header; one that overlaps the header is not found |
| ElfImage.PlacedFaithful | src/bootloader/stage2/elf.c:58-88 | a segment as the loader leaves it is its bytes of the file and then zeros if and only if its whole 64 KB chunks are zero in the file, as for every segment below 64 KB |
| ElfImage.WholeChunkIsLost | src/bootloader/stage2/elf.c:78-87 | a segment of exactly 64 KB arrives as zeros |
| ElfImage.LoadedFaithfully | src/bootloader/stage2/elf.c:52-92 | a loaded file is laid out as the ABI wants if and only if no segment loses a chunk that is not zero |
| ElfLoader.Load | src/bootloader/stage2/elf.c:8-95 | if the lookups of its reads find the file's chain, loading succeeds exactly when the whole program header table and all loadable segments are in the file; then every segment is in place, nothing but segments and buffers has changed and the handles are as before; after a failure one more handle is open |
| ElfWritten.HeaderFields | include/elf.h:8-30 | the entry point, table offset, entry size and entry count of a header that is written in the order of the structure are those the loader uses |
| ElfWritten.SegmentsWritten | include/elf.h:62-73 | a file with a header and a table of programs that are written in the order of the structures has exactly these segments |
| ElfWritten.LoadWritten | src/bootloader/stage2/elf.c:8-95 | loading such a file succeeds exactly when all its loadable programs are in it; then each is in memory, the entry point is the one that was written, and no address outside programs and buffers has changed |
| ElfWritten.ZeroBehind | src/bootloader/stage2/elf.c:57-59 | then memory from the end of the file part to the end of the memory part of each such program is zero, and a file part below 64 KB is there byte for byte |
| ElfLoader.SteadyLoad | src/bootloader/stage2/elf.c:8-95 | the lookups of a load do so for every file whose chain is on the table and never straddles |
| ElfLoader.LoadHeader | src/bootloader/stage2/elf.c:15-41 | the ELF header is read if the file has one, and its fields are those of the file |
| ElfLoader.LoadTable | src/bootloader/stage2/elf.c:43-49 | skipping and reading leave the program header table in the buffer exactly when the file has all of it |
| ElfLoader.LoadSegment | src/bootloader/stage2/elf.c:55-91 | one loadable segment is cleared, sought, copied and closed; it succeeds exactly when the segment is in the file |
| ElfLoader.Seek | src/bootloader/stage2/elf.c:61-73 | seeking by reading terminates at the offset, or fails exactly when the file ends before |
| ElfLoader.CopySegment | src/bootloader/stage2/elf.c:75-88 | the copying loop terminates with the segment in place, or fails exactly when the file ends before |
| ElfLoader.Memcpy | src/bootloader/stage2/memory.c:3-12 | the bytes at the source are at the destination, and nothing else has changed |
| ElfLoader.Memset | src/bootloader/stage2/memory.c:14-21 | the bytes at the destination are zero, and nothing else has changed |
| RamTree.ChainReachesRoot | src/kernel/shell/shell_commands.c:200-228 | in every reachable table each parent chain reaches the root |
| RamTree.AddKeepsTree | src/kernel/shell/shell_commands.c:262-290 | filling any free slot under a directory keeps the tree |
| RamTree.RemoveKeepsTree | src/kernel/shell/shell_commands.c:300-316 | removing an entry without children from the current directory keeps the tree, and is never the root |
| RamTree.CountUpdate | src/kernel/shell/shell_commands.c:289-316 | the number of slots in use changes as the entry's use does |
| RamTree.CreateKeepsUnique | src/kernel/shell/shell_commands.c:256-270 | names stay unique in their directory if and only if the stored name is new in it |
| RamTree.CdOwnName | src/kernel/shell/shell_commands.c:760-786 | a directory is reached from its parent by its name if and only if the name is neither ".." nor "/" |
| RamTree.CdStaysInTree | src/kernel/shell/shell_commands.c:747-787 | whatever its argument, cd ends in a directory that is in use |
| RamTree.UpDropsLast | src/kernel/shell/shell_commands.c:762-766 | cd ".." from any directory but the root takes the last name off the route |
| RamTree.UpFromRoot | src/kernel/shell/shell_commands.c:762-766 | from the root it stays there |
| RamTree.UpAndBack | src/kernel/shell/shell_commands.c:760-786 | cd ".." and then the directory's own name lead back if and only if that name is neither ".." nor "/" |
| RamTree.DownAndUp | src/kernel/shell/shell_commands.c:760-786 | cd into a child and then ".." lead back |
| RamTree.UpToRoot | src/kernel/shell/shell_commands.c:762-766 | as many ".." as the route has names lead to the root |
| RamTree.SplitJoin | src/kernel/shell/shell_commands.c:384-398 | the text of a path can be split back into its names |
| RamTree.PathIsAddress | src/kernel/shell/shell_commands.c:379-398 | going to the root and into each component of the path text ends in the directory it was built for if and only if no name on the way has a slash in it or is ".." |
| RamFileSystem.RamFs.constructor | src/kernel/shell/shell_commands.c:210-228 | at the start only the root is in use, and it is a tree |
| RamFileSystem.RamFs.FindFile | src/kernel/shell/shell_commands.c:231-240 | the first slot in use with that parent and name |
| RamFileSystem.RamFs.Create | src/kernel/shell/shell_commands.c:253-291 | a new entry in the first free slot under the current directory, and an empty 256-byte buffer for a file; each failure has its code and changes no entry in use; everything else is unchanged |
| RamFileSystem.RamFs.Delete | src/kernel/shell/shell_commands.c:294-319 | exactly the named entry and its block go, never the root or the current directory; a directory with children stays |
| RamFileSystem.RamFs.WriteFile | src/kernel/shell/shell_commands.c:322-356 | the file, created if need be, holds exactly the data and every other file is unchanged, or the heap is full and it keeps its contents; the block list afterwards is the one that the requests and the terminator make of it |
| RamFileSystem.RamFs.Overwrite | src/kernel/shell/shell_commands.c:348-355 | the data and the zero behind it are stored, wherever that is; the headers are those of the list with the size behind cut down, if the zero hits one, and no other file changes |
| RamFileSystem.RamFs.Reserve | src/kernel/shell/shell_commands.c:333-346 | a larger buffer keeps the contents, or the heap is full and nothing changes |
| RamFileSystem.RamFs.ReadFile | src/kernel/shell/shell_commands.c:359-370 | the front of the contents, as far as the buffer is large, is delivered |
| RamFileSystem.RamFs.CurrentPath | src/kernel/shell/shell_commands.c:373-400 | the loop terminates, and the text is the path unless that has more than 255 characters |
| RamFileSystem.RamFs.ChangeDir | src/kernel/shell/shell_commands.c:747-787 | cd goes where the function on tables says, and reports exactly the targets that are not directories |
| RamLosses.TerminatorEffect | src/kernel/shell/shell_commands.c:349-353 | a zero behind the data in a block leaves the block list as it is if and only if the block has a byte left, or is the last one, or the low byte of the next block's size is zero; otherwise fewer than 256 bytes are lost, and every block stays where it is |
| RamLosses.HeadersAfter | src/kernel/shell/shell_commands.c:349-353 | the headers in memory are still those of the old block list if and only if it does no harm |
| RamLosses.WriteLoses | src/kernel/shell/shell_commands.c:322-353 | a write loses bytes of the heap if and only if its terminator does harm |
| RamLosses.FirstFullFile | src/kernel/shell/shell_commands.c:322-353 | the first file of 256 bytes on an empty heap takes 232 bytes from the rest of it |
| RamLosses.TerminableSurvive | src/kernel/shell/shell_commands.c:333-353 | no write of data that are empty or not a multiple of 256 bytes does harm |
| RamLosses.StoredIsFound | src/kernel/shell/shell_commands.c:231-270 | a created entry is found again by the name it was created with if and only if that has at most 31 characters |
| RamLosses.CreateWriteDelete | src/kernel/shell/shell_commands.c:253-356 | creating a file, writing it any number of times and deleting it leaves all files as they were if and only if the name has at most 31 characters or creation failed; then every block is where it was, and no byte of the heap is lost, so that a heap without earlier losses is the same, if and only if no terminator did harm |
| RamLosses.LeaveBehind | src/kernel/shell/shell_commands.c:253-319 | with a longer name the new file stays, because delete does not find it |
| RamStore.StoreUndisturbed | src/kernel/syscall.c:131-181 | the files keep their contents whatever others do with their own blocks of the heap |
| RamRuns.DoAll | src/kernel/shell/shell_commands.c:253-370 | any commands with non-empty names of at most 31 characters that a path can carry keep names unique in their directories |
| RamRuns.Do | src/kernel/shell/shell_commands.c:253-370 | each command changes the table, the current directory and the contents as its return code says |
| RamRuns.WriteAndRead | src/kernel/shell/shell_commands.c:322-370 | what is written to a file, new or not, is read back, if its name has at most 31 characters |
| RamRuns.InAndOut | src/kernel/shell/shell_commands.c:747-787 | cd into a directory and cd ".." end in the same directory; the first succeeds exactly when there is one of that name |
| RamRuns.OutAndIn | src/kernel/shell/shell_commands.c:747-787 | cd ".." and cd into the directory that was left end in the same directory |
| RamRuns.ReturnByPath | src/kernel/shell/shell_commands.c:373-400 | printing the path and then going to the root and into each component that was printed ends in the same directory if and only if no name on the way has a slash in it or is "..", and the path is not that of a single empty name |
| RamRuns.LoseTheWay | src/kernel/shell/shell_commands.c:253-400 | from the directory "a/b" it ends elsewhere |
| RamRuns.PathAfterCommands | src/kernel/shell/shell_commands.c:253-400 | after any commands with such names it ends in the same directory |
| KeyRing.PushAppends | src/kernel/drivers/keyboard.c:283-289 | an accepted character is the last one waiting |
| KeyRing.PopTakesOldest | src/kernel/drivers/keyboard.c:291-296 | the character popped is the one that has waited longest |
| KeyRing.AdvanceKeeps | src/kernel/drivers/keyboard.c:283-296 | an interrupt between any two steps of a pop keeps the invariant |
| KeyRing.RingIsFifo | src/kernel/drivers/keyboard.c:283-296 | wherever interrupts fall, the characters popped are the accepted ones in order, and a push is refused exactly when 255 wait |
| KeyRing.NothingLost | src/kernel/drivers/keyboard.c:283-296 | a run that pushes no more than the ring holds loses nothing |
| KeyRing.PopIsThreeSteps | src/kernel/drivers/keyboard.c:291-296 | the three steps without interruption are one pop |
| KeyRing.KeyBuffer.PushKey | src/kernel/drivers/keyboard.c:283-289 | the character is appended to those waiting, unless 255 are |
| KeyRing.KeyBuffer.PopKey | src/kernel/drivers/keyboard.c:291-296 | the first of those waiting is taken, if there is one |
| KeyRing.KeyBuffer.IsEmpty | src/kernel/drivers/keyboard.c:298-300 | true exactly when nothing waits |
| LineEditor.KeyEditsText | src/kernel/shell/shell.c:188-291 | an ordinary key inserts at the cursor if there is room, Backspace removes the character before it if there is one, left and right keep the text, and all keys but these and Enter change nothing |
| LineEditor.BackspaceUndoes | src/kernel/shell/shell.c:209-274 | Backspace undoes an insertion, cursor included |
| LineEditor.LeftAndRightUndo | src/kernel/shell/shell.c:125-143 | left and right undo each other inside the text |
| LineEditor.TypeText | src/kernel/shell/shell.c:254-289 | typing a text that fits puts it in front of the cursor |
| LineEditor.EnteredAsTyped | src/kernel/shell/shell.c:193-274 | a line that is typed and entered is handed over as it was typed |
| LineEditor.EnterTakesAll | src/kernel/shell/shell.c:193-206 | whatever the line, Enter hands over the text on both sides of the cursor |
| LineEditor.EnteredFromAnywhere | src/kernel/shell/shell.c:188-206 | a line that is typed is handed over whole, wherever left and right keys have put the cursor |
| LineEditor.EnteredWithInsertion | src/kernel/shell/shell.c:188-289 | characters typed k places before the end of a line are in the command at that place, and the rest is as typed |
| LineEditor.EnteredWithErasure | src/kernel/shell/shell.c:188-289 | a Backspace k places before the end takes exactly the character before it out of the command |
| LineEditor.Editor.MoveLeft | src/kernel/shell/shell.c:125-134 | the buffer and the two counters follow the zipper's left key |
| LineEditor.Editor.MoveRight | src/kernel/shell/shell.c:136-143 | they follow its right key |
| LineEditor.Editor.Erase | src/kernel/shell/shell.c:209-221 | shifting the buffer down in place is the zipper's Backspace, and zeros follow the text |
| LineEditor.Editor.Insert | src/kernel/shell/shell.c:254-287 | shifting the buffer up in place is the zipper's insertion, and a full line stays as it is |
| LineEditor.Editor.Submit | src/kernel/shell/shell.c:193-206 | Enter hands over a line that is not empty and clears the buffer |
| LineEditor.Editor.HandleKey | src/kernel/shell/shell.c:193-289 | every key does to the buffer what it does to the zipper |
| LineEditor.Editor.Run | src/kernel/shell/shell.c:188-291 | all waiting characters are taken in order, and the ring is empty afterwards |
| Tokens.WordsOfSpelled | src/kernel/shell/shell.c:306-322 | whatever words a line is written with, and however they are spaced with blanks and tabs, they are its words |
| Tokens.EveryTextIsSpelled | src/kernel/shell/shell.c:306-322 | every text is its words and the blanks around them |
| Tokens.WordsFromStart | src/kernel/shell/shell.c:309-314 | from where a word starts the text has that word and the later ones |
| Tokens.ArgsAreWords | src/kernel/shell/shell.c:308-325 | with room for more words than there are the parser finds all of them; otherwise all but the last it has room for, and then the uncut rest of the line |
| Tokens.Parse | src/kernel/shell/shell.c:293-326 | the pointers returned are to exactly these strings in the cut buffer, at most 15, and a NULL follows them |
| Terminal.WriteKeeps | src/kernel/arch/i686/vga_text.c:85-113 | the cursor stays in its columns and never goes up, and rows above it are final |
| Terminal.RowsAboveAreFinal | src/kernel/arch/i686/vga_text.c:85-118 | no text changes a row above the cursor |
| Terminal.TextFillsLines | src/kernel/arch/i686/vga_text.c:103-113 | text without control characters fills the lines one after the other |
| Terminal.LinesLand | src/kernel/arch/i686/vga_text.c:85-118 | lines with a newline behind each, written from the left, land on successive rows and leave the rest of their rows as it was |
| Terminal.LinesDown | src/kernel/arch/i686/vga_text.c:85-118 | the cursor is then at the left, as many rows further down as there were lines |
| Terminal.Overstrike | src/kernel/arch/i686/vga_text.c:99-113 | after a carriage return the same row is written again from its first column; where the new text ends the old one stays |
| Terminal.TabStops | src/kernel/arch/i686/vga_text.c:94-97 | a tab writes the first number of spaces that is not below the distance to the next multiple of four from the column then reached; it never ends on such a multiple |
| Terminal.Screen.Putc | src/kernel/arch/i686/vga_text.c:85-118 | the screen is the 25-row window onto the endless paper that the number of scrolls tells, with the cursor inside it, for every character |
| Terminal.Screen.Tab | src/kernel/arch/i686/vga_text.c:94-97 | the recursive loop, whose bound changes as it runs, terminates after as many spaces as the column says |
| Terminal.Screen.Scrollback | src/kernel/arch/i686/vga_text.c:66-83 | scrolling in place moves characters and colours up and blanks the bottom rows |
| Terminal.Screen.Clear | src/kernel/arch/i686/vga_text.c:52-64 | from any buffer the screen is blank and shows fresh paper |
| Terminal.Screen.Print | src/kernel/stdio.c:14-21 | a whole string is written to the paper |
| Numbers.PrintUnsigned | src/kernel/stdio.c:37-53 | what is printed is the numeral of the number, for radix 8, 10 and 16 and every 64-bit number |
| Numbers.NumeralFits | src/kernel/stdio.c:39-48 | the digits of a 64-bit number fit the 32-byte buffer |
| Numbers.NoLeadingZero | src/kernel/stdio.c:43-48 | only the number zero starts with a zero |
| Numbers.NumeralSpelled | src/kernel/stdio.c:35-53 | the numeral of the value of any digits without a leading zero is these digits, written with the characters 0 to 9 and a to f, in each radix |
| Numbers.DecStrToInt | src/kernel/shell/shell_commands.c:147-154 | the loop computes the value of the leading digits in 32 bits |
| Numbers.HexStrToInt | src/kernel/shell/shell_commands.c:129-144 | the loop computes the hexadecimal value in 32 bits, after an optional "0x" |
| Numbers.DecMeans | src/kernel/shell/shell_commands.c:147-154 | decimal digits are read as their value in 32 bits, and reading goes on after them |
| Numbers.HexMeans | src/kernel/shell/shell_commands.c:129-144 | so are hexadecimal digits, in small or capital letters |
| Numbers.ParseDigits | src/kernel/shell/shell_commands.c:129-154 | both parsers return the value, in 32 bits, of a text that is digits |
| Numbers.DecRoundTrip | src/kernel/shell/shell_commands.c:147-154 | parsing a printed decimal number gives it back, modulo 2 to the 32 for larger ones, whatever follows the digits |
| Numbers.HexRoundTrip | src/kernel/shell/shell_commands.c:129-144 | so does parsing a printed hexadecimal number, with "0x" or without |
| Numbers.ThereAndBackDec | src/kernel/shell/shell_commands.c:147-154 | printing and then parsing a 32-bit number in decimal gives it back |
| Numbers.ThereAndBackHex | src/kernel/shell/shell_commands.c:129-144 | and in hexadecimal, with "0x" or without |

## Left out

- FatReader.Driver.Read: a directory without a size whose chain ends in a FAT32 marker that the driver does not take for an end (FatLookups.DirectoryEnd) is outside its contract, because reading then goes on behind the directory.
- FatReader.Driver.Read: a read whose lookups find another chain than the one given is described by giving it that other chain, as FatStray.ReadAsFound does; a lookup that leads to a cluster outside the disk is outside its contract.
- FatReader.Driver.NextCluster: a table window that does not lie completely on the disk is outside its contract; the code then goes on with the bytes of the old window.
- FatReader.Driver.Initialize: says nothing about the root directory of a FAT32 volume, because the root handle steps from sector to sector and never follows the chain of its clusters (src/bootloader/stage2/fat.c:329-339).
- FatFormat.ReadWritten: speaks of files in the root directory of FAT12 and FAT16 disks whose lookups cannot straddle; the root directory of FAT32 is left out as above, files below it are FatTable.ReadLaidOut, and straddling lookups are FatStray.ReadAsFound.
- ElfWritten.LoadWritten: takes a header table with entries of 32 bytes behind the ELF header; ElfLoader.Load covers longer entries, and TableIsAtOffset a table that overlaps the header.
- ElfLoader.Load: takes the directory entry of the file instead of its path; the path walk (FatPath.Open), which the loader repeats before it reads the headers and before each segment, is not repeated in it. A NULL from FAT_Open, which the code does not check, is outside its contract.
- FatPath.Open: the root directory of a FAT32 volume is outside its contract, and so is a component that is found but cannot be opened before the last one, because the code then goes on with NULL.
- ElfLoader.Load: headers that overflow their 64 KB buffer, program header entries shorter than 32 bytes, and segments that overlap each other or the loader's own memory are outside its contract.
- SyscallFiles.FileSystem.Read: a count of 2 GB or more is returned as it is, where the int32_t of the code makes it negative; the same holds of write.
- SyscallFiles.FileSystem.Open: path names are strings of fewer than 64 characters; strcpy of longer ones is not modelled.
- RamFileSystem.RamFs.CurrentPath: the copy of the text into the caller's buffer by shell_strncpy is not modelled, and neither is the truncated text of a path that does not fit.
- LineEditor.Editor.Submit: what a command does when it is processed, which may itself read keys, is not part of this model.
- KeyRing.RingIsFifo: keyboard_clear_buffer and the translation of scan codes are not part of this model.
- Validation of the ELF header: its result is computed but never used (src/bootloader/stage2/elf.c:25-33).
- Time stamps, the is_directory flag of system-call files, log messages and console echo.
- The display half of shell_run, hardware cursor updates, and the multi-line editor of the keyboard driver, which is inactive in shell mode.
- Signed printing and the rest of vfprintf: only unsigned digits are modelled.
- LFN entries, qsort and the UTF helpers of the boot loader, which have no live caller.
- Port I/O, BIOS calls, descriptor tables, interrupt setup, timers and assembly.

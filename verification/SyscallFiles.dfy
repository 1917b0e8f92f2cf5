/** The file system calls of the kernel: a table of files whose growing buffers live in the
    kernel heap, and a table of descriptors. Refines the map of module FileSpec. */
module SyscallFiles {
  import opened Bytes
  import opened BlockList
  import opened KernelHeap
  import opened HeapShares
  import opened FileTable
  import Spec = FileSpec

  const SYSCALL_PERMISSION_DENIED: int := -4
  const SYSCALL_NOT_FOUND: int := -5
  const SYSCALL_OUT_OF_MEMORY: int := -6
  const MAX_FILENAME: nat := 64

  datatype Descriptor = Descriptor(file: int, position: u32, flags: u32, inUse: bool)

  function BuiltIn(name: string, text: seq<byte>): VFile
    requires |text| < TWO32
  {
    VFile(name, Literal(text), |text|, |text|, true)
  }

  /** vfs_init */
  function BootFiles(welcome: seq<byte>, info: seq<byte>): (files: seq<VFile>)
    requires |welcome| < TWO32 && |info| < TWO32
    ensures |files| == MAX_FILES
  {
    [BuiltIn("welcome.txt", welcome), BuiltIn("info.txt", info)] + seq(MAX_FILES - 2, _ => UNUSED)
  }

  lemma BootTable(mem: seq<byte>, live: set<Block>, welcome: seq<byte>, info: seq<byte>)
    requires |welcome| < TWO32 && |info| < TWO32
    ensures Table(mem, live, BootFiles(welcome, info), map[], map["welcome.txt" := 0, "info.txt" := 1],
                  map["welcome.txt" := welcome, "info.txt" := info])
  {
    var files := BootFiles(welcome, info);
    assert forall i: nat | 2 <= i < MAX_FILES :: files[i] == UNUSED;
    assert "welcome.txt" != "info.txt" by { assert |"welcome.txt"| != |"info.txt"|; }
    assert Filed(mem, live, files[0], 0, map[], map["welcome.txt" := 0, "info.txt" := 1],
                 map["welcome.txt" := welcome, "info.txt" := info]);
    assert Filed(mem, live, files[1], 1, map[], map["welcome.txt" := 0, "info.txt" := 1],
                 map["welcome.txt" := welcome, "info.txt" := info]);
  }

  const CLOSED_DESCRIPTOR: Descriptor := Descriptor(-1, 0, 0, false)

  ghost predicate DescriptorsOk(fds: seq<Descriptor>, files: seq<VFile>) {
    && |fds| == Spec.MAX_OPEN_FILES && |files| == MAX_FILES
    && forall k | 0 <= k < |fds| && fds[k].inUse :: 0 <= fds[k].file < MAX_FILES && files[fds[k].file].inUse
  }

  ghost function HandleOf(d: Descriptor, files: seq<VFile>): Spec.Handle
    requires d.inUse ==> 0 <= d.file < |files|
  {
    if d.inUse then Spec.Opened(files[d.file].name, d.position, d.flags) else Spec.Closed
  }

  ghost function Handles(fds: seq<Descriptor>, files: seq<VFile>): (hs: seq<Spec.Handle>)
    requires DescriptorsOk(fds, files)
    ensures |hs| == |fds|
    ensures forall k | 0 <= k < |fds| :: hs[k] == HandleOf(fds[k], files)
  {
    seq(|fds|, k requires 0 <= k < |fds| => HandleOf(fds[k], files))
  }

  lemma HandlesUpdate(fds: seq<Descriptor>, files: seq<VFile>, files': seq<VFile>, k: nat, d: Descriptor)
    requires DescriptorsOk(fds, files) && |files'| == |files| && k < |fds|
    requires forall i | 0 <= i < |files| && files[i].inUse :: files'[i].inUse && files'[i].name == files[i].name
    requires d.inUse ==> 0 <= d.file < MAX_FILES && files'[d.file].inUse
    ensures DescriptorsOk(fds[k := d], files')
    ensures Handles(fds[k := d], files') == Handles(fds, files)[k := HandleOf(d, files')]
  {
  }

  /** Changing entries that no descriptor can reach, or only their sizes, changes no handle. */
  lemma HandlesSame(fds: seq<Descriptor>, files: seq<VFile>, files': seq<VFile>)
    requires DescriptorsOk(fds, files) && |files'| == |files|
    requires forall i | 0 <= i < |files| && files[i].inUse :: files'[i].inUse && files'[i].name == files[i].name
    ensures DescriptorsOk(fds, files') && Handles(fds, files') == Handles(fds, files)
  {
  }

  lemma DescriptorFile(fds: seq<Descriptor>, files: seq<VFile>, k: nat)
    requires DescriptorsOk(fds, files) && k < |fds| && fds[k].inUse
    ensures 0 <= fds[k].file < |files| && files[fds[k].file].inUse
    ensures Handles(fds, files)[k] == Spec.Opened(files[fds[k].file].name, fds[k].position, fds[k].flags)
  {
  }

  class FileSystem {
    const heap: Heap
    var files: seq<VFile>
    var fds: seq<Descriptor>
    var console: seq<byte>
    ghost var owned: map<nat, Block>            // the heap block of each heap file
    ghost var slot: map<string, nat>            // where each name is filed
    ghost var disk: map<string, seq<byte>>      // what the table means

    ghost predicate Valid()
      reads this, heap, heap.arena
    {
      && heap.Valid() && heap.initialized
      && |files| == MAX_FILES && |fds| == Spec.MAX_OPEN_FILES
      && Table(heap.mem, Live(heap.blocks), files, owned, slot, disk)
      && DescriptorsOk(fds, files)
    }

    ghost function View(): Spec.State
      requires DescriptorsOk(fds, files)
      reads this
    {
      Spec.State(disk, Handles(fds, files))
    }

    /** Names of the files whose buffers are on the heap, which are the ones that can grow. */
    ghost function HeapFiles(): set<string>
      reads this
    {
      OwnedNames(slot, owned)
    }

    /** syscall_initialize: an empty heap and two built-in files with their literal texts. */
    constructor (memory: array<byte>, welcome: seq<byte>, info: seq<byte>)
      requires memory.Length == ARENA && |welcome| < TWO32 && |info| < TWO32
      modifies memory
      ensures Valid() && fresh(heap) && heap.arena == memory && heap.blocks == INITIAL_BLOCKS
      ensures View() == Spec.State(map["welcome.txt" := welcome, "info.txt" := info],
                                   seq(Spec.MAX_OPEN_FILES, _ => Spec.Closed))
      ensures HeapFiles() == {}
    {
      heap := new Heap(memory);
      console := [];
      files := BootFiles(welcome, info);
      fds := seq(Spec.MAX_OPEN_FILES, _ => CLOSED_DESCRIPTOR);
      owned := map[];
      slot := map["welcome.txt" := 0, "info.txt" := 1];
      disk := map["welcome.txt" := welcome, "info.txt" := info];
      new;
      hide Table;
      heap.Init();
      BootTable(heap.mem, Live(heap.blocks), welcome, info);
    }

    /** sys_handler_close */
    method Close(fd: u32) returns (code: int)
      requires Valid()
      modifies `fds
      ensures Valid()
      ensures if Spec.IsOpen(old(View()), fd) then code == SYSCALL_OK && View() == Spec.CloseFd(old(View()), fd)
              else code == SYSCALL_INVALID_PARAMS && View() == old(View())
      ensures HeapFiles() == old(HeapFiles())
    {
      if fd >= Spec.MAX_OPEN_FILES || !fds[fd].inUse { return SYSCALL_INVALID_PARAMS; }
      HandlesUpdate(fds, files, files, fd, CLOSED_DESCRIPTOR);
      fds := fds[fd := CLOSED_DESCRIPTOR];
      return SYSCALL_OK;
    }

    /** First in-use entry with that name, as an index or -1. */
    method Find(path: string) returns (i: int)
      requires Valid()
      ensures i == if path in slot then slot[path] else -1
    {
      i := 0;
      while i < MAX_FILES
        invariant 0 <= i <= MAX_FILES
        invariant forall j | 0 <= j < i :: !(files[j].inUse && files[j].name == path)
      {
        if files[i].inUse && files[i].name == path {
          assert Filed(heap.mem, Live(heap.blocks), files[i], i, owned, slot, disk);
          return;
        }
        i := i + 1;
      }
      return -1;
    }

    ghost predicate NoUnusedEntry()
      reads this
    {
      forall i | 0 <= i < |files| :: files[i].inUse
    }

    /** Index of the first unused entry, or MAX_FILES. */
    method FindUnused() returns (i: nat)
      requires Valid()
      ensures i <= MAX_FILES && (i == MAX_FILES <==> NoUnusedEntry())
      ensures i < MAX_FILES ==> !files[i].inUse
    {
      i := 0;
      while i < MAX_FILES && files[i].inUse
        invariant 0 <= i <= MAX_FILES
        invariant forall j | 0 <= j < i :: files[j].inUse
      {
        i := i + 1;
      }
    }

    /** Fills the first unused entry; the new file is empty and owns a fresh block. */
    method Create(path: string) returns (i: int, code: int)
      requires Valid() && path !in disk && |path| < MAX_FILENAME
      modifies this, heap, heap.arena
      ensures Valid()
      ensures old(NoUnusedEntry()) ==> i == -1 && code == SYSCALL_NOT_FOUND && View() == old(View())
      ensures !old(NoUnusedEntry()) && HeapFull(old(heap.blocks), FIRST_SIZE) ==>
                i == -1 && code == SYSCALL_OUT_OF_MEMORY && View() == old(View())
      ensures !old(NoUnusedEntry()) && !HeapFull(old(heap.blocks), FIRST_SIZE) ==>
                0 <= i < MAX_FILES && path in slot && slot[path] == i && View() == Spec.Created(old(View()), path)
      ensures HeapFiles() == old(HeapFiles()) + if i < 0 then {} else {path}
      ensures heap.blocks == (if i < 0 then old(heap.blocks) else Serve(old(heap.blocks), FIRST_SIZE))
      ensures PayloadsKept(old(heap.mem), heap.mem, Blocks(heap.blocks))
      ensures OthersSafe(old(heap.mem), heap.mem, old(Live(heap.blocks)), Live(heap.blocks), old(owned), owned)
    {
      var n := FindUnused();
      if n == MAX_FILES { AtRest(); return -1, SYSCALL_NOT_FOUND; }
      hide Represents, PayloadsKept, Live, Table, DescriptorsOk, Handles, Serve, HeapFull, ServedPointer, NewBlock,
        OthersSafe;
      ghost var bs, m := heap.blocks, heap.mem;
      Served(m, bs, FIRST_SIZE);
      var ptr := heap.Malloc(FIRST_SIZE);
      if ptr == NULL {
        // the name has been copied into the entry, which stays unused
        Undisturbed(m, heap.mem, Live(bs), Live(heap.blocks), files, owned, slot, disk);
        SafeWhenKept(m, heap.mem, Live(bs), owned);
        SetUnused(n, files[n].(name := path, data := Null));
        return -1, SYSCALL_OUT_OF_MEMORY;
      }
      NewFile(m, heap.mem, bs, FIRST_SIZE, ptr, files, n, path, owned, slot, disk);
      NamesAdded(m, Live(bs), files, owned, slot, disk, n, path, NewBlock(bs, FIRST_SIZE));
      AddedSafe(m, heap.mem, Live(bs), NewBlock(bs, FIRST_SIZE), files, n, owned, slot, disk);
      FillEntry(n, VFile(path, OnHeap(ptr), 0, FIRST_SIZE, true), NewBlock(bs, FIRST_SIZE));
      return n, SYSCALL_OK;
    }

    /** Records the new empty file f, on block b, in the unused entry n. */
    method FillEntry(n: nat, f: VFile, ghost b: Block)
      requires heap.Valid() && heap.initialized && DescriptorsOk(fds, files)
      requires n < MAX_FILES && !files[n].inUse && f.inUse
      requires Table(heap.mem, Live(heap.blocks), files[n := f], owned[n := b], slot[f.name := n], disk[f.name := []])
      modifies `files, `owned, `slot, `disk
      ensures Valid() && slot == old(slot)[f.name := n] && owned == old(owned)[n := b]
      ensures disk == old(disk)[f.name := []]
      ensures Handles(fds, files) == old(Handles(fds, files))
    {
      hide Table;
      HandlesSame(fds, files, files[n := f]);
      files := files[n := f];
      owned, slot, disk := owned[n := b], slot[f.name := n], disk[f.name := []];
    }

    /** Nothing has happened. */
    lemma AtRest()
      requires Valid()
      ensures PayloadsKept(heap.mem, heap.mem, Blocks(heap.blocks))
      ensures OthersSafe(heap.mem, heap.mem, Live(heap.blocks), Live(heap.blocks), owned, owned)
    {
      hide Table, Represents, DescriptorsOk;
      AllKept(heap.mem, heap.blocks);
      SafeAtRest(heap.mem, heap.blocks, owned);
    }

    method SetUnused(n: nat, f: VFile)
      requires Valid() && n < MAX_FILES && !files[n].inUse && !f.inUse
      modifies `files
      ensures Valid() && View() == old(View())
    {
      UnusedEntry(heap.mem, Live(heap.blocks), files, n, f, owned, slot, disk);
      HandlesSame(fds, files, files[n := f]);
      files := files[n := f];
    }

    /** sys_handler_open */
    method Open(path: string, flags: u32) returns (code: int)
      requires Valid() && |path| < MAX_FILENAME
      modifies this, heap, heap.arena
      ensures Valid()
      ensures var s := old(View());
              var missing := path !in s.disk;
              if missing && (!Spec.Has(flags, Spec.OPEN_CREATE) || old(NoUnusedEntry())) then
                code == SYSCALL_NOT_FOUND && View() == s
              else if missing && HeapFull(old(heap.blocks), FIRST_SIZE) then
                code == SYSCALL_OUT_OF_MEMORY && View() == s
              else
                var t := if missing then Spec.Created(s, path) else s;
                var fd := Spec.FreeFd(t.fds, Spec.FIRST_FD);
                if fd == Spec.MAX_OPEN_FILES then code == SYSCALL_OUT_OF_MEMORY && View() == t
                else code == fd && View() == Spec.OpenOn(t, fd, path, flags)
      ensures HeapFiles() == old(HeapFiles()) + if path in View().disk && path !in old(View()).disk then {path} else {}
      ensures heap.blocks == (if path in View().disk && path !in old(View()).disk
                              then Serve(old(heap.blocks), FIRST_SIZE) else old(heap.blocks))
      ensures PayloadsKept(old(heap.mem), heap.mem, Blocks(heap.blocks))
      ensures OthersSafe(old(heap.mem), heap.mem, old(Live(heap.blocks)), Live(heap.blocks), old(owned), owned)
    {
      hide Table, Represents, Live, HeapFull, DescriptorsOk, Handles, OwnedNames, Spec.FreeFd, Serve, PayloadsKept,
        OthersSafe;
      AtRest();
      NamesOnDisk(heap.mem, Live(heap.blocks), files, owned, slot, disk, path);
      var i := Find(path);
      if i < 0 && Spec.Has(flags, Spec.OPEN_CREATE) {
        i, code := Create(path);
        if i < 0 { return; }
      }
      if i < 0 { return SYSCALL_NOT_FOUND; }
      code := OpenDescriptor(i, path, flags);
    }

    /** Takes the lowest free descriptor for the file at index i. */
    method OpenDescriptor(i: nat, ghost path: string, flags: u32) returns (code: int)
      requires Valid() && path in slot && slot[path] == i
      modifies this
      ensures Valid()
      ensures var s := old(View());
              var fd := Spec.FreeFd(s.fds, Spec.FIRST_FD);
              if fd == Spec.MAX_OPEN_FILES then code == SYSCALL_OUT_OF_MEMORY && View() == s
              else code == fd && View() == Spec.OpenOn(s, fd, path, flags)
      ensures slot == old(slot) && owned == old(owned)
    {
      hide Table, Represents, Live, Spec.Has;
      var fd := Spec.FIRST_FD;
      while fd < Spec.MAX_OPEN_FILES && fds[fd].inUse
        invariant Spec.FIRST_FD <= fd <= Spec.MAX_OPEN_FILES
        invariant Spec.FreeFd(View().fds, fd) == Spec.FreeFd(View().fds, Spec.FIRST_FD)
      {
        fd := fd + 1;
      }
      if fd == Spec.MAX_OPEN_FILES { return SYSCALL_OUT_OF_MEMORY; }
      FiledAs(heap.mem, Live(heap.blocks), files, owned, slot, disk, path);
      if Spec.Has(flags, Spec.OPEN_TRUNCATE) {
        Truncate(i, path);
      }
      var d := Descriptor(i, if Spec.Has(flags, Spec.OPEN_APPEND) then files[i].size else 0, flags, true);
      HandlesUpdate(fds, files, files, fd, d);
      fds := fds[fd := d];
      return fd;
    }

    method Truncate(i: nat, ghost path: string)
      requires Valid() && path in slot && slot[path] == i
      modifies `files, `disk
      ensures Valid() && disk == old(disk)[path := []] && Handles(fds, files) == old(Handles(fds, files))
      ensures files[i].name == path && files[i].inUse && files[i].size == 0
    {
      FiledAs(heap.mem, Live(heap.blocks), files, owned, slot, disk, path);
      OwnedAreLive(heap.mem, Live(heap.blocks), files, owned, slot, disk);
      ghost var f := files[i].(size := 0);
      UpdateFile(heap.mem, heap.mem, Live(heap.blocks), Live(heap.blocks), files, i, f, owned, owned, slot, disk);
      HandlesSame(fds, files, files[i := f]);
      files := files[i := files[i].(size := 0)];
      disk := disk[path := []];
    }

    /** The buffer is outside the heap and takes what a read copies. When the position is past the
        end of the file that is not count, and the source goes on behind the file. */
    ghost predicate ReadReaches(fd: nat, buffer: array<byte>, count: u32)
      requires DescriptorsOk(fds, files)
      reads this
    {
      && buffer != heap.arena
      && (Spec.IsOpen(View(), fd) ==>
            var n := if Spec.InFile(View(), fd) then count else Overrun(fd);
            n <= buffer.Length && (!Spec.InFile(View(), fd) ==> SourceThere(fd, n)))
    }

    /** How many bytes a read copies when the position is past the end of the file. */
    function Overrun(fd: nat): nat
      requires DescriptorsOk(fds, files) && fd < |fds| && fds[fd].inUse
      reads this
    {
      Spec.Copied(Difference(files[fds[fd].file].size, fds[fd].position))
    }

    /** The n bytes from the position of fd on are in the heap, or in the literal text. */
    predicate SourceThere(fd: nat, n: nat)
      requires DescriptorsOk(fds, files) && fd < |fds| && fds[fd].inUse
      reads this
    {
      var p := fds[fd].position;
      match files[fds[fd].file].data
      case OnHeap(ptr) => 0 <= Offset(ptr) && Offset(ptr) + p + n <= ARENA
      case Literal(text) => p + n <= |text|
      case Null => false
    }

    /** Those bytes. */
    ghost function Source(fd: nat, n: nat): seq<byte>
      requires heap.Valid() && DescriptorsOk(fds, files) && fd < |fds| && fds[fd].inUse && SourceThere(fd, n)
      reads this, heap, heap.arena
    {
      var p := fds[fd].position;
      match files[fds[fd].file].data
      case OnHeap(ptr) => heap.mem[Offset(ptr) + p..Offset(ptr) + p + n]
      case Literal(text) => text[p..p + n]
    }

    /** sys_handler_read. memcpy takes a 16-bit length. */
    method Read(fd: u32, buffer: array?<byte>, count: u32) returns (code: int)
      requires Valid() && (buffer != null ==> ReadReaches(fd, buffer, count))
      requires Spec.IsOpen(View(), fd) ==> fds[fd].position + count < TWO32
      modifies `fds, buffer
      ensures Valid()
      ensures if buffer == null || !Spec.IsOpen(old(View()), fd) then
                code == SYSCALL_INVALID_PARAMS && View() == old(View())
                && (buffer != null ==> buffer[..] == old(buffer[..]))
              else if Spec.InFile(old(View()), fd) then
                && code == |Spec.Taken(old(View()), fd, count)| <= buffer.Length
                && View() == Spec.ReadFrom(old(View()), fd, count)
                && Delivered(old(buffer[..]), buffer[..], Spec.Taken(old(View()), fd, count))
              else
                && code == Signed(Difference(old(files[fds[fd].file].size), old(fds[fd].position)))
                && View() == Spec.AtEnd(old(View()), fd)
                && old(Overrun(fd)) <= buffer.Length
                && buffer[..old(Overrun(fd))] == old(Source(fd, Overrun(fd)))
                && buffer[old(Overrun(fd))..] == old(buffer[Overrun(fd)..])
      ensures HeapFiles() == old(HeapFiles())
    {
      if fd >= Spec.MAX_OPEN_FILES || !fds[fd].inUse { return SYSCALL_INVALID_PARAMS; }
      if buffer == null { return SYSCALL_INVALID_PARAMS; }
      InFileIs(fd);
      hide Table, Represents, Live, DescriptorsOk, Delivered, Difference, Signed, Spec.Copied, FileSystem.SourceThere;
      if fds[fd].position > files[fds[fd].file].size {
        code := ReadBehind(fd, buffer);
        return;
      }
      code := Transfer(fd, buffer, count);
      AdvanceFd(fd, code);
    }

    lemma InFileIs(fd: nat)
      requires Valid() && fd < |fds| && fds[fd].inUse
      ensures Spec.IsOpen(View(), fd) && View().fds[fd].position == fds[fd].position
      ensures 0 <= fds[fd].file < |files|
      ensures Spec.InFile(View(), fd) <==> fds[fd].position <= files[fds[fd].file].size
    {
      DescriptorFile(fds, files, fd);
      EntryFacts(heap.mem, Live(heap.blocks), files, owned, slot, disk, fds[fd].file);
      hide Table, Represents, Live;
    }

    /** sys_handler_read from a position past the end: whatever was asked for, the difference to
        the end of the file, in 32 bits, is what it moves the position by. */
    method ReadBehind(fd: u32, buffer: array<byte>) returns (code: int)
      requires Valid() && Spec.IsOpen(View(), fd) && !Spec.InFile(View(), fd) && buffer != heap.arena
      requires Overrun(fd) <= buffer.Length && SourceThere(fd, Overrun(fd))
      modifies `fds, buffer
      ensures Valid() && View() == Spec.AtEnd(old(View()), fd) && HeapFiles() == old(HeapFiles())
      ensures code == Signed(Difference(old(files[fds[fd].file].size), old(fds[fd].position)))
      ensures buffer[..old(Overrun(fd))] == old(Source(fd, Overrun(fd)))
              && buffer[old(Overrun(fd))..] == old(buffer[Overrun(fd)..])
    {
      hide Table, Represents, Live, Spec.Copied;
      DescriptorFile(fds, files, fd);
      var d := fds[fd];
      var file := files[d.file];
      EntryFacts(heap.mem, Live(heap.blocks), files, owned, slot, disk, d.file);
      var toRead := Difference(file.size, d.position);
      var n := Spec.Copied(toRead);
      match file.data {
        case Literal(text) => CopyText(text[d.position..d.position + n], buffer);
        case OnHeap(ptr) => heap.CopyOut(ptr + d.position, n, buffer);
      }
      MoveFd(fd, (d.position + toRead) % TWO32);
      return Signed(toRead);
    }

    /** Moves the position of an open descriptor. */
    method MoveFd(fd: nat, p: u32)
      requires Valid() && fd < |fds| && fds[fd].inUse
      modifies `fds
      ensures Valid() && View() == Spec.MoveTo(old(View()), fd, p)
      ensures forall k | 0 <= k < |fds| :: fds[k].file == old(fds[k].file)
    {
      hide Table, Represents, Live;
      var d := fds[fd].(position := p);
      HandlesUpdate(fds, files, files, fd, d);
      fds := fds[fd := d];
    }

    method AdvanceFd(fd: nat, n: nat)
      requires Valid() && fd < |fds| && fds[fd].inUse && fds[fd].position + n < TWO32
      modifies `fds
      ensures Valid() && View() == Spec.Advance(old(View()), fd, n)
      ensures forall k | 0 <= k < |fds| :: fds[k].file == old(fds[k].file)
    {
      hide Table, Represents, Live;
      MoveFd(fd, fds[fd].position + n);
    }

    /** Copies what a read of count bytes delivers to buffer, and tells how much it is. */
    method Transfer(fd: nat, buffer: array<byte>, count: u32) returns (toRead: u32)
      requires Valid() && fd < |fds| && buffer != heap.arena && count <= buffer.Length
      requires Spec.InFile(View(), fd) && fds[fd].position + count < TWO32
      modifies buffer
      ensures toRead == |Spec.Taken(View(), fd, count)|
      ensures Delivered(old(buffer[..]), buffer[..], Spec.Taken(View(), fd, count))
    {
      hide Table, Represents, Live, Spec.Copied, DescriptorsOk;
      var d := fds[fd];
      assert DescriptorsOk(fds, files);
      DescriptorFile(fds, files, fd);
      var file := files[d.file];
      EntryFacts(heap.mem, Live(heap.blocks), files, owned, slot, disk, d.file);
      toRead := count;
      if d.position + toRead > file.size { toRead := file.size - d.position; }
      CopyOut(d.file, d.position, Spec.Copied(toRead), buffer);
      SliceOfSlice(disk[file.name], d.position, d.position + toRead, 0, Spec.Copied(toRead));
    }

    /** memcpy of n bytes of file i, from position p on, to the front of buffer. */
    method CopyOut(i: nat, p: nat, n: nat, buffer: array<byte>)
      requires Valid() && i < MAX_FILES && files[i].inUse
      requires p + n <= files[i].size && n <= buffer.Length && buffer != heap.arena
      requires files[i].name in disk && |disk[files[i].name]| == files[i].size
      modifies buffer
      ensures buffer[..n] == disk[files[i].name][p..p + n] && buffer[n..] == old(buffer[n..])
    {
      hide Table, Represents, Live;
      EntryBytes(heap.mem, Live(heap.blocks), files, owned, slot, disk, i, p, n);
      match files[i].data {
        case Literal(text) => CopyText(text[p..p + n], buffer);
        case OnHeap(ptr) => heap.CopyOut(ptr + p, n, buffer);
      }
    }

    method CopyText(text: seq<byte>, buffer: array<byte>)
      requires |text| <= buffer.Length
      modifies buffer
      ensures buffer[..|text|] == text && buffer[|text|..] == old(buffer[|text|..])
    {
      for k := 0 to |text|
        invariant forall j | 0 <= j < buffer.Length :: buffer[j] == if j < k then text[j] else old(buffer[j])
      {
        buffer[k] := text[k];
      }
    }

    /** All bytes of the buffer of the file at index i. */
    ghost function Buffer(i: nat): seq<byte>
      requires Valid() && i < MAX_FILES && files[i].inUse
      reads this, heap, heap.arena
    {
      EntryOk(heap.mem, Live(heap.blocks), files, owned, slot, disk, i);
      BufferOf(heap.mem, files[i], i, owned)
    }

    lemma BufferFacts(i: nat)
      requires Valid() && i < MAX_FILES && files[i].inUse
      ensures files[i].name in disk && files[i].size <= files[i].capacity == |Buffer(i)|
      ensures disk[files[i].name] == Buffer(i)[..files[i].size]
      ensures FileOk(heap.mem, Live(heap.blocks), files[i], i, owned)
              && Buffer(i) == BufferOf(heap.mem, files[i], i, owned)
    {
      hide Table, Represents, Live, BufferOf;
      EntryOk(heap.mem, Live(heap.blocks), files, owned, slot, disk, i);
    }

    /** Moves the file at index i to a larger buffer. */
    method Grow(i: nat, needed: u32) returns (ok: bool)
      requires Valid() && i < MAX_FILES && files[i].inUse && files[i].data.OnHeap?
      requires files[i].capacity < needed
      modifies `files, `owned, `disk, heap, heap.arena
      ensures Valid() && Handles(fds, files) == old(Handles(fds, files)) && HeapFiles() == old(HeapFiles())
      ensures ok <==> !GrowthFails(old(heap.blocks), needed)
      ensures !ok ==> disk == old(disk) && heap.blocks == old(heap.blocks)
      ensures ok ==> Grown(old(files[i]), files[i], Round256(needed), old(disk), disk)
      ensures ok ==> Buffer(i) == Refilled(old(disk)[old(files[i]).name],
                                           FreshBytes(old(heap.mem), old(heap.blocks), Round256(needed)))
      ensures OthersSafe(old(heap.mem), heap.mem, old(Live(heap.blocks)), Live(heap.blocks), old(owned), owned)
    {
      hide Represents, PayloadsKept, Live, Table, Moved, Spec.Copied, Serve, HeapFull, NewBlock, ServedPointer,
        Release, DescriptorsOk, Handles, Round256, Grown, FreshBytes, OthersSafe, FileOk, BufferOf, Payload;
      ghost var bs, mem := heap.blocks, heap.mem;
      var file := files[i];
      var capacity := Round256(needed);
      EntryFacts(mem, Live(bs), files, owned, slot, disk, i);
      Served(mem, bs, capacity);
      var n := Spec.Copied(file.size);
      var ptr := heap.Relocate(file.data.ptr, n, capacity, owned[i]);
      if ptr == NULL {
        Undisturbed(mem, heap.mem, Live(bs), Live(heap.blocks), files, owned, slot, disk);
        SafeWhenKept(mem, heap.mem, Live(bs), owned);
        return false;
      }
      BufferHolds(bs, needed);
      ghost var b := NewBlock(bs, capacity);
      var f := VFile(file.name, OnHeap(ptr), file.size, capacity, true);
      ghost var c := MoveFile(mem, heap.mem, Live(bs), Live(heap.blocks), b, files, i, ptr, f, n, owned, slot, disk);
      IsGrown(file, f, capacity, disk, c);
      FreshBytesAre(mem, bs, capacity);
      MovedSafe(mem, heap.mem, Live(bs), Live(heap.blocks), files, i, b, n, owned, slot, disk);
      Install(i, f, b, c);
      return true;
    }

    /** Records that file i now is f, with the block b and the contents c. */
    method Install(i: nat, f: VFile, ghost b: Block, ghost c: seq<byte>)
      requires heap.Valid() && heap.initialized && DescriptorsOk(fds, files)
      requires i < MAX_FILES && files[i].inUse && f.inUse && f.name == files[i].name && i in owned
      requires Table(heap.mem, Live(heap.blocks), files[i := f], owned[i := b], slot, disk[f.name := c])
      modifies `files, `owned, `disk
      ensures Valid() && files == old(files)[i := f] && disk == old(disk)[f.name := c] && owned == old(owned)[i := b]
      ensures Handles(fds, files) == old(Handles(fds, files)) && HeapFiles() == old(HeapFiles())
    {
      SameNames(slot, owned, i, b);
      hide Table, OwnedNames;
      HandlesSame(fds, files, files[i := f]);
      hide DescriptorsOk, Handles, Live;
      files := files[i := f];
      owned, disk := owned[i := b], disk[f.name := c];
    }

    /** Whether a write of count bytes at an open descriptor needs a larger buffer. */
    function NeedsMore(fd: nat, count: u32): bool
      requires DescriptorsOk(fds, files) && fd < |fds| && fds[fd].inUse
      reads this
    {
      fds[fd].position + count > files[fds[fd].file].capacity
    }

    /** The buffer that a write goes to, as it is before: the file's, or the one malloc would
        hand out. */
    ghost function Target(fd: nat, count: u32): Spec.Place
      requires Valid() && fd < |fds| && fds[fd].inUse && fds[fd].position + count < TWO32
      reads this, heap, heap.arena
    {
      BufferFor(fds[fd].file, fds[fd].position + count)
    }

    /** The same for room for so many bytes in file i. */
    ghost function BufferFor(i: nat, needed: u32): Spec.Place
      requires Valid() && i < MAX_FILES && files[i].inUse
      reads this, heap, heap.arena
    {
      if needed > files[i].capacity then Spec.Fresh(FreshBytes(heap.mem, heap.blocks, Round256(needed)))
      else Spec.Same(Buffer(i))
    }

    /** Moves file i to a larger buffer if it does not have so much room. */
    method MakeRoom(i: nat, needed: u32, ghost to: Spec.Place) returns (ok: bool)
      requires Valid() && i < MAX_FILES && files[i].inUse && 0 < needed
      requires to == BufferFor(i, needed) && (to.Fresh? ==> files[i].data.OnHeap?)
      modifies `files, `owned, `disk, heap, heap.arena
      ensures Valid() && Handles(fds, files) == old(Handles(fds, files)) && HeapFiles() == old(HeapFiles())
      ensures ok ==> !NoRoom(old(heap.blocks), needed, to)
      ensures !ok ==> NoRoom(old(heap.blocks), needed, to)
      ensures !ok ==> disk == old(disk) && heap.blocks == old(heap.blocks)
      ensures ok ==> Roomy(old(files[i]), files[i], needed, old(disk), disk)
      ensures ok ==> Rebased(old(disk)[files[i].name], to, Buffer(i))
      ensures OthersSafe(old(heap.mem), heap.mem, old(Live(heap.blocks)), Live(heap.blocks), old(owned), owned)
    {
      hide Table, Represents, Live, DescriptorsOk, GrowthFails, Round256, Grown, OthersSafe, FreshBytes, Refilled;
      BufferFacts(i);
      AtRest();
      if needed > files[i].capacity {
        ghost var f, disk0, blocks0 := files[i], disk, heap.blocks;
        FreshLength(heap.mem, heap.blocks, needed);
        ok := Grow(i, needed);
        if ok {
          BufferHolds(blocks0, needed);
          GrownFacts(f, files[i], Round256(needed), disk0, disk);
          BufferFacts(i);
        }
      } else {
        ok := true;
        assert disk == disk[files[i].name := disk[files[i].name]];
      }
    }

    /** A write at an open descriptor needs a larger buffer, and the heap has none. */
    ghost predicate OutOfRoom(fd: nat, count: u32)
      requires DescriptorsOk(fds, files)
      requires Spec.IsOpen(View(), fd) ==> fds[fd].position + count < TWO32
      reads this, heap
    {
      Spec.IsOpen(View(), fd) && NeedsMore(fd, count) && GrowthFails(heap.blocks, fds[fd].position + count)
    }

    /** The checks of sys_handler_write, in their order. */
    ghost function Judge(fd: nat, buffer: array?<byte>, count: u32): (v: Verdict)
      requires DescriptorsOk(fds, files)
      requires Spec.IsOpen(View(), fd) ==> fds[fd].position + count < TWO32
      reads this, heap
      ensures v.Printed? ==> buffer != null
      ensures v.Written? || v.Denied? || v.NoMemory? ==> buffer != null && Spec.IsOpen(View(), fd)
    {
      if fd >= Spec.MAX_OPEN_FILES || buffer == null || count == 0 then Rejected
      else if fd == 1 || fd == 2 then Printed
      else if !Spec.IsOpen(View(), fd) then Rejected
      else if !Spec.Has(View().fds[fd].flags, Spec.OPEN_WRITE) then Denied
      else if OutOfRoom(fd, count) then NoMemory
      else Written
    }

    /** sys_handler_write. The buffer is outside the heap; a built-in file is not grown, because
        its text was never allocated. */
    method Write(fd: u32, buffer: array?<byte>, count: u32) returns (code: int)
      requires Valid() && (buffer != null ==> buffer != heap.arena && count <= buffer.Length)
      requires Spec.IsOpen(View(), fd) ==> fds[fd].position + count < TWO32
      requires Spec.IsOpen(View(), fd) && NeedsMore(fd, count) ==> View().fds[fd].name in HeapFiles()
      modifies this, heap, heap.arena
      ensures Valid() && HeapFiles() == old(HeapFiles())
      ensures var v := old(Judge(fd, buffer, count));
              && code == CodeOf(v, count)
              && console == (if v.Printed? then old(console) + old(buffer[..count]) else old(console))
              && (v.NoMemory? ==> heap.blocks == old(heap.blocks))
              && if v.Written? then
                   Spec.WroteSome(old(View()), View(), fd, old(buffer[..count]), old(Target(fd, count)))
                 else View() == old(View())
      ensures OthersSafe(old(heap.mem), heap.mem, old(Live(heap.blocks)), Live(heap.blocks), old(owned), owned)
    {
      hide Table, Represents, Live, Spec.WroteSome, GrowthFails, DescriptorsOk, Spec.Has, OthersSafe,
        FileSystem.Target;
      AtRest();
      if fd >= Spec.MAX_OPEN_FILES || buffer == null || count == 0 { return SYSCALL_INVALID_PARAMS; }
      if fd == 1 || fd == 2 {
        console := console + buffer[..count];
        return count;
      }
      if !fds[fd].inUse { return SYSCALL_INVALID_PARAMS; }
      if !Spec.Has(fds[fd].flags, Spec.OPEN_WRITE) { return SYSCALL_PERMISSION_DENIED; }
      DescriptorFile(fds, files, fd);
      OwnedIsOnHeap(heap.mem, Live(heap.blocks), files, owned, slot, disk, fds[fd].file);
      code := Put(fd, buffer[..count]);
    }

    /** The part of write that concerns the file: data is written at p to its buffer, which is
        first moved if it is too small. */
    method Fill(i: nat, p: nat, data: seq<byte>, needed: u32, ghost to: Spec.Place) returns (ok: bool)
      requires Valid() && i < MAX_FILES && files[i].inUse && data != [] && p + |data| == needed
      requires to == BufferFor(i, needed) && (to.Fresh? ==> files[i].data.OnHeap?)
      modifies `files, `owned, `disk, heap, heap.arena
      ensures Valid() && Handles(fds, files) == old(Handles(fds, files)) && HeapFiles() == old(HeapFiles())
      ensures if ok then
                !NoRoom(old(heap.blocks), needed, to) && Filled(old(files[i]).name, old(disk), disk, p, data, to)
              else NoRoom(old(heap.blocks), needed, to) && disk == old(disk) && heap.blocks == old(heap.blocks)
      ensures OthersSafe(old(heap.mem), heap.mem, old(Live(heap.blocks)), Live(heap.blocks), old(owned), owned)
    {
      ghost var m0, live0, owned0 := heap.mem, Live(heap.blocks), owned;
      BufferFacts(i);
      ghost var f, disk0 := files[i], disk;
      hide *;
      ok := MakeRoom(i, needed, to);
      if !ok { return; }
      ghost var m1, live1, owned1 := heap.mem, Live(heap.blocks), owned;
      StoreData(i, p, data, f, disk0, needed, to);
      OthersSafeTransitive(m0, m1, heap.mem, live0, live1, Live(heap.blocks), owned0, owned1, owned);
    }

    /** memcpy of the data into the buffer of file i, which was f in disk0 and has enough room. */
    method StoreData(i: nat, p: nat, data: seq<byte>, ghost f: VFile, ghost disk0: map<string, seq<byte>>,
                     ghost needed: nat, ghost to: Spec.Place)
      requires Valid() && i < MAX_FILES && files[i].inUse && p + |data| == needed
      requires Roomy(f, files[i], needed, disk0, disk) && Rebased(disk0[f.name], to, Buffer(i))
      modifies `files, `owned, `disk, heap, heap.arena
      ensures Valid() && Handles(fds, files) == old(Handles(fds, files)) && HeapFiles() == old(HeapFiles())
      ensures Filled(f.name, disk0, disk, p, data, to)
      ensures OthersSafe(old(heap.mem), heap.mem, old(Live(heap.blocks)), Live(heap.blocks), old(owned), owned)
    {
      ghost var f1, disk1, buf1 := files[i], disk, Buffer(i);
      BufferFacts(i);
      hide *;
      RoomyFacts(f, f1, needed, disk0, disk1);
      var bytes := data[..Spec.Copied(|data|)];
      StoreBytes(i, p, |data|, bytes);
      IsFilled(f, f1, needed, disk0, disk1, disk, p, data, bytes, to, buf1);
    }

    /** The part of write that has passed all checks. */
    method Put(fd: nat, data: seq<byte>) returns (code: int)
      requires Valid() && fd < |fds| && fds[fd].inUse && data != []
      requires fds[fd].position + |data| < TWO32
      requires NeedsMore(fd, |data|) ==> files[fds[fd].file].data.OnHeap?
      modifies this, heap, heap.arena
      ensures Valid() && console == old(console) && HeapFiles() == old(HeapFiles())
      ensures var s := old(View());
              if old(NeedsMore(fd, |data|)) && GrowthFails(old(heap.blocks), s.fds[fd].position + |data|) then
                code == SYSCALL_OUT_OF_MEMORY && View() == s && heap.blocks == old(heap.blocks)
              else code == |data| && Spec.WroteSome(s, View(), fd, data, old(Target(fd, |data|)))
      ensures OthersSafe(old(heap.mem), heap.mem, old(Live(heap.blocks)), Live(heap.blocks), old(owned), owned)
    {
      hide Table, Represents, Live, DescriptorsOk, GrowthFails, Spec.Written, OthersSafe;
      DescriptorFile(fds, files, fd);
      var d := fds[fd];
      var ok := Fill(d.file, d.position, data, d.position + |data|, Target(fd, |data|));
      if !ok { return SYSCALL_OUT_OF_MEMORY; }
      AdvanceFd(fd, |data|);
      return |data|;
    }

    /** The copy into the buffer of file i: bytes is the part of the n bytes that memcpy copies. */
    method StoreBytes(i: nat, p: nat, n: nat, bytes: seq<byte>)
      requires Valid() && i < MAX_FILES && files[i].inUse
      requires |bytes| <= n && p + n <= files[i].capacity
      modifies `files, `owned, `disk, heap, heap.arena
      ensures Valid() && Handles(fds, files) == old(Handles(fds, files)) && HeapFiles() == old(HeapFiles())
      ensures Poked(old(files[i]), old(disk), disk, old(Buffer(i)), p, n, bytes)
      ensures OthersSafe(old(heap.mem), heap.mem, old(Live(heap.blocks)), Live(heap.blocks), old(owned), owned)
    {
      hide Table, Represents, DescriptorsOk, Handles, PayloadsKept, Live, Overlay, OthersSafe, BufferOf, FileOk;
      BufferFacts(i);
      ghost var m := heap.mem;
      EntryFacts(m, Live(heap.blocks), files, owned, slot, disk, i);
      var f := files[i].(size := Max(files[i].size, p + n));
      match files[i].data {
        case OnHeap(ptr) =>
          heap.CopyIn(ptr + p, bytes, owned[i]);
          ghost var c := PokeFile(m, heap.mem, Live(heap.blocks), files, i, f, p, bytes, owned, slot, disk);
          OthersSafeByOwner(m, heap.mem, Live(heap.blocks), owned, i);
          assert owned[i := owned[i]] == owned;
          Install(i, f, owned[i], c);
        case Literal(text) =>
          ghost var f' := f.(data := Literal(Overlay(text, p, bytes)));
          ghost var c := PokeLiteral(m, Live(heap.blocks), files, i, f', p, bytes, owned, slot, disk);
          AtRest();
          HandlesSame(fds, files, files[i := f']);
          files := files[i := f.(data := Literal(Overlay(text, p, bytes)))];
          disk := disk[f.name := c];
      }
    }
  }

  /** How sys_handler_write ends. */
  datatype Verdict = Rejected | Printed | Denied | NoMemory | Written

  function CodeOf(v: Verdict, count: u32): int {
    match v
    case Rejected => SYSCALL_INVALID_PARAMS
    case Denied => SYSCALL_PERMISSION_DENIED
    case NoMemory => SYSCALL_OUT_OF_MEMORY
    case Printed => count
    case Written => count
  }

  ghost function OwnedNames(slot: map<string, nat>, owned: map<nat, Block>): set<string> {
    set n | n in slot && slot[n] in owned
  }

  lemma SameNames(slot: map<string, nat>, owned: map<nat, Block>, i: nat, b: Block)
    requires i in owned
    ensures OwnedNames(slot, owned[i := b]) == OwnedNames(slot, owned)
  {
    assert forall j: nat :: j in owned[i := b] <==> j in owned;
  }

  /** A new file adds its name. */
  lemma NamesAdded(mem: seq<byte>, live: set<Block>, files: seq<VFile>, owned: map<nat, Block>,
                   slot: map<string, nat>, disk: map<string, seq<byte>>, i: nat, name: string, b: Block)
    requires Table(mem, live, files, owned, slot, disk) && i < MAX_FILES && !files[i].inUse && name !in disk
    ensures OwnedNames(slot[name := i], owned[i := b]) == OwnedNames(slot, owned) + {name}
  {
  }

  lemma NamesOnDisk(mem: seq<byte>, live: set<Block>, files: seq<VFile>, owned: map<nat, Block>,
                    slot: map<string, nat>, disk: map<string, seq<byte>>, name: string)
    requires Table(mem, live, files, owned, slot, disk)
    ensures name in slot <==> name in disk
  {
  }

  /** The file at index i can grow exactly when its name is among them. */
  lemma OwnedIsOnHeap(mem: seq<byte>, live: set<Block>, files: seq<VFile>, owned: map<nat, Block>,
                      slot: map<string, nat>, disk: map<string, seq<byte>>, i: nat)
    requires Table(mem, live, files, owned, slot, disk) && i < MAX_FILES && files[i].inUse
    ensures files[i].name in OwnedNames(slot, owned) <==> files[i].data.OnHeap?
  {
    assert Filed(mem, live, files[i], i, owned, slot, disk);
  }

  /** The file has moved to a larger buffer. */
  ghost predicate Grown(f: VFile, f': VFile, capacity: u32, disk: map<string, seq<byte>>, disk': map<string,
                        seq<byte>>) {
    && f'.data.OnHeap? && f' == f.(data := f'.data, capacity := capacity)
    && f.name in disk && f.name in disk' && disk' == disk[f.name := disk'[f.name]]
    && |disk[f.name]| == |disk'[f.name]| == f.size
  }

  lemma GrownFacts(f: VFile, f': VFile, capacity: u32, disk: map<string, seq<byte>>, disk': map<string, seq<byte>>)
    requires Grown(f, f', capacity, disk, disk')
    ensures f'.name == f.name && f'.size == f.size && f'.inUse == f.inUse && f'.capacity == capacity
    ensures f.name in disk && |disk[f.name]| == f.size && f.name in disk' && disk' == disk[f.name := disk'[f.name]]
  {
  }

  /** A fresh buffer, with the bytes of a file c that memcpy has copied to it. */
  ghost function Refilled(c: seq<byte>, buf: seq<byte>): seq<byte> {
    var n := Spec.Copied(|c|);
    if n <= |buf| then c[..n] + buf[n..] else c
  }

  /** The file has to be moved, and the heap has no buffer of that size. */
  ghost predicate NoRoom(blocks: seq<Block>, needed: u32, to: Spec.Place)
  {
    to.Fresh? && GrowthFails(blocks, needed)
  }

  /** File f, now f', has its contents and room for so many bytes; no other file has changed. */
  ghost predicate Roomy(f: VFile, f': VFile, needed: nat, disk: map<string, seq<byte>>, disk': map<string, seq<byte>>) {
    && f'.name == f.name && f'.size == f.size && f'.inUse && needed <= f'.capacity
    && f.name in disk && |disk[f.name]| == f.size && f.name in disk' && disk' == disk[f.name := disk'[f.name]]
  }

  /** The buffer of a file c: what it was before, or after a move. */
  ghost predicate Rebased(c: seq<byte>, to: Spec.Place, buf: seq<byte>) {
    && |c| <= |to.bytes| == |buf|
    && match to
       case Fresh(b) => buf == Refilled(c, b)
       case Same(b) => buf == b && b[..|c|] == c
  }

  lemma RoomyFacts(f: VFile, f': VFile, needed: nat, disk: map<string, seq<byte>>, disk': map<string, seq<byte>>)
    requires Roomy(f, f', needed, disk, disk')
    ensures f'.name == f.name && f'.size == f.size && f'.inUse && needed <= f'.capacity && f.name in disk
  {
  }

  /** The data has been written to the file with that name, and to no other. */
  ghost predicate Filled(name: string, disk: map<string, seq<byte>>, disk': map<string, seq<byte>>, p: nat,
                         data: seq<byte>, to: Spec.Place) {
    && name in disk && name in disk' && disk' == disk[name := disk'[name]]
    && Spec.Written(disk[name], p, data, to, disk'[name])
  }

  /** bytes, which are all or the front of n, have been written to the buffer of file f at p. */
  ghost predicate Poked(f: VFile, disk: map<string, seq<byte>>, disk': map<string, seq<byte>>, buf: seq<byte>,
                        p: nat, n: nat, bytes: seq<byte>) {
    && |bytes| <= n && p + n <= |buf| && f.size <= |buf| && f.name in disk && f.name in disk'
    && disk' == disk[f.name := disk'[f.name]]
    && disk'[f.name] == Overlay(buf, p, bytes)[..Max(f.size, p + n)]
  }

  lemma IsFilled(f: VFile, f': VFile, needed: nat, disk: map<string, seq<byte>>, disk1: map<string, seq<byte>>,
                 disk2: map<string, seq<byte>>, p: nat, data: seq<byte>, bytes: seq<byte>, to: Spec.Place,
                 buf: seq<byte>)
    requires Roomy(f, f', needed, disk, disk1) && Rebased(disk[f.name], to, buf)
    requires bytes == data[..Spec.Copied(|data|)] && Poked(f', disk1, disk2, buf, p, |data|, bytes)
    ensures Filled(f.name, disk, disk2, p, data, to)
  {
    PokedIsWritten(disk[f.name], disk2[f.name], p, data, to, buf);
    hide Spec.Copied, Overlay, Spec.Written;
  }

  lemma FreshLength(mem: seq<byte>, bs: seq<Block>, needed: u32)
    requires Represents(mem, bs) && 0 < needed
    ensures !GrowthFails(bs, needed) ==> |FreshBytes(mem, bs, Round256(needed))| == Round256(needed)
  {
    hide Represents, Round256, HeapFull, NewBlock, Payload;
    if !GrowthFails(bs, needed) { FreshBytesAre(mem, bs, Round256(needed)); }
  }

  /** Writing into the buffer. */
  lemma PokedIsWritten(c: seq<byte>, c': seq<byte>, p: nat, data: seq<byte>, to: Spec.Place, buf: seq<byte>)
    requires Rebased(c, to, buf) && p + |data| <= |buf|
    requires c' == Overlay(buf, p, data[..Spec.Copied(|data|)])[..Max(|c|, p + |data|)]
    ensures Spec.Written(c, p, data, to, c')
  {
    hide Spec.Copied;
    assert to.Same? ==> forall k | 0 <= k < |c| :: buf[..|c|][k] == c[k];
  }

  /** b - a in 32 bits, for an a that is larger. */
  function Difference(b: u32, a: u32): u32 {
    (b - a) % TWO32
  }

  /** A 32-bit number as the int32_t that the handlers return. */
  function Signed(n: u32): (r: int)
    ensures -0x8000_0000 <= r < 0x8000_0000 && (r - n) % TWO32 == 0
  {
    if n < 0x8000_0000 then n else n - TWO32
  }

  /** A read from p past the end, with the end less than 2 GB away, moves the position back to the
      end and returns how far that is, as a negative number; how much memcpy copies does not depend
      on how much was asked for. */
  lemma BehindTheEnd(size: u32, p: u32)
    requires size < p <= size + 0x8000_0000
    ensures Signed(Difference(size, p)) == size - p < 0
    ensures Spec.Copied(Difference(size, p)) == (size - p) % Spec.MEMCPY_LIMIT
  {
    assert Difference(size, p) == size - p + TWO32;
    assert (size - p + 0x1_0000 * Spec.MEMCPY_LIMIT) % Spec.MEMCPY_LIMIT == (size - p) % Spec.MEMCPY_LIMIT;
  }

  /** memcpy has put the bytes it copies at the front of the buffer and left the rest alone. */
  ghost predicate Delivered(before: seq<byte>, after: seq<byte>, taken: seq<byte>) {
    var n := Spec.Copied(|taken|);
    && n <= |after| == |before|
    && after[..n] == taken[..n] && after[n..] == before[n..]
  }

  lemma IsGrown(f: VFile, f': VFile, capacity: u32, disk: map<string, seq<byte>>, c: seq<byte>)
    requires f'.data.OnHeap? && f' == f.(data := f'.data, capacity := capacity)
    requires f.name in disk && |disk[f.name]| == |c| == f.size
    ensures Grown(f, f', capacity, disk, disk[f.name := c])
  {
  }
}

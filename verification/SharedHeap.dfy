/** The system-call files and the RAM file system at work on the same kernel heap. */
module SharedHeap {
  import opened Bytes
  import opened BlockList
  import opened KernelHeap
  import opened HeapShares
  import opened FileTable
  import opened SyscallFiles
  import opened RamFileSystem
  import opened RamRuns
  import RamStore
  import RamTree
  import Spec = FileSpec

  /** Both are in order, on blocks of their own. */
  ghost predicate Shared(fs: FileSystem, ram: RamFs)
    reads fs, ram, fs.heap, fs.heap.arena, ram.heap, ram.heap.arena
  {
    fs.heap == ram.heap && fs.Valid() && ram.Valid() && Owned(fs.owned) !! Owned(ram.owned)
  }

  /** Both start on the heap as it is at boot. */
  method Boot(memory: array<byte>, welcome: seq<byte>, info: seq<byte>) returns (fs: FileSystem, ram: RamFs)
    requires memory.Length == ARENA && |welcome| < TWO32 && |info| < TWO32
    modifies memory
    ensures Shared(fs, ram) && fs.heap.arena == memory && RamRuns.Orderly(ram.files) && ram.contents == map[]
  {
    fs := new FileSystem(memory, welcome, info);
    hide Table, Represents, Live, RamStore.Store;
    ram := new RamFs(fs.heap);
    hide RamTree.UniqueNames;
  }

  /** A system call, or a command on the RAM file system. */
  datatype Call =
    | Open(path: string, flags: u32)
    | Read(fd: u32, count: u32)
    | Write(fd: u32, data: text32)
    | Close(fd: u32)
    | Ram(command: Command)

  /** What a call demands of its caller: a short path, a position that does not wrap, room in a
      built-in file, and that a read past the end of a file stays in memory that is known. */
  predicate Provided(fs: FileSystem, c: Call)
    requires DescriptorsOk(fs.fds, fs.files)
    reads fs
  {
    match c
    case Open(path, flags) => |path| < MAX_FILENAME
    case Read(fd, count) =>
      fd < Spec.MAX_OPEN_FILES && fs.fds[fd].inUse ==>
        var d := fs.fds[fd];
        && d.position + count < TWO32
        && (d.position > fs.files[d.file].size ==> fs.SourceThere(fd, fs.Overrun(fd)))
    case Write(fd, data) =>
      fd < Spec.MAX_OPEN_FILES && fs.fds[fd].inUse ==>
        var d := fs.fds[fd];
        && d.position + |data| < TWO32
        && (d.position + |data| > fs.files[d.file].capacity ==> fs.files[d.file].data.OnHeap?)
    case Close(fd) => true
    case Ram(command) => true
  }

  /** t is what a system call with that outcome makes of the files and descriptors s. */
  ghost predicate Called(s: Spec.State, t: Spec.State, c: Call, o: Outcome) {
    match c
    case Open(path, flags) =>
      && o.data == []
      && if o.code < 0 then t == s || (path !in s.disk && t == Spec.Created(s, path))
         else Opened(s, t, path, flags, o.code)
    case Read(fd, count) =>
      if !Spec.IsOpen(s, fd) then o == Outcome(SYSCALL_INVALID_PARAMS, []) && t == s
      else if Spec.InFile(s, fd) then
        var taken := Spec.Taken(s, fd, count);
        t == Spec.ReadFrom(s, fd, count) && o == Outcome(|taken|, taken[..Spec.Copied(|taken|)])
      else
        && s.fds[fd].name in s.disk && t == Spec.AtEnd(s, fd)
        && var size, p := |s.disk[s.fds[fd].name]|, s.fds[fd].position;
        size < TWO32 && p < TWO32 && o.code == Signed(Difference(size, p))
    case Write(fd, data) =>
      && o.data == []
      && if o.code < 0 || fd == 1 || fd == 2 then t == s
         else o.code == |data| && exists to :: Spec.WroteSome(s, t, fd, data, to)
    case Close(fd) =>
      && o.data == []
      && if Spec.IsOpen(s, fd) then o.code == SYSCALL_OK && t == Spec.CloseFd(s, fd)
         else o.code == SYSCALL_INVALID_PARAMS && t == s
    case Ram(command) => t == s
  }

  /** The file with that path, new or not, is open on the lowest free descriptor. */
  ghost predicate Opened(s: Spec.State, t: Spec.State, path: string, flags: u32, fd: int) {
    var u := if path in s.disk then s else Spec.Created(s, path);
    && |s.fds| == Spec.MAX_OPEN_FILES && fd == Spec.FreeFd(s.fds, Spec.FIRST_FD) < Spec.MAX_OPEN_FILES
    && t == Spec.OpenOn(u, fd, path, flags)
  }

  /** The RAM file system has been at work: the file table is as it was. */
  lemma TableStays(m: seq<byte>, m': seq<byte>, live: set<Block>, live': set<Block>, ram: map<nat, Block>,
                   ram': map<nat, Block>, files: seq<VFile>, owned: map<nat, Block>, slot: map<string, nat>,
                   disk: map<string, seq<byte>>)
    requires OthersSafe(m, m', live, live', ram, ram') && Table(m, live, files, owned, slot, disk)
    requires Owned(owned) !! Owned(ram)
    ensures Table(m', live', files, owned, slot, disk) && Owned(owned) !! Owned(ram')
  {
    TableOwnsLive(m, live, files, owned, slot, disk);
    OtherOwner(m, m', live, live', ram, ram', owned);
    TableUndisturbed(m, m', live, live', files, owned, slot, disk);
    hide Table, PayloadsKept;
  }

  /** System calls have been made: the RAM files are as they were. */
  lemma StoreStays(m: seq<byte>, m': seq<byte>, live: set<Block>, live': set<Block>, sys: map<nat, Block>,
                   sys': map<nat, Block>, files: seq<RamTree.Entry>, owned: map<nat, Block>,
                   contents: map<nat, seq<byte>>)
    requires OthersSafe(m, m', live, live', sys, sys') && RamStore.Store(m, live, files, owned, contents)
    requires Owned(sys) !! Owned(owned)
    ensures RamStore.Store(m', live', files, owned, contents) && Owned(sys') !! Owned(owned)
  {
    RamStore.OwnedLive(m, live, files, owned, contents);
    OtherOwner(m, m', live, live', sys, sys', owned);
    RamStore.StoreUndisturbed(m, m', live, live', files, owned, contents);
    hide RamStore.Store, PayloadsKept;
  }

  /** Any command on the RAM file system, and the system-call files are as they were. */
  method RamCall(fs: FileSystem, ram: RamFs, c: Command) returns (o: Outcome)
    requires Shared(fs, ram)
    modifies ram, ram.heap, ram.heap.arena
    ensures Shared(fs, ram) && Changes(old(ViewOf(ram)), ViewOf(ram), c, o)
  {
    ghost var heap := ram.heap;
    ghost var m, live, owned := heap.mem, Live(heap.blocks), ram.owned;
    hide Table, Represents, OthersSafe, Live, RamStore.Store, Changes, DescriptorsOk;
    o := Do(ram, c);
    TableStays(m, heap.mem, live, Live(heap.blocks), owned, ram.owned, fs.files, fs.owned, fs.slot, fs.disk);
  }

  /** Any system call that is provided for, and the RAM files are as they were. */
  method SystemCall(fs: FileSystem, ram: RamFs, c: Call) returns (o: Outcome)
    requires Shared(fs, ram) && !c.Ram? && Provided(fs, c)
    modifies fs, fs.heap, fs.heap.arena
    ensures Shared(fs, ram) && Called(old(fs.View()), fs.View(), c, o)
  {
    ghost var heap := fs.heap;
    ghost var m, live, owned := heap.mem, Live(heap.blocks), fs.owned;
    hide Table, Represents, OthersSafe, Live, RamStore.Store, Called, DescriptorsOk, Handles, Provided;
    o := Invoke(fs, c);
    StoreStays(m, heap.mem, live, Live(heap.blocks), owned, fs.owned, ram.files, ram.owned, ram.contents);
  }

  /** One system call. */
  method Invoke(fs: FileSystem, c: Call) returns (o: Outcome)
    requires fs.Valid() && !c.Ram? && Provided(fs, c)
    modifies fs, fs.heap, fs.heap.arena
    ensures fs.Valid() && Called(old(fs.View()), fs.View(), c, o)
    ensures OthersSafe(old(fs.heap.mem), fs.heap.mem, old(Live(fs.heap.blocks)), Live(fs.heap.blocks),
                       old(fs.owned), fs.owned)
  {
    hide Table, Represents, OthersSafe, Live, DescriptorsOk, Handles, HeapFull;
    fs.AtRest();
    var code;
    match c {
      case Open(path, flags) =>
        code := fs.Open(path, flags);
        o := Outcome(code, []);
      case Read(fd, count) =>
        o := ReadCall(fs, fd, count);
      case Write(fd, data) =>
        code := WriteCall(fs, fd, data);
        o := Outcome(code, []);
      case Close(fd) =>
        code := fs.Close(fd);
        o := Outcome(code, []);
    }
  }

  method ReadCall(fs: FileSystem, fd: u32, count: u32) returns (o: Outcome)
    requires fs.Valid() && Provided(fs, Read(fd, count))
    modifies fs`fds
    ensures fs.Valid() && Called(old(fs.View()), fs.View(), Read(fd, count), o)
  {
    hide Table, Represents, Live, Handles, DescriptorsOk, Signed, Difference, Spec.Copied, Spec.AtEnd, Spec.ReadFrom,
      FileSystem.SourceThere;
    MayRead(fs, fd, count);
    if fd < Spec.MAX_OPEN_FILES && fs.fds[fd].inUse {
      if fs.fds[fd].position > fs.files[fs.fds[fd].file].size {
        var buffer := new byte[fs.Overrun(fd)](_ => 0);
        var code := fs.Read(fd, buffer, count);
        o := Outcome(code, buffer[..]);
      } else {
        var buffer := new byte[count](_ => 0);
        var code := fs.Read(fd, buffer, count);
        o := Outcome(code, buffer[..Spec.Copied(code)]);
      }
    } else {
      var code := fs.Read(fd, null, count);
      o := Outcome(code, []);
    }
  }

  method WriteCall(fs: FileSystem, fd: u32, data: text32) returns (code: int)
    requires fs.Valid() && Provided(fs, Write(fd, data))
    modifies fs, fs.heap, fs.heap.arena
    ensures fs.Valid() && Called(old(fs.View()), fs.View(), Write(fd, data), Outcome(code, []))
    ensures OthersSafe(old(fs.heap.mem), fs.heap.mem, old(Live(fs.heap.blocks)), Live(fs.heap.blocks),
                       old(fs.owned), fs.owned)
  {
    hide Table, Represents, Live, Handles, HeapFull;
    var buffer := new byte[|data|](i requires 0 <= i < |data| => data[i]);
    assert buffer[..|data|] == data;
    MayWrite(fs, fd, data);
    hide DescriptorsOk, FileSystem.Target, Spec.WroteSome;
    code := fs.Write(fd, buffer, |data|);
  }

  lemma MayRead(fs: FileSystem, fd: u32, count: u32)
    requires fs.Valid() && Provided(fs, Read(fd, count))
    ensures fd < Spec.MAX_OPEN_FILES && fs.fds[fd].inUse <==> Spec.IsOpen(fs.View(), fd)
    ensures Spec.IsOpen(fs.View(), fd) ==>
              && fs.fds[fd].position + count < TWO32
              && 0 <= fs.fds[fd].file < |fs.files| && fs.View().fds[fd].name in fs.disk
              && |fs.disk[fs.View().fds[fd].name]| == fs.files[fs.fds[fd].file].size
              && (fs.fds[fd].position <= fs.files[fs.fds[fd].file].size <==> Spec.InFile(fs.View(), fd))
              && (!Spec.InFile(fs.View(), fd) ==> fs.SourceThere(fd, fs.Overrun(fd)))
  {
    if Spec.IsOpen(fs.View(), fd) {
      DescriptorFile(fs.fds, fs.files, fd);
      EntryFacts(fs.heap.mem, Live(fs.heap.blocks), fs.files, fs.owned, fs.slot, fs.disk, fs.fds[fd].file);
    }
    hide Table, Represents, Live;
  }

  lemma MayWrite(fs: FileSystem, fd: u32, data: text32)
    requires fs.Valid() && Provided(fs, Write(fd, data))
    ensures Spec.IsOpen(fs.View(), fd) ==> fs.fds[fd].position + |data| < TWO32
    ensures Spec.IsOpen(fs.View(), fd) && fs.NeedsMore(fd, |data|) ==> fs.View().fds[fd].name in fs.HeapFiles()
  {
    if Spec.IsOpen(fs.View(), fd) {
      DescriptorFile(fs.fds, fs.files, fd);
      OwnedIsOnHeap(fs.heap.mem, Live(fs.heap.blocks), fs.files, fs.owned, fs.slot, fs.disk, fs.fds[fd].file);
    }
    hide Table, Represents, Live;
  }

  /** What each of the two makes of a call. */
  ghost predicate Step(s: Spec.State, t: Spec.State, v: RamRuns.View, v': RamRuns.View, c: Call, o: Outcome) {
    if c.Ram? then t == s && Changes(v, v', c.command, o) else v' == v && Called(s, t, c, o)
  }

  /** Any run of system calls and commands, in any order, up to a call that is not provided for:
      each of the two file systems changes by its own calls only, and its reads deliver its own
      files. Whatever headers the terminators of RAM files have hit, every file keeps its bytes. */
  method Interleave(fs: FileSystem, ram: RamFs, calls: seq<Call>)
      returns (outcomes: seq<Outcome>, ghost views: seq<Spec.State>, ghost stores: seq<RamRuns.View>)
    requires Shared(fs, ram)
    modifies fs, ram, fs.heap, fs.heap.arena
    ensures Shared(fs, ram) && |outcomes| <= |calls| && |views| == |stores| == |outcomes| + 1
    ensures |outcomes| < |calls| ==> !Provided(fs, calls[|outcomes|])
    ensures views[0] == old(fs.View()) && views[|outcomes|] == fs.View()
    ensures stores[0] == old(ViewOf(ram)) && stores[|outcomes|] == ViewOf(ram)
    ensures forall k | 0 <= k < |outcomes| ::
              Step(views[k], views[k + 1], stores[k], stores[k + 1], calls[k], outcomes[k])
  {
    hide Table, Represents, RamStore.Store, Called, Changes, Handles, DescriptorsOk, OthersSafe, Provided;
    outcomes, views, stores := [], [fs.View()], [ViewOf(ram)];
    for i := 0 to |calls|
      invariant Shared(fs, ram) && |outcomes| == i && |views| == |stores| == i + 1
      invariant views[0] == old(fs.View()) && views[i] == fs.View()
      invariant stores[0] == old(ViewOf(ram)) && stores[i] == ViewOf(ram)
      invariant forall k | 0 <= k < i ::
                  Step(views[k], views[k + 1], stores[k], stores[k + 1], calls[k], outcomes[k])
    {
      if !Provided(fs, calls[i]) { return; }
      var o;
      if calls[i].Ram? {
        o := RamCall(fs, ram, calls[i].command);
      } else {
        o := SystemCall(fs, ram, calls[i]);
      }
      outcomes, views, stores := outcomes + [o], views + [fs.View()], stores + [ViewOf(ram)];
    }
  }
}

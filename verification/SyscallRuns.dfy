/** A client of the system calls: writes a new file in pieces, reopens it and reads it in
    pieces. */
module SyscallRuns {
  import opened Bytes
  import opened BlockList
  import opened KernelHeap
  import opened FileTable
  import HeapShares
  import opened SyscallFiles
  import Spec = FileSpec

  const OPEN_READ: u32 := 0x01

  /** Only the file path and the descriptor fd differ from s0: the file holds the bytes c, and
      the descriptor is at position p. */
  ghost predicate Holding(s0: Spec.State, s: Spec.State, path: string, fd: nat, flags: u32, c: seq<byte>, p: nat) {
    && |s0.fds| == Spec.MAX_OPEN_FILES && Spec.FIRST_FD <= fd < Spec.MAX_OPEN_FILES && s0.fds[fd].Closed?
    && p <= |c| < Spec.MEMCPY_LIMIT
    && s == Spec.State(s0.disk[path := c], s0.fds[fd := Spec.Opened(path, p, flags)])
  }

  lemma HoldingIs(s0: Spec.State, s: Spec.State, path: string, fd: nat, flags: u32, c: seq<byte>, p: nat)
    requires Holding(s0, s, path, fd, flags, c, p)
    ensures Spec.FIRST_FD <= fd < Spec.MAX_OPEN_FILES && Spec.IsOpen(s, fd) && Spec.InFile(s, fd)
    ensures s.fds[fd] == Spec.Opened(path, p, flags) && p <= |c| < Spec.MEMCPY_LIMIT
  {
  }

  /** A freshly opened descriptor: the flags are OPEN_TRUNCATE, 0x08, and OPEN_APPEND, 0x10. */
  lemma Opens(s0: Spec.State, s: Spec.State, path: string, flags: u32, c: seq<byte>)
    requires |s0.fds| == Spec.MAX_OPEN_FILES && |c| < Spec.MEMCPY_LIMIT
    requires var fd, t := Spec.FreeFd(s0.fds, Spec.FIRST_FD), s0.(disk := s0.disk[path := c]);
             fd < Spec.MAX_OPEN_FILES && s == Spec.OpenOn(t, fd, path, flags)
    ensures var c' := if flags / 8 % 2 == 1 then [] else c;
            Holding(s0, s, path, Spec.FreeFd(s0.fds, Spec.FIRST_FD), flags, c',
                    if flags / 16 % 2 == 1 then |c'| else 0)
  {
    assert s0.disk[path := c][path := []] == s0.disk[path := []];
    assert s0.disk[path := c][path := c] == s0.disk[path := c];
  }

  lemma Closes(s0: Spec.State, s: Spec.State, path: string, fd: nat, flags: u32, c: seq<byte>, p: nat)
    requires Holding(s0, s, path, fd, flags, c, p)
    ensures Spec.CloseFd(s, fd) == s0.(disk := s0.disk[path := c])
  {
    assert s0.fds[fd := Spec.Closed] == s0.fds;
  }

  /** A successful write. */
  lemma Writes(s0: Spec.State, s: Spec.State, t: Spec.State, path: string, fd: nat, flags: u32, c: seq<byte>, p: nat,
               d: seq<byte>, to: Spec.Place)
    requires Holding(s0, s, path, fd, flags, c, p) && p + |d| < Spec.MEMCPY_LIMIT
    requires Spec.WroteSome(s, t, fd, d, to)
    ensures Holding(s0, t, path, fd, flags, Spec.Splice(c, p, d), p + |d|)
  {
    Spec.ShortWriteIsWriteTo(s, t, fd, d, to);
    var c' := Spec.Splice(c, p, d);
    hide Spec.WroteSome, Spec.Splice;
    assert s0.disk[path := c][path := c'] == s0.disk[path := c'];
  }

  /** A read from the current position. */
  lemma Reads(s0: Spec.State, s: Spec.State, path: string, fd: nat, flags: u32, c: seq<byte>, p: nat, count: nat)
    requires Holding(s0, s, path, fd, flags, c, p)
    ensures var p' := Min(p + count, |c|);
            && Spec.Taken(s, fd, count) == c[p..p'] && Holding(s0, Spec.ReadFrom(s, fd, count), path, fd, flags, c, p')
  {
  }

  /** Some buffer of at most 64 KB does not fit the heap. */
  ghost predicate OutOfMemory(blocks: seq<Block>) {
    exists n: u32 :: 0 < n <= 0x1_0000 && HeapFull(blocks, n)
  }

  lemma FullForSome(blocks: seq<Block>, size: nat)
    requires 0 < size < Spec.MEMCPY_LIMIT
    ensures GrowthFails(blocks, size) ==> OutOfMemory(blocks)
  {
    hide HeapFull;
    var n := Round256(size);
    assert 0 < n <= 0x1_0000;
  }

  method Buffer(d: seq<byte>) returns (buffer: array<byte>)
    ensures fresh(buffer) && buffer.Length == |d| && buffer[..|d|] == d
  {
    buffer := new byte[|d|](i requires 0 <= i < |d| => d[i]);
  }

  /** The descriptor is open for writing on a file that can grow. */
  ghost predicate Writable(fs: FileSystem, fd: nat, n: nat)
    requires fs.Valid()
    reads fs, fs.heap, fs.heap.arena
  {
    && Spec.FIRST_FD <= fd && Spec.IsOpen(fs.View(), fd)
    && var h := fs.View().fds[fd];
       Spec.Has(h.flags, Spec.OPEN_WRITE) && h.name in fs.HeapFiles() && 0 < n && h.position + n < Spec.MEMCPY_LIMIT
  }

  /** A write to such a descriptor. */
  method WriteBytes(fs: FileSystem, fd: nat, d: seq<byte>) returns (ok: bool, ghost to: Spec.Place)
    requires fs.Valid() && Writable(fs, fd, |d|)
    modifies fs, fs.heap, fs.heap.arena
    ensures fs.Valid() && fs.HeapFiles() == old(fs.HeapFiles())
    ensures ok ==> Spec.WroteSome(old(fs.View()), fs.View(), fd, d, to)
    ensures !ok ==> fs.View() == old(fs.View()) && OutOfMemory(fs.heap.blocks)
  {
    hide Table, Represents, Spec.WroteSome, OwnedNames, OutOfMemory, Handles, DescriptorsOk, Writable,
      FileSystem.View, FileSystem.HeapFiles;
    var buffer := Buffer(d);
    ok, to := WriteBuffer(fs, fd, buffer);
  }

  method WriteBuffer(fs: FileSystem, fd: nat, buffer: array<byte>) returns (ok: bool, ghost to: Spec.Place)
    requires fs.Valid() && Writable(fs, fd, buffer.Length) && buffer != fs.heap.arena
    modifies fs, fs.heap, fs.heap.arena
    ensures fs.Valid() && fs.HeapFiles() == old(fs.HeapFiles())
    ensures ok ==> Spec.WroteSome(old(fs.View()), fs.View(), fd, old(buffer[..buffer.Length]), to)
    ensures !ok ==> fs.View() == old(fs.View()) && OutOfMemory(fs.heap.blocks)
  {
    WritableIs(fs, fd, buffer);
    hide Table, Represents, Spec.WroteSome, OwnedNames, OutOfMemory, Handles, DescriptorsOk, Writable,
      FileSystem.View, FileSystem.HeapFiles,
      FileSystem.Valid, FileSystem.NeedsMore, FileSystem.Target, FileSystem.OutOfRoom, FileSystem.Judge,
      GrowthFails, Spec.Has;
    to := fs.Target(fd, buffer.Length);
    var code := fs.Write(fd, buffer, buffer.Length);
    ok := code >= 0;
  }

  lemma WritableIs(fs: FileSystem, fd: nat, buffer: array<byte>)
    requires fs.Valid() && Writable(fs, fd, buffer.Length)
    ensures DescriptorsOk(fs.fds, fs.files) && fd < |fs.fds| == Spec.MAX_OPEN_FILES && fs.fds[fd].inUse
    ensures fs.fds[fd].position + buffer.Length < Spec.MEMCPY_LIMIT
    ensures Spec.IsOpen(fs.View(), fd) && fs.View().fds[fd].name in fs.HeapFiles()
    ensures match fs.Judge(fd, buffer, buffer.Length)
            case NoMemory => OutOfMemory(fs.heap.blocks)
            case Written => true
            case _ => false
  {
    PositionIs(fs, fd);
    FullForSome(fs.heap.blocks, fs.fds[fd].position + buffer.Length);
    hide Table, Represents, OutOfMemory, GrowthFails;
  }

  /** Writes one piece. */
  method WriteChunk(fs: FileSystem, fd: nat, d: seq<byte>, ghost s0: Spec.State, ghost path: string, ghost flags: u32,
                    ghost c: seq<byte>, ghost p: nat)
      returns (ok: bool)
    requires fs.Valid() && path in fs.HeapFiles() && Spec.Has(flags, Spec.OPEN_WRITE)
    requires Holding(s0, fs.View(), path, fd, flags, c, p) && d != [] && p + |d| < Spec.MEMCPY_LIMIT
    modifies fs, fs.heap, fs.heap.arena
    ensures fs.Valid() && path in fs.HeapFiles()
    ensures ok ==> Holding(s0, fs.View(), path, fd, flags, Spec.Splice(c, p, d), p + |d|)
    ensures !ok ==> OutOfMemory(fs.heap.blocks)
  {
    ghost var s := fs.View();
    HoldingIs(s0, s, path, fd, flags, c, p);
    hide Holding, Table, Represents, Spec.WroteSome, OwnedNames, Spec.Has, OutOfMemory, Handles, DescriptorsOk,
      Spec.Splice;
    ghost var to;
    ok, to := WriteBytes(fs, fd, d);
    if ok { Writes(s0, s, fs.View(), path, fd, flags, c, p, d, to); }
  }

  /** A descriptor's position as the specification sees it. */
  lemma PositionIs(fs: FileSystem, fd: nat)
    requires fs.Valid() && Spec.IsOpen(fs.View(), fd)
    ensures fd < |fs.fds| && fs.fds[fd].inUse && fs.fds[fd].position == fs.View().fds[fd].position
  {
    hide Table, Represents;
  }

  /** Writes all pieces, unless there is no memory. */
  method WriteChunks(fs: FileSystem, fd: nat, chunks: seq<seq<byte>>, ghost s0: Spec.State, ghost path: string,
                     ghost flags: u32, ghost c: seq<byte>, ghost p: nat)
      returns (ok: bool)
    requires fs.Valid() && path in fs.HeapFiles() && Spec.Has(flags, Spec.OPEN_WRITE)
    requires Holding(s0, fs.View(), path, fd, flags, c, p) && p <= |c|
    requires p + |Spec.Concat(chunks)| < Spec.MEMCPY_LIMIT
    requires forall i | 0 <= i < |chunks| :: chunks[i] != []
    modifies fs, fs.heap, fs.heap.arena
    ensures fs.Valid() && path in fs.HeapFiles()
    ensures var d := Spec.Concat(chunks);
            ok ==> Holding(s0, fs.View(), path, fd, flags, Spec.Splice(c, p, d), p + |d|)
    ensures !ok ==> OutOfMemory(fs.heap.blocks)
  {
    hide Holding, Table, Represents, Spec.Has, OwnedNames, FileSystem.HeapFiles, Spec.Concat, OutOfMemory, Spec.Splice;
    ConcatNone(chunks);
    Spec.SpliceNone(c, p);
    var i := 0;
    while i < |chunks|
      invariant i <= |chunks| && fs.Valid() && path in fs.HeapFiles()
      invariant var d := Spec.Concat(chunks[..i]);
                Holding(s0, fs.View(), path, fd, flags, Spec.Splice(c, p, d), p + |d|)
    {
      ghost var d := Spec.Concat(chunks[..i]);
      ConcatMore(chunks, i);
      Spec.SpliceTwice(c, p, d, chunks[i]);
      ok := WriteChunk(fs, fd, chunks[i], s0, path, flags, Spec.Splice(c, p, d), p + |d|);
      if !ok { return; }
      i := i + 1;
    }
    assert chunks[..|chunks|] == chunks;
    return true;
  }

  lemma ConcatNone(chunks: seq<seq<byte>>)
    ensures Spec.Concat(chunks[..0]) == []
  {
  }

  lemma {:induction false} ConcatMore(chunks: seq<seq<byte>>, i: nat)
    requires i < |chunks|
    ensures Spec.Concat(chunks[..i]) + chunks[i] == Spec.Concat(chunks[..i + 1])
    ensures |Spec.Concat(chunks[..i + 1])| <= |Spec.Concat(chunks)|
    decreases i
  {
    assert chunks[..i + 1][1..] == chunks[1..][..i];
    if i == 0 {
      assert chunks[..0] == [] && chunks[..1] == [chunks[0]];
      assert Spec.Concat(chunks[..1]) == chunks[0] + [];
    } else {
      ConcatMore(chunks[1..], i - 1);
      assert chunks[..i][1..] == chunks[1..][..i - 1];
      Regroup(chunks[0], Spec.Concat(chunks[1..][..i - 1]), chunks[i]);
    }
  }

  /** Reads one piece. */
  method ReadChunk(fs: FileSystem, fd: nat, count: nat, ghost s0: Spec.State, ghost path: string, ghost flags: u32,
                   ghost c: seq<byte>, ghost p: nat) returns (d: seq<byte>)
    requires fs.Valid() && count < 0x8000_0000 && Holding(s0, fs.View(), path, fd, flags, c, p)
    modifies fs`fds
    ensures fs.Valid() && p + |d| == Min(p + count, |c|) && d == c[p..p + |d|]
    ensures Holding(s0, fs.View(), path, fd, flags, c, p + |d|)
  {
    hide Table, Represents, DescriptorsOk, Handles, Live, Spec.Taken, Spec.ReadFrom;
    ghost var s := fs.View();
    HoldingIs(s0, s, path, fd, flags, c, p);
    Reads(s0, s, path, fd, flags, c, p, count);
    hide Holding;
    var buffer := new byte[count](_ => 0);
    d := ReadBuffer(fs, fd, buffer);
  }

  method ReadBuffer(fs: FileSystem, fd: nat, buffer: array<byte>) returns (d: seq<byte>)
    requires fs.Valid() && Spec.InFile(fs.View(), fd) && buffer != fs.heap.arena && buffer.Length < 0x8000_0000
    requires |fs.View().disk[fs.View().fds[fd].name]| < Spec.MEMCPY_LIMIT
    modifies fs`fds, buffer
    ensures fs.Valid() && fs.View() == Spec.ReadFrom(old(fs.View()), fd, buffer.Length)
    ensures d == Spec.Taken(old(fs.View()), fd, buffer.Length)
  {
    PositionIs(fs, fd);
    ghost var taken := Spec.Taken(fs.View(), fd, buffer.Length);
    hide Table, Represents, DescriptorsOk, Handles, Spec.ReadFrom;
    var code := fs.Read(fd, buffer, buffer.Length);
    d := buffer[..code];
    assert d == taken;
  }

  /** Reads all pieces. */
  method ReadChunks(fs: FileSystem, fd: nat, counts: seq<nat>, ghost s0: Spec.State, ghost path: string,
                    ghost flags: u32, ghost c: seq<byte>)
      returns (data: seq<byte>)
    requires fs.Valid() && Holding(s0, fs.View(), path, fd, flags, c, 0)
    requires forall i | 0 <= i < |counts| :: counts[i] < 0x8000_0000
    modifies fs`fds
    ensures fs.Valid() && data == c[..Min(Spec.Sum(counts), |c|)]
    ensures Holding(s0, fs.View(), path, fd, flags, c, |data|)
  {
    hide Holding, Table, Represents, Spec.Sum;
    data := [];
    var i := 0;
    assert counts[0..] == counts;
    while i < |counts|
      invariant i <= |counts| && fs.Valid() && |data| <= |c| && data == c[..|data|]
      invariant Min(|data| + Spec.Sum(counts[i..]), |c|) == Min(Spec.Sum(counts), |c|)
      invariant Holding(s0, fs.View(), path, fd, flags, c, |data|)
    {
      SumStep(counts, i);
      ghost var p := |data|;
      var d := ReadChunk(fs, fd, counts[i], s0, path, flags, c, p);
      assert c[..p] + c[p..p + |d|] == c[..p + |d|];
      data := data + d;
      i := i + 1;
    }
    SumNone(counts[i..]);
  }

  lemma SumStep(counts: seq<nat>, i: nat)
    requires i < |counts|
    ensures Spec.Sum(counts[i..]) == counts[i] + Spec.Sum(counts[i + 1..])
  {
    assert counts[i..][1..] == counts[i + 1..];
  }

  lemma SumNone(counts: seq<nat>)
    requires counts == []
    ensures Spec.Sum(counts) == 0
  {
  }

  /** The file system has an entry, a descriptor and a first buffer for a new file. */
  ghost predicate RoomForFile(fs: FileSystem)
    requires fs.Valid()
    reads fs, fs.heap, fs.heap.arena
  {
    && !fs.NoUnusedEntry() && !HeapFull(fs.heap.blocks, FIRST_SIZE)
    && Spec.FreeFd(fs.View().fds, Spec.FIRST_FD) < Spec.MAX_OPEN_FILES
  }

  /** Writes a new file in pieces, closes it, opens it again, reads it in pieces and closes it.
      Unless there is no room, the bytes read are the bytes written, as many as were asked for,
      the file system has gained exactly that file, and every descriptor is as before. */
  method WriteThenRead(fs: FileSystem, path: string, chunks: seq<seq<byte>>, counts: seq<nat>)
      returns (ok: bool, data: seq<byte>)
    requires fs.Valid() && |path| < MAX_FILENAME && path !in fs.View().disk
    requires (forall i | 0 <= i < |chunks| :: chunks[i] != []) && |Spec.Concat(chunks)| < Spec.MEMCPY_LIMIT
    requires forall i | 0 <= i < |counts| :: counts[i] < 0x8000_0000
    modifies fs, fs.heap, fs.heap.arena
    ensures fs.Valid()
    ensures ok ==> fs.View() == old(fs.View()).(disk := old(fs.View()).disk[path := Spec.Concat(chunks)])
    ensures ok ==> data == Spec.Concat(chunks)[..Min(Spec.Sum(counts), |Spec.Concat(chunks)|)]
    ensures !ok ==> !old(RoomForFile(fs)) || OutOfMemory(fs.heap.blocks)
  {
    hide Holding, Table, Represents, HeapFull, DescriptorsOk, OutOfMemory, Spec.Concat, Spec.Sum, OwnedNames,
      RoomForFile, Spec.OpenOn;
    ghost var s0, c := fs.View(), Spec.Concat(chunks);
    ok, data := false, [];
    var fd := OpenNew(fs, path);
    if fd < 0 { return; }
    ok := WriteChunks(fs, fd, chunks, s0, path, OPEN_NEW, [], 0);
    if !ok { return; }
    Spec.SpliceAtEnd([], c);
    assert [] + c == c;
    fd := Reopen(fs, fd, path, s0, c);
    data := ReadChunks(fs, fd, counts, s0, path, OPEN_READ, c);
    Closes(s0, fs.View(), path, fd, OPEN_READ, c, |data|);
    HoldingIs(s0, fs.View(), path, fd, OPEN_READ, c, |data|);
    var code := fs.Close(fd);
  }

  /** Opens a file that is there, writes it in pieces and closes it. Unless there is no room, it
      holds what its flags say, and nothing else has changed. */
  method OpenAndWrite(fs: FileSystem, path: string, flags: u32, chunks: seq<seq<byte>>) returns (ok: bool)
    requires fs.Valid() && |path| < MAX_FILENAME && path in fs.View().disk && path in fs.HeapFiles()
    requires flags / 2 % 2 == 1 && forall i | 0 <= i < |chunks| :: chunks[i] != []
    requires |fs.View().disk[path]| + |Spec.Concat(chunks)| < Spec.MEMCPY_LIMIT
    modifies fs, fs.heap, fs.heap.arena
    ensures fs.Valid()
    ensures ok ==>
              && path in old(fs.View()).disk
              && var c := Spec.Rewritten(old(fs.View()).disk[path], flags, Spec.Concat(chunks));
              fs.View() == old(fs.View()).(disk := old(fs.View()).disk[path := c])
    ensures !ok ==>
              Spec.FreeFd(old(fs.View()).fds, Spec.FIRST_FD) == Spec.MAX_OPEN_FILES || OutOfMemory(fs.heap.blocks)
  {
    hide Holding, Table, Represents, HeapFull, DescriptorsOk, OutOfMemory, Spec.Concat, OwnedNames, Spec.OpenOn,
      Spec.Rewritten, Spec.Splice, Spec.FreeFd, Handles;
    ghost var s0 := fs.View();
    ghost var c, d := s0.disk[path], Spec.Concat(chunks);
    ghost var c' := if flags / 8 % 2 == 1 then [] else c;
    ghost var p := if flags / 16 % 2 == 1 then |c'| else 0;
    assert s0.(disk := s0.disk[path := c]) == s0;
    var fd := fs.Open(path, flags);
    if fd < 0 { return false; }
    Opens(s0, fs.View(), path, flags, c);
    ok := WriteChunks(fs, fd, chunks, s0, path, flags, c', p);
    if !ok { return; }
    Spec.OpenedAt(c, flags, d);
    Closes(s0, fs.View(), path, fd, flags, Spec.Splice(c', p, d), p + |d|);
    HoldingIs(s0, fs.View(), path, fd, flags, Spec.Splice(c', p, d), p + |d|);
    var code := fs.Close(fd);
  }

  /** A file that is opened without OPEN_WRITE, 0x02, cannot be written: the write is denied and
      changes nothing. */
  method WriteDenied(fs: FileSystem, path: string, flags: u32, buffer: array<byte>, count: u32)
      returns (fd: int, code: int)
    requires fs.Valid() && |path| < MAX_FILENAME && path in fs.View().disk && path in fs.HeapFiles()
    requires flags / 2 % 2 == 0 && 0 < count <= buffer.Length && buffer != fs.heap.arena
    requires |fs.View().disk[path]| + count < TWO32 && |fs.View().disk[path]| < Spec.MEMCPY_LIMIT
    modifies fs, fs.heap, fs.heap.arena
    ensures fs.Valid() && (fd < 0 ==> Spec.FreeFd(old(fs.View()).fds, Spec.FIRST_FD) == Spec.MAX_OPEN_FILES)
    ensures fd >= 0 ==>
              && code == -4 && path in old(fs.View()).disk
              && var c := if flags / 8 % 2 == 1 then [] else old(fs.View()).disk[path];
              fs.View().disk == old(fs.View()).disk[path := c]
  {
    hide Table, Represents, HeapFull, DescriptorsOk, OwnedNames, Spec.OpenOn, Spec.FreeFd, Handles, GrowthFails, Live,
      Spec.WroteSome, FileSystem.Target;
    ghost var s0 := fs.View();
    ghost var c := s0.disk[path];
    assert s0.(disk := s0.disk[path := c]) == s0;
    code := 0;
    fd := fs.Open(path, flags);
    if fd < 0 { return; }
    Opens(s0, fs.View(), path, flags, c);
    PositionIs(fs, fd);
    code := fs.Write(fd, buffer, count);
  }

  const OPEN_NEW: u32 := 0x06     // OPEN_CREATE and OPEN_WRITE

  /** Without OPEN_CREATE, 0x04, a file that is not there is not made. */
  method OpenMissing(fs: FileSystem, path: string, flags: u32) returns (code: int)
    requires fs.Valid() && |path| < MAX_FILENAME && path !in fs.View().disk && flags / 4 % 2 == 0
    modifies fs, fs.heap, fs.heap.arena
    ensures fs.Valid() && code == -5 && fs.View() == old(fs.View())
  {
    hide Table, Represents, HeapFull, DescriptorsOk, OwnedNames, Spec.OpenOn, Spec.FreeFd, Handles, Live;
    code := fs.Open(path, flags);
  }

  /** Creates and opens the file. */
  method OpenNew(fs: FileSystem, path: string) returns (fd: int)
    requires fs.Valid() && |path| < MAX_FILENAME && path !in fs.View().disk
    modifies fs, fs.heap, fs.heap.arena
    ensures fs.Valid() && (fd < 0 ==> !old(RoomForFile(fs)))
    ensures fd >= 0 ==> path in fs.HeapFiles() && Holding(old(fs.View()), fs.View(), path, fd, OPEN_NEW, [], 0)
    ensures fd >= 0 ==> fs.heap.blocks == Serve(old(fs.heap.blocks), FIRST_SIZE)
    ensures PayloadsKept(old(fs.heap.mem), fs.heap.mem, Blocks(fs.heap.blocks))
  {
    hide Table, Represents, HeapFull, DescriptorsOk, OwnedNames, Holding, Spec.FreeFd, Handles, PayloadsKept, Serve;
    ghost var s0 := fs.View();
    fd := fs.Open(path, OPEN_NEW);
    if fd >= 0 {
      Opens(s0, fs.View(), path, OPEN_NEW, []);
    }
  }

  /** Closes the file and opens it for reading. */
  method Reopen(fs: FileSystem, fd: nat, path: string, ghost s0: Spec.State, ghost c: seq<byte>) returns (fd': nat)
    requires fs.Valid() && |path| < MAX_FILENAME && Holding(s0, fs.View(), path, fd, OPEN_NEW, c, |c|)
    modifies fs, fs.heap, fs.heap.arena
    ensures fs.Valid() && Holding(s0, fs.View(), path, fd', OPEN_READ, c, 0)
  {
    Closes(s0, fs.View(), path, fd, OPEN_NEW, c, |c|);
    HoldingIs(s0, fs.View(), path, fd, OPEN_NEW, c, |c|);
    FreeFdExists(s0, fs.View(), path, fd, OPEN_NEW, c, |c|);
    hide Table, Represents, DescriptorsOk, OwnedNames, Holding, Spec.FreeFd, Handles;
    var code := fs.Close(fd);
    fd' := OpenOld(fs, path, s0, c);
  }

  /** Opens a file for reading. */
  method OpenOld(fs: FileSystem, path: string, ghost s0: Spec.State, ghost c: seq<byte>) returns (fd: nat)
    requires fs.Valid() && |path| < MAX_FILENAME && |c| < Spec.MEMCPY_LIMIT
    requires fs.View() == s0.(disk := s0.disk[path := c]) && |s0.fds| == Spec.MAX_OPEN_FILES
    requires Spec.FreeFd(s0.fds, Spec.FIRST_FD) < Spec.MAX_OPEN_FILES
    modifies fs, fs.heap, fs.heap.arena
    ensures fs.Valid() && Holding(s0, fs.View(), path, fd, OPEN_READ, c, 0)
  {
    hide Table, Represents, HeapFull, DescriptorsOk, OwnedNames, Holding, Spec.FreeFd, Handles, Spec.OpenOn;
    fd := fs.Open(path, OPEN_READ);
    Opens(s0, fs.View(), path, OPEN_READ, c);
  }

  /** The descriptor that was free before is free again. */
  lemma FreeFdExists(s0: Spec.State, s: Spec.State, path: string, fd: nat, flags: u32, c: seq<byte>, p: nat)
    requires Holding(s0, s, path, fd, flags, c, p)
    ensures |s0.fds| == Spec.MAX_OPEN_FILES && Spec.FreeFd(s0.fds, Spec.FIRST_FD) < Spec.MAX_OPEN_FILES
  {
  }

  // ----- a write that loses everything

  const CHUNK: u32 := 0x1_0000

  /** The heap at boot after the first buffer of 256 bytes, and the block for a 64 KB buffer. */
  lemma AfterFirstBuffer()
    ensures var bs := Serve(INITIAL_BLOCKS, FIRST_SIZE);
            && bs == [Block(0, 256, false), Block(268, ARENA - 280, true)] && Live(bs) == {Block(0, 256, false)}
            && !HeapFull(bs, CHUNK) && NewBlock(bs, CHUNK) == Block(268, CHUNK, false)
            && Round256(CHUNK) == CHUNK
  {
    var bs := Serve(INITIAL_BLOCKS, FIRST_SIZE);
    assert bs == [Block(0, 256, false), Block(268, ARENA - 280, true)];
    assert !Fits(bs[0], CHUNK) && bs[1..] == [Block(268, ARENA - 280, true)];
    assert FirstFit(bs[1..], CHUNK) == 0;
    assert FirstFit(bs, CHUNK) == 1;
  }

  /** What that block holds is what was there before the first buffer was handed out. */
  lemma FreshIsOld(m: seq<byte>, m': seq<byte>)
    requires |m| == |m'| == ARENA
    requires var bs := Serve(INITIAL_BLOCKS, FIRST_SIZE);
             PayloadsKept(m, m', Blocks(bs)) && Represents(m', bs)
    ensures FreshBytes(m', Serve(INITIAL_BLOCKS, FIRST_SIZE), CHUNK) == m[280..280 + CHUNK]
  {
    AfterFirstBuffer();
    hide Serve, HeapFull, NewBlock, Represents;
    FreshPart(m, m', Serve(INITIAL_BLOCKS, FIRST_SIZE));
  }

  lemma FreshPart(m: seq<byte>, m': seq<byte>, bs: seq<Block>)
    requires |m| == |m'| == ARENA && bs == [Block(0, 256, false), Block(268, ARENA - 280, true)]
    requires PayloadsKept(m, m', Blocks(bs)) && !HeapFull(bs, CHUNK) && NewBlock(bs, CHUNK) == Block(268, CHUNK, false)
    ensures FreshBytes(m', bs, CHUNK) == m[280..280 + CHUNK]
  {
    hide HeapFull, NewBlock;
    var rest := bs[1];
    assert rest in bs && rest in Blocks(bs);
    assert m'[280..ARENA] == Payload(m', rest) == Payload(m, rest) == m[280..ARENA];
    SliceOfSlice(m, 280, ARENA, 0, CHUNK);
    SliceOfSlice(m', 280, ARENA, 0, CHUNK);
    var p := m'[280..280 + CHUNK];
    assert p[..CHUNK] == p;
  }

  /** The only heap file has a buffer of 256 bytes. */
  lemma SmallBuffer(fs: FileSystem, fd: nat, path: string)
    requires fs.Valid() && fs.heap.blocks == Serve(INITIAL_BLOCKS, FIRST_SIZE) && path in fs.HeapFiles()
    requires Spec.IsOpen(fs.View(), fd) && fs.View().fds[fd].name == path
    ensures fs.fds[fd].position + CHUNK < TWO32 ==> fs.NeedsMore(fd, CHUNK)
  {
    PositionIs(fs, fd);
    AfterFirstBuffer();
    DescriptorFile(fs.fds, fs.files, fd);
    var i := fs.fds[fd].file;
    EntryFacts(fs.heap.mem, Live(fs.heap.blocks), fs.files, fs.owned, fs.slot, fs.disk, i);
    OwnedIsOnHeap(fs.heap.mem, Live(fs.heap.blocks), fs.files, fs.owned, fs.slot, fs.disk, i);
    hide Table, Represents, Serve, Handles, DescriptorsOk;
  }

  /** Writing 64 KB to a new file on a heap as it is at boot: the call reports that it has
      written everything, but the file holds the bytes that were in memory before, and so is
      right only if the data was there already. */
  method LoseChunk(fs: FileSystem, path: string, data: array<byte>) returns (code: int)
    requires fs.Valid() && |path| < MAX_FILENAME && path !in fs.View().disk
    requires RoomForFile(fs) && fs.heap.blocks == INITIAL_BLOCKS
    requires data.Length == CHUNK && data != fs.heap.arena
    modifies fs, fs.heap, fs.heap.arena
    ensures fs.Valid() && code == CHUNK && path in fs.View().disk
    ensures fs.View().disk[path] == old(fs.heap.mem)[280..280 + CHUNK]
    ensures fs.View().disk[path] == data[..] <==> old(fs.heap.mem)[280..280 + CHUNK] == old(data[..])
  {
    ghost var s0, m0 := fs.View(), fs.heap.mem;
    OnHeap(fs);
    hide Table, Represents, HeapFull, DescriptorsOk, OwnedNames, Spec.FreeFd, Handles, PayloadsKept, Serve, Holding,
      FreshBytes;
    var fd := OpenNew(fs, path);
    OnHeap(fs);
    FreshIsOld(m0, fs.heap.mem);
    code := WriteChunk64(fs, fd, path, data, s0);
  }

  lemma OnHeap(fs: FileSystem)
    requires fs.Valid()
    ensures Represents(fs.heap.mem, fs.heap.blocks) && |fs.heap.mem| == ARENA
  {
    hide Table, DescriptorsOk;
  }

  /** The write to the new file. */
  method WriteChunk64(fs: FileSystem, fd: nat, path: string, data: array<byte>, ghost s0: Spec.State)
        returns (code: int)
    requires fs.Valid() && path in fs.HeapFiles() && Holding(s0, fs.View(), path, fd, OPEN_NEW, [], 0)
    requires fs.heap.blocks == Serve(INITIAL_BLOCKS, FIRST_SIZE) && data.Length == CHUNK && data != fs.heap.arena
    modifies fs, fs.heap, fs.heap.arena
    ensures fs.Valid() && code == CHUNK && path in fs.View().disk
    ensures fs.View().disk[path] == old(FreshBytes(fs.heap.mem, fs.heap.blocks, CHUNK))
  {
    hide Table, Represents, HeapFull, DescriptorsOk, Handles, Serve, Holding, FreshBytes, OwnedNames, Live,
      HeapShares.OthersSafe, GrowthFails, Round256, FileSystem.Judge, FileSystem.Target, FileSystem.NeedsMore,
      FileSystem.OutOfRoom, Spec.WroteSome;
    WillBeWritten(fs, fd, path, data, s0);
    WillBeFresh(fs, fd);
    ghost var s, fresh1 := fs.View(), FreshBytes(fs.heap.mem, fs.heap.blocks, CHUNK);
    code := fs.Write(fd, data, CHUNK);
    FileIsFresh(s, fs.View(), path, fd, data[..CHUNK], fresh1);
  }

  lemma WillBeWritten(fs: FileSystem, fd: nat, path: string, data: array<byte>, s0: Spec.State)
    requires fs.Valid() && path in fs.HeapFiles() && Holding(s0, fs.View(), path, fd, OPEN_NEW, [], 0)
    requires fs.heap.blocks == Serve(INITIAL_BLOCKS, FIRST_SIZE) && data.Length == CHUNK
    ensures Spec.IsOpen(fs.View(), fd) && fd < |fs.fds| == Spec.MAX_OPEN_FILES && fs.fds[fd].inUse
    ensures fs.fds[fd].position == 0 && fs.View().fds[fd] == Spec.Opened(path, 0, OPEN_NEW)
    ensures path in fs.View().disk && fs.View().disk[path] == []
    ensures fs.NeedsMore(fd, CHUNK) && fs.Judge(fd, data, CHUNK).Written?
  {
    hide Table, Represents, DescriptorsOk, Handles, Serve, HeapFull, NewBlock, Round256;
    HoldingIs(s0, fs.View(), path, fd, OPEN_NEW, [], 0);
    HoldingNew(s0, fs.View(), path, fd);
    hide Holding;
    PositionIs(fs, fd);
    SmallBuffer(fs, fd, path);
    AfterFirstBuffer();
  }

  lemma WillBeFresh(fs: FileSystem, fd: nat)
    requires fs.Valid() && fs.heap.blocks == Serve(INITIAL_BLOCKS, FIRST_SIZE)
    requires fd < |fs.fds| && fs.fds[fd].inUse && fs.fds[fd].position == 0 && fs.NeedsMore(fd, CHUNK)
    ensures fs.Target(fd, CHUNK) == Spec.Fresh(FreshBytes(fs.heap.mem, fs.heap.blocks, CHUNK))
    ensures |FreshBytes(fs.heap.mem, fs.heap.blocks, CHUNK)| == CHUNK
  {
    hide Table, Represents, DescriptorsOk, Handles, Serve, FreshBytes, Round256;
    OnHeap(fs);
    ChunkFits(fs.heap.mem);
  }

  lemma ChunkFits(m: seq<byte>)
    requires Represents(m, Serve(INITIAL_BLOCKS, FIRST_SIZE))
    ensures |FreshBytes(m, Serve(INITIAL_BLOCKS, FIRST_SIZE), CHUNK)| == CHUNK && Round256(CHUNK) == CHUNK
  {
    AfterFirstBuffer();
    hide Represents, Serve, HeapFull, NewBlock, FreshBytes, Payload, Round256, Live;
    FreshBytesAre(m, Serve(INITIAL_BLOCKS, FIRST_SIZE), CHUNK);
  }

  lemma HoldingNew(s0: Spec.State, s: Spec.State, path: string, fd: nat)
    requires Holding(s0, s, path, fd, OPEN_NEW, [], 0)
    ensures path in s.disk && s.disk[path] == [] && Spec.Has(OPEN_NEW, Spec.OPEN_WRITE)
  {
  }

  lemma FileIsFresh(s: Spec.State, t: Spec.State, path: string, fd: nat, d: seq<byte>, b: seq<byte>)
    requires Spec.IsOpen(s, fd) && s.fds[fd] == Spec.Opened(path, 0, OPEN_NEW) && path in s.disk && s.disk[path] == []
    requires Spec.WroteSome(s, t, fd, d, Spec.Fresh(b)) && |d| == |b| == CHUNK
    ensures path in t.disk && t.disk[path] == b
  {
    Spec.ChunkIsLost(d, Spec.Fresh(b), t.disk[path]);
    hide Spec.Written;
  }
}

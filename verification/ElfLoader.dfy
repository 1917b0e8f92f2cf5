/** The ELF loader of the boot loader: reads an executable through the FAT driver and lays its
    loadable segments out in memory. */
module ElfLoader {
  import opened Bytes
  import opened FatVolume
  import FatFile
  import opened FatLookups
  import opened FatHandle
  import opened FatReader
  import opened ElfImage

  /** A file that is open, and the handles as they were before it was opened. */
  ghost predicate Holds(h: int, t0: HandleTable, t: HandleTable) {
    && t.vol == t0.vol && t.root == t0.root && t.rootLbas == t0.rootLbas
    && 0 <= h < |t.files| == |t.extents| == |t0.files| == |t0.extents|
    && !t0.files[h].inUse && t.files[h].inUse
    && forall i | 0 <= i < |t.files| && i != h ::
         && t.files[i].inUse == t0.files[i].inUse
         && (t0.files[i].inUse ==> t.files[i] == t0.files[i] && t.extents[i] == t0.extents[i])
  }

  /** Every handle that was open still is, as it was, and no other one is open. */
  ghost predicate SameHandles(t0: HandleTable, t: HandleTable) {
    && t.vol == t0.vol && t.root == t0.root && t.rootLbas == t0.rootLbas
    && |t.files| == |t.extents| == |t0.files| == |t0.extents|
    && forall i | 0 <= i < |t.files| ::
         && t.files[i].inUse == t0.files[i].inUse
         && (t0.files[i].inUse ==> t.files[i] == t0.files[i] && t.extents[i] == t0.extents[i])
  }

  /** One handle more is open than before. */
  ghost predicate Leaks(t0: HandleTable, t: HandleTable) {
    exists h :: Holds(h, t0, t)
  }

  lemma StillHolds(h: int, t0: HandleTable, t: HandleTable, t': HandleTable)
    requires Holds(h, t0, t) && OnlyMoved(h, t, t')
    ensures Holds(h, t0, t')
  {
  }

  // ----- memory

  /** memset */
  method Memset(mem: array<byte>, dst: nat, n: nat)
    requires dst + n <= mem.Length
    modifies mem
    ensures Landed(old(mem[..]), mem[..], dst, seq<byte>(n, _ => 0))
  {
    var i := 0;
    while i < n
      invariant i <= n
      invariant forall k | 0 <= k < mem.Length :: mem[k] == if dst <= k < dst + i then 0 else old(mem[k])
    {
      mem[dst + i] := 0;
      i := i + 1;
    }
  }

  /** memcpy, with its 16-bit length. */
  method Memcpy(mem: array<byte>, dst: nat, src: nat, num: u16)
    requires dst + num <= mem.Length && src + num <= mem.Length && (dst + num <= src || src + num <= dst)
    modifies mem
    ensures Landed(old(mem[..]), mem[..], dst, Slice(old(mem[..]), src, num))
  {
    var i := 0;
    while i < num
      invariant i <= num
      invariant forall k | 0 <= k < mem.Length ::
                  mem[k] == if dst <= k < dst + i then old(mem[src + (k - dst)]) else old(mem[k])
    {
      mem[dst + i] := mem[src + i];
      i := i + 1;
    }
  }

  /** Bytes arriving at an address. */
  method Store(mem: array<byte>, dst: nat, data: seq<byte>)
    requires dst + |data| <= mem.Length
    modifies mem
    ensures Landed(old(mem[..]), mem[..], dst, data)
  {
    forall i | 0 <= i < |data| {
      mem[dst + i] := data[i];
    }
  }

  lemma TakeShort(s: Stream, count: u32)
    requires s.position <= |s.data|
    ensures |Take(s, count)| <= count
  {
  }

  /** FAT_Read to an address. */
  method ReadTo(fat: Driver, h: int, count: u32, mem: array<byte>, dst: nat, ghost q: nat, ghost w: u32)
      returns (read: u32)
    requires fat.Valid() && fat.Ready(h) && fat.OnCourse(h, q, w) && Skip(fat.StreamAt(h), count).position <= q
    requires dst + |Take(fat.StreamAt(h), count)| <= mem.Length
    modifies mem, fat`root, fat`files, fat`cache, fat`cachePosition
    ensures fat.Valid() && fat.Ready(h) && fat.OnCourse(h, q, w) && OnlyMoved(h, old(fat.Handles()), fat.Handles())
    ensures var s := old(fat.StreamAt(h));
            && read == |Take(s, count)| && fat.StreamAt(h) == Skip(s, count)
            && Landed(old(mem[..]), mem[..], dst, Take(s, count))
  {
    hide OnlyMoved, Driver.Valid, Driver.Ready, Driver.StreamAt, Driver.OnCourse, Driver.Handles, Landed, Take, Skip;
    TakeShort(fat.StreamAt(h), count);
    var data := fat.ReadTowards(h, count, q, w);
    Store(mem, dst, data);
    read := |data|;
  }

  /** What one chunk does: m and m' are memory, s and s' the file, before and after. The next
      bytes of the file are in the load buffer and the header field at f, which counts what is
      left, is lower by their number. A short read leaves the field alone. */
  ghost predicate ChunkRead(m: seq<byte>, s: Stream, m': seq<byte>, s': Stream, f: nat, ok: bool, read: nat) {
    && |m'| == |m| && LOAD_BUFFER + LOAD_SIZE <= |m| && f + 4 <= LOAD_BUFFER && s.position <= |s.data|
    && Frame(m, m', f, 0, 0)
    && var left := Word(m, f);
       && ok == (s.position + Min(left, LOAD_SIZE) <= |s.data|)
       && (ok ==>
             && read == Min(left, LOAD_SIZE)
             && Word(m', f) == left - read
             && s' == s.(position := s.position + read)
             && m'[LOAD_BUFFER..LOAD_BUFFER + read] == s.data[s.position..s.position + read])
  }

  /** How much of what is left the next chunk takes. */
  function ChunkSize(left: u32): (n: u32)
    ensures n <= left && n <= LOAD_SIZE
  {
    Min(left, LOAD_SIZE)
  }

  lemma LongRead(m: seq<byte>, s: Stream, m1: seq<byte>, m2: seq<byte>, f: nat, chunk: seq<byte>)
    requires LOAD_BUFFER + LOAD_SIZE <= |m| && f + 4 <= LOAD_BUFFER && s.position <= |s.data|
    requires var n := ChunkSize(Word(m, f));
             && chunk == Take(s, n) && |chunk| == n
             && Landed(m, m1, LOAD_BUFFER, chunk) && Landed(m1, m2, f, ToLE(Word(m, f) - n, 4))
    ensures ChunkRead(m, s, m2, Skip(s, ChunkSize(Word(m, f))), f, true, |chunk|)
  {
    StepFrame(m, m1, m2, chunk, f, Word(m, f) - |chunk|);
    hide Word, ToLE, Landed, Frame;
  }

  lemma ShortRead(m: seq<byte>, s: Stream, m1: seq<byte>, s1: Stream, f: nat, chunk: seq<byte>)
    requires LOAD_BUFFER + LOAD_SIZE <= |m| && f + 4 <= LOAD_BUFFER && s.position <= |s.data|
    requires var n := ChunkSize(Word(m, f));
             chunk == Take(s, n) && |chunk| != n && Landed(m, m1, LOAD_BUFFER, chunk)
    ensures ChunkRead(m, s, m1, s1, f, false, |chunk|)
  {
    ReadFrame(m, m1, chunk, f);
    hide Word, Landed, Frame;
  }

  /** Reads the next chunk into the load buffer and subtracts it from a header field. */
  method ReadChunk(fat: Driver, h: int, mem: array<byte>, f: nat, ghost q: nat, ghost w: u32)
      returns (ok: bool, read: nat)
    requires fat.Valid() && fat.Ready(h) && fat.OnCourse(h, q, w)
    requires RESERVED_END <= mem.Length && f + 4 <= LOAD_BUFFER
    requires Skip(fat.StreamAt(h), ChunkSize(Word(mem[..], f))).position <= q
    modifies mem, fat`root, fat`files, fat`cache, fat`cachePosition
    ensures fat.Valid() && fat.Ready(h) && fat.OnCourse(h, q, w) && OnlyMoved(h, old(fat.Handles()), fat.Handles())
    ensures ChunkRead(old(mem[..]), old(fat.StreamAt(h)), mem[..], fat.StreamAt(h), f, ok, read)
  {
    ghost var m, s := mem[..], fat.StreamAt(h);
    hide OnlyMoved, Driver.Valid, Driver.Ready, Driver.StreamAt, Driver.OnCourse, Driver.Handles, Word, ToLE, Take,
      Skip, Landed,
      ChunkRead, ChunkSize;
    var left := Word(mem[..], f);
    var shouldRead := ChunkSize(left);
    TakeShort(s, shouldRead);
    read := ReadTo(fat, h, shouldRead, mem, LOAD_BUFFER, q, w);
    ghost var m1, chunk := mem[..], Take(s, shouldRead);
    if read != shouldRead {
      ShortRead(m, s, m1, fat.StreamAt(h), f, chunk);
      return false, read;
    }
    LowerField(mem, f, left, read, m, s, chunk);
    return true, read;
  }

  /** Subtracts what has been read from the header field. */
  method LowerField(mem: array<byte>, f: nat, left: u32, read: u32, ghost m: seq<byte>, ghost s: Stream,
                    ghost chunk: seq<byte>)
    requires LOAD_BUFFER + LOAD_SIZE <= mem.Length == |m| && f + 4 <= LOAD_BUFFER && s.position <= |s.data|
    requires left == Word(m, f) && chunk == Take(s, ChunkSize(left)) && |chunk| == read == ChunkSize(left)
    requires Landed(m, mem[..], LOAD_BUFFER, chunk)
    modifies mem
    ensures ChunkRead(m, s, mem[..], Skip(s, ChunkSize(left)), f, true, read)
  {
    hide Word, ToLE, Take, Skip, Landed, ChunkRead;
    ghost var m1 := mem[..];
    Store(mem, f, ToLE(left - read, 4));
    LongRead(m, s, m1, mem[..], f, chunk);
  }

  /** The loop that gets to the segment's offset by reading. */
  method Seek(fat: Driver, h: int, mem: array<byte>, p: nat, ghost q: nat, ghost w: u32) returns (ok: bool)
    requires fat.Valid() && fat.Ready(h) && fat.OnCourse(h, q, w)
    requires RESERVED_END <= mem.Length && p + PROGRAM_HEADER_SIZE <= LOAD_BUFFER
    requires var s := fat.StreamAt(h); Min(s.position + Word(mem[..], p + OFFSET_FIELD), |s.data|) <= q
    modifies mem, fat`root, fat`files, fat`cache, fat`cachePosition
    ensures fat.Valid() && fat.Ready(h) && fat.OnCourse(h, q, w) && OnlyMoved(h, old(fat.Handles()), fat.Handles())
    ensures Frame(old(mem[..]), mem[..], p + OFFSET_FIELD, 0, 0)
    ensures var s, offset := old(fat.StreamAt(h)), old(Word(mem[..], p + OFFSET_FIELD));
            && ok == (s.position + offset <= |s.data|)
            && (ok ==> fat.StreamAt(h) == s.(position := s.position + offset))
  {
    ghost var m0, t0, s := mem[..], fat.Handles(), fat.StreamAt(h);
    var f := p + OFFSET_FIELD;
    ghost var offset := Word(mem[..], f);
    fat.NothingMoved(h);
    hide OnlyMoved, Driver.Valid, Driver.Ready, Driver.StreamAt, Driver.OnCourse, Driver.Handles, Word, Free;
    while Word(mem[..], f) > 0
      invariant fat.Valid() && fat.Ready(h) && fat.OnCourse(h, q, w) && OnlyMoved(h, t0, fat.Handles())
      invariant Frame(m0, mem[..], f, 0, 0)
      invariant Word(mem[..], f) <= offset
      invariant fat.StreamAt(h) == s.(position := s.position + (offset - Word(mem[..], f)))
      decreases Word(mem[..], f)
    {
      ghost var m, t := mem[..], fat.Handles();
      var read;
      ok, read := ReadChunk(fat, h, mem, f, q, w);
      FrameTransitive(m0, m, mem[..], f, 0, 0);
      OnlyMovedTransitive(h, t0, t, fat.Handles());
      if !ok { return false; }
    }
    return true;
  }

  /** How far the loader reads to load a segment. */
  function SegmentEnd(data: seq<byte>, s: Segment): nat {
    Min(s.offset + s.fileSize, |data|)
  }

  /** The copying loop after done bytes: t is the file, f the header field with what is left. */
  ghost predicate Copying(m0: seq<byte>, m: seq<byte>, t: Stream, data: seq<byte>, s: Segment, f: nat, done: nat) {
    && LOAD_BUFFER + LOAD_SIZE <= |m| && HEADER_BUFFER <= f <= LOAD_BUFFER - 4
    && SegmentOk(s, |m|) && Chunked(done, s.fileSize)
    && s.offset + done <= |data| && t == Stream(data, s.offset + done)
    && Word(m, f) == s.fileSize - done
    && Partly(m, data, s, done) && Frame(m0, m, f, s.vaddr, s.vaddr + s.memSize)
  }

  lemma CopyStarts(m: seq<byte>, t: Stream, s: Segment, f: nat)
    requires LOAD_BUFFER + LOAD_SIZE <= |m| && HEADER_BUFFER <= f <= LOAD_BUFFER - 4
    requires SegmentOk(s, |m|) && Word(m, f) == s.fileSize && t.position == s.offset <= |t.data|
    requires Partly(m, t.data, s, 0)
    ensures Copying(m, m, t, t.data, s, f, 0)
  {
    hide Word;
  }

  lemma CopyEnds(m0: seq<byte>, m: seq<byte>, t: Stream, data: seq<byte>, s: Segment, f: nat, done: nat)
    requires Copying(m0, m, t, data, s, f, done) && Word(m, f) == 0
    ensures t.position == SegmentEnd(data, s) && Placed(m, data, s) && InFile(data, s)
            && Frame(m0, m, f, s.vaddr, s.vaddr + s.memSize)
  {
    hide Word, Whole;
  }

  lemma CopyFacts(m0: seq<byte>, m: seq<byte>, t: Stream, data: seq<byte>, s: Segment, f: nat, done: nat)
    requires Copying(m0, m, t, data, s, f, done)
    ensures f + 4 <= LOAD_BUFFER && RESERVED_END <= |m| && Word(m, f) == s.fileSize - done
    ensures t.position <= |t.data| && Skip(t, ChunkSize(Word(m, f))).position <= SegmentEnd(data, s)
  {
    hide Word, Partly;
  }

  /** Where one pass writes. */
  lemma PassFits(m0: seq<byte>, m: seq<byte>, t: Stream, data: seq<byte>, s: Segment, f: nat, done: nat,
                 m1: seq<byte>, t1: Stream, read: nat)
    requires Copying(m0, m, t, data, s, f, done) && ChunkRead(m, t, m1, t1, f, true, read)
    ensures var to, num := s.vaddr + done, CopyLength(read);
            && to + num <= |m| == |m1| && LOAD_BUFFER + num <= |m|
            && (to + num <= LOAD_BUFFER || LOAD_BUFFER + num <= to)
  {
    hide Word, Partly;
  }

  /** A short read means that the segment is not in the file. */
  lemma PassFails(m0: seq<byte>, m: seq<byte>, t: Stream, data: seq<byte>, s: Segment, f: nat, done: nat,
                  m1: seq<byte>, t1: Stream, read: nat)
    requires Copying(m0, m, t, data, s, f, done) && ChunkRead(m, t, m1, t1, f, false, read)
    ensures !InFile(data, s) && Frame(m0, m1, f, s.vaddr, s.vaddr + s.memSize)
  {
    hide Word, Partly, Frame, Chunked;
    FrameWidens(m, m1, f, s.vaddr, s.vaddr + s.memSize);
    FrameTransitive(m0, m, m1, f, s.vaddr, s.vaddr + s.memSize);
  }

  lemma PassMoves(m0: seq<byte>, m: seq<byte>, t: Stream, data: seq<byte>, s: Segment, f: nat, done: nat,
                  m1: seq<byte>, t1: Stream, read: nat, m2: seq<byte>)
    requires Copying(m0, m, t, data, s, f, done) && ChunkRead(m, t, m1, t1, f, true, read) && done < s.fileSize
    requires LOAD_BUFFER + CopyLength(read) <= |m1|
    requires Landed(m1, m2, s.vaddr + done, Slice(m1, LOAD_BUFFER, CopyLength(read)))
    ensures read > 0 && done + read <= s.fileSize
    ensures Copying(m0, m2, t1, data, s, f, done + read)
  {
    hide Word, Partly, Frame, Whole, Overlay, Slice;
    PassChunked(done, s.fileSize);
    hide Chunked;
    PartlyKept(m, m1, data, s, done, f);
    PassPartly(m1, data, s, done, read);
    PassFrame(m, m1, s, done, read, f);
    FrameTransitive(m0, m, m2, f, s.vaddr, s.vaddr + s.memSize);
  }

  /** The loop that copies the segment, from the bytes at the file's position. */
  method CopySegment(fat: Driver, h: int, mem: array<byte>, p: nat, ghost m0: seq<byte>, ghost data: seq<byte>,
                     ghost s: Segment, ghost w: u32)
      returns (ok: bool)
    requires fat.Valid() && fat.Ready(h) && fat.OnCourse(h, SegmentEnd(data, s), w)
             && p + PROGRAM_HEADER_SIZE <= mem.Length
    requires Copying(m0, mem[..], fat.StreamAt(h), data, s, p + FILE_SIZE_FIELD, 0) && Word(mem[..], p + 8) == s.vaddr
    modifies mem, fat`root, fat`files, fat`cache, fat`cachePosition
    ensures fat.Valid() && fat.Ready(h) && fat.OnCourse(h, SegmentEnd(data, s), w)
            && OnlyMoved(h, old(fat.Handles()), fat.Handles())
    ensures Frame(m0, mem[..], p + FILE_SIZE_FIELD, s.vaddr, s.vaddr + s.memSize)
    ensures ok == InFile(data, s) && (ok ==> Placed(mem[..], data, s) && fat.cachePosition == w)
  {
    hide OnlyMoved, Driver.Valid, Driver.Ready, Driver.StreamAt, Driver.OnCourse, Driver.Handles, Word, Frame,
      Copying, InFile, Placed;
    ghost var q := SegmentEnd(data, s);
    var f := p + FILE_SIZE_FIELD;
    var virtAddress := Word(mem[..], p + 8);
    ghost var done, t0 := 0, fat.Handles();
    fat.NothingMoved(h);
    while Word(mem[..], f) > 0
      invariant fat.Valid() && fat.Ready(h) && fat.OnCourse(h, q, w) && OnlyMoved(h, t0, fat.Handles())
      invariant Copying(m0, mem[..], fat.StreamAt(h), data, s, f, done)
      invariant done <= s.fileSize && virtAddress == s.vaddr + done
      decreases s.fileSize - done
    {
      CopyFacts(m0, mem[..], fat.StreamAt(h), data, s, f, done);
      ghost var t := fat.Handles();
      var read;
      ok, read := CopyChunk(fat, h, mem, f, virtAddress, m0, data, s, done, q, w);
      OnlyMovedTransitive(h, t0, t, fat.Handles());
      if !ok { return false; }
      virtAddress := virtAddress + read;
      done := done + read;
    }
    CopyEnds(m0, mem[..], fat.StreamAt(h), data, s, f, done);
    fat.Arrived(h, q, w);
    return true;
  }

  /** One pass of that loop. */
  method CopyChunk(fat: Driver, h: int, mem: array<byte>, f: nat, virtAddress: nat,
                   ghost m0: seq<byte>, ghost data: seq<byte>, ghost s: Segment, ghost done: nat,
                   ghost q: nat, ghost w: u32)
      returns (ok: bool, read: nat)
    requires fat.Valid() && fat.Ready(h) && fat.OnCourse(h, q, w)
    requires Copying(m0, mem[..], fat.StreamAt(h), data, s, f, done)
    requires q == SegmentEnd(data, s) && done < s.fileSize && virtAddress == s.vaddr + done
    modifies mem, fat`root, fat`files, fat`cache, fat`cachePosition
    ensures fat.Valid() && fat.Ready(h) && fat.OnCourse(h, q, w) && OnlyMoved(h, old(fat.Handles()), fat.Handles())
    ensures !ok ==> !InFile(data, s) && Frame(m0, mem[..], f, s.vaddr, s.vaddr + s.memSize)
    ensures ok ==>
              read > 0 && done + read <= s.fileSize && Copying(m0, mem[..], fat.StreamAt(h), data, s, f, done + read)
  {
    ghost var m, t := mem[..], fat.StreamAt(h);
    hide OnlyMoved, Driver.Valid, Driver.Ready, Driver.StreamAt, Driver.OnCourse, Driver.Handles, Word, Frame,
      Copying, Landed, InFile,
      ChunkRead, Slice, CopyLength, SegmentEnd, Skip, ChunkSize;
    CopyFacts(m0, m, t, data, s, f, done);
    ok, read := ReadChunk(fat, h, mem, f, q, w);
    ghost var m1, t1 := mem[..], fat.StreamAt(h);
    if !ok {
      PassFails(m0, m, t, data, s, f, done, m1, t1, read);
      return;
    }
    PlaceChunk(mem, f, virtAddress, read, m0, m, t, data, s, done, t1);
  }

  /** Copies the chunk that has been read to where it belongs. */
  method PlaceChunk(mem: array<byte>, f: nat, virtAddress: nat, read: nat, ghost m0: seq<byte>, ghost m: seq<byte>,
                    ghost t: Stream, ghost data: seq<byte>, ghost s: Segment, ghost done: nat, ghost t1: Stream)
    requires Copying(m0, m, t, data, s, f, done) && ChunkRead(m, t, mem[..], t1, f, true, read)
    requires done < s.fileSize && virtAddress == s.vaddr + done
    modifies mem
    ensures read > 0 && done + read <= s.fileSize && Copying(m0, mem[..], t1, data, s, f, done + read)
  {
    hide Word, Frame, Copying, Landed, ChunkRead, Slice, CopyLength;
    ghost var m1 := mem[..];
    PassFits(m0, m, t, data, s, f, done, m1, t1, read);
    Memcpy(mem, virtAddress, LOAD_BUFFER, CopyLength(read));
    PassMoves(m0, m, t, data, s, f, done, m1, t1, read, mem[..]);
  }

  // ----- one segment

  ghost predicate HeaderAt(m: seq<byte>, p: nat, s: Segment) {
    && LOAD_BUFFER + LOAD_SIZE <= |m| && HEADER_BUFFER <= p && p + PROGRAM_HEADER_SIZE <= LOAD_BUFFER
    && SegmentOk(s, |m|) && SegmentAt(m, p) == s
  }

  /** Memory when the loader is about to copy the segment: zeros where it goes. */
  ghost predicate Cleared(m0: seq<byte>, m: seq<byte>, p: nat, s: Segment) {
    && LOAD_BUFFER + LOAD_SIZE <= |m| && HEADER_BUFFER <= p && p + PROGRAM_HEADER_SIZE <= LOAD_BUFFER
    && SegmentOk(s, |m|) && Untouched(m0, m, p, s)
    && Word(m, p + 8) == s.vaddr && Word(m, p + FILE_SIZE_FIELD) == s.fileSize
    && forall a | s.vaddr <= a < s.vaddr + s.memSize :: m[a] == 0
  }

  lemma AfterMemset(m: seq<byte>, m1: seq<byte>, p: nat, s: Segment)
    requires HeaderAt(m, p, s) && Landed(m, m1, s.vaddr, seq<byte>(s.memSize, _ => 0))
    ensures Cleared(m, m1, p, s) && Word(m1, p + OFFSET_FIELD) == s.offset
  {
    assert m1[p + 4..p + 8] == m[p + 4..p + 8];
    assert m1[p + 8..p + 12] == m[p + 8..p + 12];
    assert m1[p + 16..p + 20] == m[p + 16..p + 20];
  }

  lemma AfterSeek(m: seq<byte>, m1: seq<byte>, m2: seq<byte>, p: nat, s: Segment)
    requires Cleared(m, m1, p, s) && Frame(m1, m2, p + OFFSET_FIELD, 0, 0)
    ensures Cleared(m, m2, p, s)
  {
    WordKept(m1, m2, p + OFFSET_FIELD, 0, 0, p + 8);
    WordKept(m1, m2, p + OFFSET_FIELD, 0, 0, p + FILE_SIZE_FIELD);
    hide Word;
  }

  lemma ReadyToCopy(m0: seq<byte>, m: seq<byte>, p: nat, s: Segment, t: Stream)
    requires Cleared(m0, m, p, s) && t.position == s.offset <= |t.data|
    ensures Copying(m, m, t, t.data, s, p + FILE_SIZE_FIELD, 0) && Word(m, p + 8) == s.vaddr
  {
    hide Word, Untouched;
    CopyStarts(m, t, s, p + FILE_SIZE_FIELD);
  }

  lemma AfterCopy(m0: seq<byte>, m: seq<byte>, m': seq<byte>, p: nat, s: Segment)
    requires Cleared(m0, m, p, s) && Frame(m, m', p + FILE_SIZE_FIELD, s.vaddr, s.vaddr + s.memSize)
    ensures Untouched(m0, m', p, s)
  {
    hide Word;
  }

  lemma OpenHolds(h: int, t0: HandleTable, t: HandleTable, t': HandleTable)
    requires SameHandles(t0, t) && t' == t.(files := t'.files, extents := t'.extents)
    requires 0 <= h < |t.files| == |t'.files| == |t'.extents| && !t.files[h].inUse && t'.files[h].inUse
    requires forall i | 0 <= i < |t.files| && i != h :: t'.files[i] == t.files[i] && t'.extents[i] == t.extents[i]
    ensures Holds(h, t0, t')
  {
  }

  lemma CloseHolds(h: int, t0: HandleTable, t: HandleTable)
    requires Holds(h, t0, t)
    ensures SameHandles(t0, t.(files := t.files[h := t.files[h].(inUse := false)]))
  {
  }

  /** Opened with the window at a, the file can be read up to position q, and then the window is
      at b. */
  ghost predicate Finds(v: Volume, x: Extent, q: nat, a: u32, b: u32)
    requires Formatted(v)
  {
    Seen(v, x, 0, LookupsTo(v, q), a) && b == WindowFrom(v, x, q, a)
  }

  function WindowFrom(v: Volume, x: Extent, q: nat, a: u32): u32
    requires v.perCluster > 0
  {
    WindowOver(v, x, 0, LookupsTo(v, q), a)
  }

  /** The loader before it opens the file, to get the bytes data. */
  ghost predicate CanOpen(fat: Driver, t0: HandleTable, e: DirEntry, chain: seq<u32>, x: Extent, data: seq<byte>)
    reads fat
  {
    && fat.Valid() && SameHandles(t0, fat.Handles()) && !AllInUse(t0.files)
    && EntryOk(fat.vol, e, chain) && EntryData(fat.vol, e, chain) == data && EntryExtent(fat.vol, e, chain) == x
    && FatFile.SectorLba(fat.vol, FirstCluster(e), 0) < |fat.vol.disk|
  }

  /** FAT_Open of the file that is being loaded. */
  method Open(fat: Driver, e: DirEntry, ghost chain: seq<u32>, ghost t0: HandleTable,
              ghost x: Extent, ghost data: seq<byte>, ghost q: nat, ghost w: u32) returns (h: int)
    requires CanOpen(fat, t0, e, chain, x, data) && Finds(fat.vol, x, q, fat.cachePosition, w)
    modifies fat`files, fat`extents
    ensures 0 <= h < MAX_FILE_HANDLES && fat.Valid() && fat.Ready(h) && fat.OnCourse(h, q, w)
            && fat.StreamAt(h) == Stream(data, 0)
    ensures Holds(h, t0, fat.Handles())
  {
    ghost var t := fat.Handles();
    hide EntryOk, EntryData, EntryExtent, FatFile.SectorLba, FileOk, StreamOf, CacheOk, Finds, Driver.OnCourse;
    h := fat.OpenEntry(e, chain);
    OpenHolds(h, t0, t, fat.Handles());
    CourseFromStart(fat, h, x, q, w);
  }

  lemma CourseFromStart(fat: Driver, h: int, x: Extent, q: nat, w: u32)
    requires fat.Valid() && 0 <= h < MAX_FILE_HANDLES && fat.Ready(h)
    requires fat.StreamAt(h).position == 0 && fat.extents[h] == x && Finds(fat.vol, x, q, fat.cachePosition, w)
    ensures fat.OnCourse(h, q, w)
  {
    assert LookupsTo(fat.vol, 0) == 0;
    hide FileOk, StreamOf, CacheOk, Seen, WindowOver, LookupsTo;
  }

  method Close(fat: Driver, h: int, e: DirEntry, ghost chain: seq<u32>, ghost t0: HandleTable,
               ghost x: Extent, ghost data: seq<byte>)
    requires fat.Valid() && 0 <= h < MAX_FILE_HANDLES && Holds(h, t0, fat.Handles())
    requires !AllInUse(t0.files) && EntryOk(t0.vol, e, chain) && EntryData(t0.vol, e, chain) == data
    requires EntryExtent(t0.vol, e, chain) == x
    requires FatFile.SectorLba(t0.vol, FirstCluster(e), 0) < |t0.vol.disk|
    modifies fat`files
    ensures CanOpen(fat, t0, e, chain, x, data)
  {
    CloseHolds(h, t0, fat.Handles());
    hide EntryOk, EntryData, FatFile.SectorLba, FileOk, StreamOf, CacheOk;
    fat.Close(h);
  }

  lemma SeekEnds(data: seq<byte>, s: Segment)
    ensures Min(s.offset, |data|) <= SegmentEnd(data, s)
    ensures InFile(data, s) ==> s.offset <= |data|
  {
  }

  /** The two loops that get a segment from the open file into the cleared memory. */
  method ReadSegment(fat: Driver, h: int, mem: array<byte>, p: nat, ghost m0: seq<byte>, ghost data: seq<byte>,
                     ghost s: Segment, ghost q: nat, ghost w: u32)
      returns (ok: bool)
    requires fat.Valid() && fat.Ready(h) && fat.OnCourse(h, q, w) && fat.StreamAt(h) == Stream(data, 0)
    requires Cleared(m0, mem[..], p, s) && Word(mem[..], p + OFFSET_FIELD) == s.offset && q == SegmentEnd(data, s)
    modifies mem, fat`root, fat`files, fat`cache, fat`cachePosition
    ensures fat.Valid() && OnlyMoved(h, old(fat.Handles()), fat.Handles())
    ensures Untouched(m0, mem[..], p, s)
    ensures ok == InFile(data, s) && (ok ==> Placed(mem[..], data, s) && fat.cachePosition == w)
  {
    assert HEADER_BUFFER <= p && p + PROGRAM_HEADER_SIZE <= LOAD_BUFFER;
    hide Cleared, Untouched, Word, Frame, Copying, Placed, Driver.Valid, Driver.Ready, Driver.StreamAt, Driver.OnCourse,
      Driver.Handles, OnlyMoved, SegmentEnd, InFile;
    SeekEnds(data, s);
    ghost var t, m1 := fat.Handles(), mem[..];
    ok := Seek(fat, h, mem, p, q, w);
    ghost var m2, t2 := mem[..], fat.Handles();
    AfterSeek(m0, m1, m2, p, s);
    if !ok {
      ClearedUntouched(m0, m2, p, s);
      return;
    }
    ReadyToCopy(m0, m2, p, s, fat.StreamAt(h));
    ok := CopySegment(fat, h, mem, p, m2, data, s, w);
    OnlyMovedTransitive(h, t, t2, fat.Handles());
    AfterCopy(m0, m2, mem[..], p, s);
  }

  lemma ClearedUntouched(m0: seq<byte>, m: seq<byte>, p: nat, s: Segment)
    requires Cleared(m0, m, p, s)
    ensures Untouched(m0, m, p, s)
  {
    hide Word;
  }

  /** The body of the loop over program headers, for a loadable segment. */
  method LoadSegment(fat: Driver, mem: array<byte>, p: nat, e: DirEntry, ghost chain: seq<u32>,
                     ghost t0: HandleTable, ghost x: Extent, ghost data: seq<byte>, ghost s: Segment,
                     ghost q: nat, ghost w: u32)
      returns (ok: bool)
    requires CanOpen(fat, t0, e, chain, x, data) && HeaderAt(mem[..], p, s)
    requires q == SegmentEnd(data, s) && Finds(fat.vol, x, q, fat.cachePosition, w)
    modifies mem, fat`root, fat`files, fat`extents, fat`cache, fat`cachePosition
    ensures Untouched(old(mem[..]), mem[..], p, s)
    ensures ok == InFile(data, s)
    ensures ok ==> CanOpen(fat, t0, e, chain, x, data) && Placed(mem[..], data, s) && fat.cachePosition == w
    ensures !ok ==> fat.Valid() && Leaks(t0, fat.Handles())
  {
    ghost var m0 := mem[..];
    assert SegmentOk(s, mem.Length) && SegmentAt(m0, p) == s && p + PROGRAM_HEADER_SIZE <= LOAD_BUFFER;
    hide CanOpen, HeaderAt, Cleared, Untouched, Word, Placed, Landed, Driver.Valid, Driver.Ready, Driver.StreamAt,
      Driver.OnCourse, Driver.Handles, Holds, SameHandles, Leaks, OnlyMoved, EntryOk, EntryData, AllInUse,
      FatFile.SectorLba, EntryExtent, Finds, SegmentEnd, InFile;
    var virtAddress := Word(mem[..], p + 8);
    Memset(mem, virtAddress, Word(mem[..], p + 20));
    AfterMemset(m0, mem[..], p, s);
    var h := Open(fat, e, chain, t0, x, data, q, w);
    ghost var t := fat.Handles();
    ok := ReadSegment(fat, h, mem, p, m0, data, s, q, w);
    StillHolds(h, t0, t, fat.Handles());
    if !ok {
      ItLeaks(h, t0, fat.Handles());
      return;
    }
    Close(fat, h, e, chain, t0, x, data);
  }

  lemma ItLeaks(h: int, t0: HandleTable, t: HandleTable)
    requires Holds(h, t0, t)
    ensures Leaks(t0, t)
  {
  }

  // ----- the lookups of a load

  /** How far the loader reads to get the headers. */
  function HeadersEnd(data: seq<byte>): nat {
    if |data| < ELF_HEADER_SIZE then |data| else Min(ELF_HEADER_SIZE + Skipped(data) + TableSize(data), |data|)
  }

  /** The file is opened and read anew for every loadable segment from the i-th on, until one is
      not in the file; each time its chain is found. */
  ghost predicate SegmentsSeen(v: Volume, x: Extent, data: seq<byte>, segments: seq<Segment>, i: nat, window: u32)
    requires Formatted(v)
    decreases |segments| - i
  {
    i < |segments| ==>
      if segments[i].kind == PT_LOAD then
        var q := SegmentEnd(data, segments[i]);
        && Finds(v, x, q, window, WindowFrom(v, x, q, window))
        && (InFile(data, segments[i]) ==> SegmentsSeen(v, x, data, segments, i + 1, WindowFrom(v, x, q, window)))
      else
        SegmentsSeen(v, x, data, segments, i + 1, window)
  }

  lemma FirstSegmentSeen(v: Volume, x: Extent, data: seq<byte>, segments: seq<Segment>, i: nat, window: u32)
    requires Formatted(v) && SegmentsSeen(v, x, data, segments, i, window) && i < |segments|
    ensures if segments[i].kind == PT_LOAD then
              var q := SegmentEnd(data, segments[i]);
              && Finds(v, x, q, window, WindowFrom(v, x, q, window))
              && (InFile(data, segments[i]) ==> SegmentsSeen(v, x, data, segments, i + 1, WindowFrom(v, x, q, window)))
            else
              SegmentsSeen(v, x, data, segments, i + 1, window)
  {
    hide Finds, WindowFrom, InFile, SegmentEnd;
  }

  /** All lookups that a load makes find the file's chain. */
  ghost predicate LoadSeen(v: Volume, x: Extent, data: seq<byte>, window: u32)
    requires Formatted(v)
  {
    var q := HeadersEnd(data);
    && Finds(v, x, q, window, WindowFrom(v, x, q, window))
    && (HasTable(data) && (EntryCount(data) > 0 ==> EntrySize(data) >= PROGRAM_HEADER_SIZE) ==>
          SegmentsSeen(v, x, data, Segments(data), 0, WindowFrom(v, x, q, window)))
  }

  /** They do for every file whose chain is on the table and whose lookups cannot straddle. */
  lemma SteadyLoad(v: Volume, x: Extent, data: seq<byte>, window: u32)
    requires Formatted(v) && OnTable(v, x) && Steady(v, x)
    ensures LoadSeen(v, x, data, window)
  {
    hide OnTable, Steady, HeadersEnd, TableSize, Skipped, EntrySize, EntryCount, Segments, WindowFrom, SegmentsSeen;
    SteadyIsSeen(v, x, 0, LookupsTo(v, HeadersEnd(data)), window);
    if HasTable(data) && (EntryCount(data) > 0 ==> EntrySize(data) >= PROGRAM_HEADER_SIZE) {
      SteadySegments(v, x, data, Segments(data), 0, WindowFrom(v, x, HeadersEnd(data), window));
    }
  }

  lemma {:induction false} SteadySegments(v: Volume, x: Extent, data: seq<byte>, segments: seq<Segment>, i: nat,
        window: u32)
    requires Formatted(v) && OnTable(v, x) && Steady(v, x)
    ensures SegmentsSeen(v, x, data, segments, i, window)
    decreases |segments| - i
  {
    hide OnTable, Steady, InFile, SegmentEnd, WindowFrom;
    if i < |segments| {
      if segments[i].kind == PT_LOAD {
        var q := SegmentEnd(data, segments[i]);
        SteadyIsSeen(v, x, 0, LookupsTo(v, q), window);
        SteadySegments(v, x, data, segments, i + 1, WindowFrom(v, x, q, window));
      } else {
        SteadySegments(v, x, data, segments, i + 1, window);
      }
    }
  }

  // ----- the headers

  /** Only the header buffer changed. */
  ghost predicate OnlyHeaders(m: seq<byte>, m': seq<byte>) {
    |m'| == |m| && forall a | 0 <= a < |m| && !(HEADER_BUFFER <= a < LOAD_BUFFER) :: m'[a] == m[a]
  }

  lemma LandedInHeaders(m0: seq<byte>, m: seq<byte>, m': seq<byte>, d: seq<byte>)
    requires OnlyHeaders(m0, m) && Landed(m, m', HEADER_BUFFER, d) && |d| <= LOAD_SIZE
    ensures OnlyHeaders(m0, m') && Buffers(m0, m', d)
  {
    assert m'[HEADER_BUFFER..HEADER_BUFFER + |d|] == d;
  }

  /** m has the bytes d in the header buffer, and is m0 elsewhere. */
  ghost predicate Buffers(m0: seq<byte>, m: seq<byte>, d: seq<byte>) {
    OnlyHeaders(m0, m) && HEADER_BUFFER + |d| <= |m| && m[HEADER_BUFFER..HEADER_BUFFER + |d|] == d
  }

  /** Fields of the ELF header, read from the buffer. */
  lemma HeaderFields(m0: seq<byte>, m: seq<byte>, data: seq<byte>)
    requires |data| >= ELF_HEADER_SIZE && Buffers(m0, m, data[..ELF_HEADER_SIZE])
    ensures HEADER_BUFFER + ELF_HEADER_SIZE <= |m|
    ensures Word(m, HEADER_BUFFER + 24) == Word(data, 24)
    ensures Word(m, HEADER_BUFFER + 28) == TableOffset(data)
    ensures Half(m, HEADER_BUFFER + 42) == EntrySize(data)
    ensures Half(m, HEADER_BUFFER + 44) == EntryCount(data)
  {
    HeaderSlice(m, data, 24, 28);
    HeaderSlice(m, data, 28, 32);
    HeaderSlice(m, data, 42, 44);
    HeaderSlice(m, data, 44, 46);
  }

  lemma HeaderSlice(m: seq<byte>, data: seq<byte>, a: nat, b: nat)
    requires a <= b <= ELF_HEADER_SIZE <= |data| && HEADER_BUFFER + ELF_HEADER_SIZE <= |m|
    requires m[HEADER_BUFFER..HEADER_BUFFER + ELF_HEADER_SIZE] == data[..ELF_HEADER_SIZE]
    ensures m[HEADER_BUFFER + a..HEADER_BUFFER + b] == data[a..b]
  {
    SliceOfSlice(m, HEADER_BUFFER, HEADER_BUFFER + ELF_HEADER_SIZE, a, b);
    SliceOfSlice(data, 0, ELF_HEADER_SIZE, a, b);
    assert data[0..ELF_HEADER_SIZE] == data[..ELF_HEADER_SIZE];
  }

  lemma HeaderRead(data: seq<byte>)
    ensures var d := Take(Stream(data, 0), ELF_HEADER_SIZE);
            && Skip(Stream(data, 0), ELF_HEADER_SIZE).position <= HeadersEnd(data)
            && |d| <= ELF_HEADER_SIZE && (|d| == ELF_HEADER_SIZE <==> |data| >= ELF_HEADER_SIZE)
            && (|data| >= ELF_HEADER_SIZE ==>
                  d == data[..ELF_HEADER_SIZE]
                  && Skip(Stream(data, 0), ELF_HEADER_SIZE) == Stream(data, ELF_HEADER_SIZE))
  {
  }

  lemma SkipRead(data: seq<byte>)
    requires ELF_HEADER_SIZE <= |data|
    ensures ELF_HEADER_SIZE + Skipped(data) <= |data| && ELF_HEADER_SIZE + Skipped(data) <= HeadersEnd(data)
    ensures var s, n := Stream(data, ELF_HEADER_SIZE), Distance(TableOffset(data));
            |Take(s, n)| == Skipped(data) && Skip(s, n) == Stream(data, ELF_HEADER_SIZE + Skipped(data))
  {
    hide TableOffset;
  }

  lemma TableRead(data: seq<byte>)
    requires ELF_HEADER_SIZE <= |data| && ELF_HEADER_SIZE + Skipped(data) <= |data|
    ensures var s, n := Stream(data, ELF_HEADER_SIZE + Skipped(data)), TableSize(data);
            Skip(s, n).position == HeadersEnd(data) && |Take(s, n)| <= n && (|Take(s, n)| == n <==> HasTable(data))
  {
    hide TableSize, Skipped;
  }

  /** FAT_Read to the header buffer. */
  method ReadHeaders(fat: Driver, h: int, count: u32, mem: array<byte>, ghost m0: seq<byte>,
                     ghost s: Stream, ghost q: nat, ghost w: u32) returns (read: u32)
    requires fat.Valid() && fat.Ready(h) && fat.OnCourse(h, q, w) && fat.StreamAt(h) == s
    requires RESERVED_END <= mem.Length && OnlyHeaders(m0, mem[..]) && s.position <= |s.data|
    requires |Take(s, count)| <= LOAD_SIZE && Skip(s, count).position <= q
    modifies mem, fat`root, fat`files, fat`cache, fat`cachePosition
    ensures fat.Valid() && fat.Ready(h) && fat.OnCourse(h, q, w) && OnlyMoved(h, old(fat.Handles()), fat.Handles())
    ensures read == |Take(s, count)| && fat.StreamAt(h) == Skip(s, count)
    ensures OnlyHeaders(m0, mem[..]) && Buffers(m0, mem[..], Take(s, count))
  {
    hide OnlyMoved, Driver.Valid, Driver.Ready, Driver.StreamAt, Driver.OnCourse, Driver.Handles, Take, Skip, Landed,
      OnlyHeaders,
      Buffers;
    ghost var m := mem[..];
    read := ReadTo(fat, h, count, mem, HEADER_BUFFER, q, w);
    LandedInHeaders(m0, m, mem[..], Take(s, count));
  }

  /** The ELF header: ok says whether the file has one. */
  method LoadHeader(fat: Driver, h: int, mem: array<byte>, ghost data: seq<byte>, ghost w: u32)
      returns (ok: bool, entryPoint: u32, offset: u32, entrySize: u16, entryCount: u16)
    requires fat.Valid() && fat.Ready(h) && fat.OnCourse(h, HeadersEnd(data), w) && fat.StreamAt(h) == Stream(data, 0)
             && RESERVED_END <= mem.Length
    modifies mem, fat`root, fat`files, fat`cache, fat`cachePosition
    ensures fat.Valid() && fat.Ready(h) && fat.OnCourse(h, HeadersEnd(data), w)
            && OnlyMoved(h, old(fat.Handles()), fat.Handles())
    ensures OnlyHeaders(old(mem[..]), mem[..]) && ok == (|data| >= ELF_HEADER_SIZE)
    ensures ok ==>
              && fat.StreamAt(h) == Stream(data, ELF_HEADER_SIZE) && entryPoint == Word(data, 24)
              && offset == TableOffset(data) && entrySize == EntrySize(data) && entryCount == EntryCount(data)
  {
    ghost var m0 := mem[..];
    HeaderRead(data);
    assert OnlyHeaders(m0, m0);
    hide OnlyMoved, Driver.Valid, Driver.Ready, Driver.StreamAt, Driver.OnCourse, Driver.Handles, Word, Half, Take,
      Skip,
      Buffers, OnlyHeaders, TableOffset, EntrySize, EntryCount;
    entryPoint, offset, entrySize, entryCount := 0, 0, 0, 0;
    var read := ReadHeaders(fat, h, ELF_HEADER_SIZE, mem, m0, Stream(data, 0), HeadersEnd(data), w);
    ok := read == ELF_HEADER_SIZE;
    if ok {
      HeaderFields(m0, mem[..], data);
      entryPoint, offset := Word(mem[..], HEADER_BUFFER + 24), Word(mem[..], HEADER_BUFFER + 28);
      entrySize, entryCount := Half(mem[..], HEADER_BUFFER + 42), Half(mem[..], HEADER_BUFFER + 44);
    }
  }

  /** Skips to the program header table and reads it: ok says whether all of it is there. */
  method LoadTable(fat: Driver, h: int, mem: array<byte>, offset: u32, size: u32,
                   ghost data: seq<byte>, ghost w: u32) returns (ok: bool)
    requires fat.Valid() && fat.Ready(h) && fat.OnCourse(h, HeadersEnd(data), w) && ELF_HEADER_SIZE <= |data|
    requires fat.StreamAt(h) == Stream(data, ELF_HEADER_SIZE)
    requires RESERVED_END <= mem.Length && Skipped(data) <= LOAD_SIZE
    requires offset == TableOffset(data) && size == TableSize(data) <= LOAD_SIZE
    modifies mem, fat`root, fat`files, fat`cache, fat`cachePosition
    ensures fat.Valid() && fat.Ready(h) && fat.OnCourse(h, HeadersEnd(data), w)
            && OnlyMoved(h, old(fat.Handles()), fat.Handles())
    ensures OnlyHeaders(old(mem[..]), mem[..]) && ok == HasTable(data)
    ensures ok ==> TableInBuffer(mem[..], data) && fat.cachePosition == w
  {
    ghost var m0, t0 := mem[..], fat.Handles();
    ghost var s1 := Stream(data, ELF_HEADER_SIZE);
    ghost var s2 := Stream(data, ELF_HEADER_SIZE + Skipped(data));
    assert OnlyHeaders(m0, m0);
    SkipRead(data);
    TableRead(data);
    hide OnlyMoved, Driver.Valid, Driver.Ready, Driver.StreamAt, Driver.OnCourse, Driver.Handles, Take, Skip, Skipped,
      Buffers, OnlyHeaders, HasTable, TableOffset, TableSize, TableInBuffer, Distance, HeadersEnd;
    var skipped := ReadHeaders(fat, h, Distance(offset), mem, m0, s1, HeadersEnd(data), w);
    ghost var t1 := fat.Handles();
    var read := ReadHeaders(fat, h, size, mem, m0, s2, HeadersEnd(data), w);
    OnlyMovedTransitive(h, t0, t1, fat.Handles());
    ok := read == size;
    fat.Arrived(h, HeadersEnd(data), w);
    if ok { BuffersTable(m0, mem[..], data); }
  }

  lemma BuffersTable(m0: seq<byte>, m: seq<byte>, data: seq<byte>)
    requires HasTable(data) && TableSize(data) <= LOAD_SIZE
    requires Buffers(m0, m, Take(Stream(data, ELF_HEADER_SIZE + Skipped(data)), TableSize(data)))
    ensures TableInBuffer(m, data)
  {
    hide TableSize, Skipped, OnlyHeaders;
  }

  ghost predicate TableInBuffer(m: seq<byte>, data: seq<byte>)
    requires HasTable(data)
  {
    var o, n := ELF_HEADER_SIZE + Skipped(data), TableSize(data);
    n <= LOAD_SIZE && HEADER_BUFFER + n <= |m| && m[HEADER_BUFFER..HEADER_BUFFER + n] == data[o..o + n]
  }

  lemma NoTable(data: seq<byte>)
    ensures |data| < ELF_HEADER_SIZE ==> !HasTable(data)
  {
  }

  /** The buffer holds the program headers of the file. */
  lemma HeadersInBuffer(m: seq<byte>, data: seq<byte>)
    requires RESERVED_END <= |m| && HasTable(data) && TableInBuffer(m, data)
    requires EntryCount(data) > 0 ==> EntrySize(data) >= PROGRAM_HEADER_SIZE
    ensures HeadersFrom(m, Segments(data), EntrySize(data), 0)
  {
    forall j | 0 <= j < EntryCount(data)
      ensures EntryAddress(j, EntrySize(data)) + PROGRAM_HEADER_SIZE <= LOAD_BUFFER
      ensures SegmentAt(m, EntryAddress(j, EntrySize(data))) == Segments(data)[j]
    {
      HeaderInBuffer(m, data, j);
    }
    hide SegmentAt, EntrySize, EntryCount, EntryAddress, HasTable, TableInBuffer, Segments;
  }

  lemma HeaderInBuffer(m: seq<byte>, data: seq<byte>, j: nat)
    requires RESERVED_END <= |m| && HasTable(data) && TableInBuffer(m, data)
    requires j < EntryCount(data) && EntrySize(data) >= PROGRAM_HEADER_SIZE
    ensures var p := EntryAddress(j, EntrySize(data));
            p + PROGRAM_HEADER_SIZE <= LOAD_BUFFER && SegmentAt(m, p) == Segments(data)[j]
  {
    hide SegmentAt, Skipped, EntrySize, EntryCount, EntryOffset;
    EntryFits(j, EntryCount(data), EntrySize(data));
    SameSegment(m, HEADER_BUFFER, data, ELF_HEADER_SIZE + Skipped(data), TableSize(data),
        EntryOffset(j, EntrySize(data)));
  }

  lemma LoadingStarts(m0: seq<byte>, m: seq<byte>, data: seq<byte>)
    requires Loadable(data, |m|) && HasTable(data) && TableInBuffer(m, data) && OnlyHeaders(m0, m)
    ensures Loading(m0, m, data, Segments(data), EntrySize(data), 0)
  {
    assert RESERVED_END <= |m| && (EntryCount(data) > 0 ==> EntrySize(data) >= PROGRAM_HEADER_SIZE)
           && SegmentsOk(Segments(data), |m|);
    hide Loadable, Skipped, SegmentsOk, SegmentAt, HasTable, TableInBuffer, HeadersFrom, EntrySize, EntryCount,
      Segments;
    HeadersInBuffer(m, data);
  }

  lemma SameSegment(m: seq<byte>, a: nat, data: seq<byte>, o: nat, n: nat, k: nat)
    requires a + n <= |m| && o + n <= |data| && m[a..a + n] == data[o..o + n] && k + PROGRAM_HEADER_SIZE <= n
    ensures SegmentAt(m, a + k) == SegmentAt(data, o + k)
  {
    FieldAt(m, a, data, o, n, k);
    FieldAt(m, a, data, o, n, k + 4);
    FieldAt(m, a, data, o, n, k + 8);
    FieldAt(m, a, data, o, n, k + 16);
    FieldAt(m, a, data, o, n, k + 20);
    hide Word;
  }

  lemma FieldAt(m: seq<byte>, a: nat, data: seq<byte>, o: nat, n: nat, k: nat)
    requires a + n <= |m| && o + n <= |data| && m[a..a + n] == data[o..o + n] && k + 4 <= n
    ensures Word(m, a + k) == Word(data, o + k)
  {
    SliceOfSlice(m, a, a + n, k, k + 4);
    SliceOfSlice(data, o, o + n, k, k + 4);
  }

  // ----- the loader

  /** The header phase: the file is opened, its program headers are read, and it is closed. */
  method ReadTable(fat: Driver, mem: array<byte>, e: DirEntry, ghost chain: seq<u32>, ghost t0: HandleTable,
                   ghost x: Extent, ghost data: seq<byte>, ghost w: u32)
      returns (ok: bool, entryPoint: u32, entrySize: u16, entryCount: u16)
    requires CanOpen(fat, t0, e, chain, x, data) && Loadable(data, mem.Length)
    requires Finds(fat.vol, x, HeadersEnd(data), fat.cachePosition, w)
    modifies mem, fat`root, fat`files, fat`extents, fat`cache, fat`cachePosition
    ensures OnlyHeaders(old(mem[..]), mem[..]) && ok == HasTable(data)
    ensures |data| >= ELF_HEADER_SIZE ==> entryPoint == Word(data, 24)
    ensures ok ==> entrySize == EntrySize(data) && entryCount == EntryCount(data) && TableInBuffer(mem[..], data)
    ensures if ok then CanOpen(fat, t0, e, chain, x, data) && fat.cachePosition == w
            else fat.Valid() && Leaks(t0, fat.Handles())
  {
    ghost var m0 := mem[..];
    LoadableFacts(data, mem.Length);
    NoTable(data);
    EntryStays(fat, t0, e, chain, x, data);
    hide CanOpen, Loadable, OnlyHeaders, Word, Skipped, Driver.Valid, Driver.Ready, Driver.StreamAt, Driver.OnCourse,
      Driver.Handles,
      Holds,
      SameHandles, Leaks, OnlyMoved, EntryOk, EntryData, AllInUse, FatFile.SectorLba, HasTable, TableInBuffer,
      TableOffset, EntrySize, EntryCount, EntryExtent, Finds, HeadersEnd;
    var h := Open(fat, e, chain, t0, x, data, HeadersEnd(data), w);
    ghost var t := fat.Handles();
    var offset;
    ok, entryPoint, offset, entrySize, entryCount := LoadHeader(fat, h, mem, data, w);
    StillHolds(h, t0, t, fat.Handles());
    if ok {
      ghost var m1, t1 := mem[..], fat.Handles();
      ok := LoadTable(fat, h, mem, offset, entrySize * entryCount, data, w);
      StillHolds(h, t0, t1, fat.Handles());
      OnlyHeadersTransitive(m0, m1, mem[..]);
    }
    if ok {
      Close(fat, h, e, chain, t0, x, data);
    } else {
      ItLeaks(h, t0, fat.Handles());
    }
  }

  lemma LoadableFacts(data: seq<byte>, memory: nat)
    requires Loadable(data, memory)
    ensures RESERVED_END <= memory
    ensures |data| >= ELF_HEADER_SIZE ==> Skipped(data) <= LOAD_SIZE && TableSize(data) <= LOAD_SIZE < TWO32
  {
    hide Skipped, TableSize, HasTable, SegmentsOk, Segments;
  }

  lemma EntryStays(fat: Driver, t0: HandleTable, e: DirEntry, chain: seq<u32>, x: Extent, data: seq<byte>)
    requires CanOpen(fat, t0, e, chain, x, data)
    ensures Formatted(t0.vol) && !AllInUse(t0.files) && EntryOk(t0.vol, e, chain) && EntryData(t0.vol, e, chain) == data
    ensures EntryExtent(t0.vol, e, chain) == x
    ensures FatFile.SectorLba(t0.vol, FirstCluster(e), 0) < |t0.vol.disk|
  {
    hide EntryOk, EntryData, FatFile.SectorLba, FileOk;
  }

  lemma OnlyHeadersTransitive(m0: seq<byte>, m1: seq<byte>, m2: seq<byte>)
    requires OnlyHeaders(m0, m1) && OnlyHeaders(m1, m2)
    ensures OnlyHeaders(m0, m2)
  {
  }

  /** The loop over the program headers has ended: all segments are in memory, or one is not in
      the file. */
  ghost predicate SegmentsDone(fat: Driver, m0: seq<byte>, m: seq<byte>, e: DirEntry, chain: seq<u32>,
                               t0: HandleTable, x: Extent, data: seq<byte>, segments: seq<Segment>, ok: bool)
    reads fat
  {
    && ok == AllInFile(data, segments) && KeptElsewhere(m0, m, segments)
    && (ok ==> AllPlaced(m, data, segments, |segments|))
    && if ok then CanOpen(fat, t0, e, chain, x, data) else fat.Valid() && Leaks(t0, fat.Handles())
  }

  /** The loop over the program headers. */
  method LoadSegments(fat: Driver, mem: array<byte>, entrySize: nat, entryCount: nat, e: DirEntry,
                      ghost chain: seq<u32>, ghost t0: HandleTable, ghost x: Extent, ghost data: seq<byte>,
                      ghost segments: seq<Segment>, ghost m0: seq<byte>)
      returns (ok: bool)
    requires CanOpen(fat, t0, e, chain, x, data) && entryCount == |segments|
    requires Loading(m0, mem[..], data, segments, entrySize, 0)
    requires SegmentsSeen(fat.vol, x, data, segments, 0, fat.cachePosition)
    modifies mem, fat`root, fat`files, fat`extents, fat`cache, fat`cachePosition
    ensures SegmentsDone(fat, m0, mem[..], e, chain, t0, x, data, segments, ok)
  {
    ghost var v := fat.vol;
    assert Formatted(v);
    hide SegmentsSeen, CanOpen, Loading, SegmentsDone, Driver.Valid, SameHandles, Segments;
    var i := 0;
    while i < entryCount
      invariant i <= entryCount && CanOpen(fat, t0, e, chain, x, data)
      invariant Loading(m0, mem[..], data, segments, entrySize, i)
      invariant SegmentsSeen(v, x, data, segments, i, fat.cachePosition)
    {
      ok := LoadNext(fat, mem, entrySize, i, e, chain, t0, x, data, segments, m0);
      if !ok { return; }
      i := i + 1;
    }
    AllLoaded(fat, m0, mem[..], e, chain, t0, x, data, segments, entrySize);
    return true;
  }

  lemma AllLoaded(fat: Driver, m0: seq<byte>, m: seq<byte>, e: DirEntry, chain: seq<u32>, t0: HandleTable, x: Extent,
                  data: seq<byte>, segments: seq<Segment>, size: nat)
    requires CanOpen(fat, t0, e, chain, x, data) && Loading(m0, m, data, segments, size, |segments|)
    ensures SegmentsDone(fat, m0, m, e, chain, t0, x, data, segments, true)
  {
    LoadingEnds(m0, m, data, segments, size);
    hide CanOpen, Loading, AllPlaced, AllInFile, KeptElsewhere, Driver.Valid, Leaks;
  }

  /** One pass of that loop. */
  method LoadNext(fat: Driver, mem: array<byte>, entrySize: nat, i: nat, e: DirEntry, ghost chain: seq<u32>,
                  ghost t0: HandleTable, ghost x: Extent, ghost data: seq<byte>, ghost segments: seq<Segment>,
                  ghost m0: seq<byte>)
      returns (ok: bool)
    requires CanOpen(fat, t0, e, chain, x, data) && i < |segments|
    requires Loading(m0, mem[..], data, segments, entrySize, i)
    requires SegmentsSeen(fat.vol, x, data, segments, i, fat.cachePosition)
    modifies mem, fat`root, fat`files, fat`extents, fat`cache, fat`cachePosition
    ensures fat.vol == old(fat.vol)
    ensures ok ==>
              && CanOpen(fat, t0, e, chain, x, data) && Loading(m0, mem[..], data, segments, entrySize, i + 1)
              && SegmentsSeen(fat.vol, x, data, segments, i + 1, fat.cachePosition)
    ensures !ok ==> SegmentsDone(fat, m0, mem[..], e, chain, t0, x, data, segments, false)
  {
    ghost var v := fat.vol;
    assert Formatted(v);
    hide SegmentsSeen, WindowFrom, Finds, SegmentEnd, CanOpen, Loading, HeaderAt, Word, Placed, Driver.Valid,
      Driver.Handles, Leaks, AllPlaced, AllInFile, KeptElsewhere, InFile, Untouched, SegmentAt, EntryAddress;
    ghost var m, s := mem[..], segments[i];
    var progHeader := EntryAddress(i, entrySize);
    LoadingHeader(m0, m, data, segments, entrySize, i);
    FirstSegmentSeen(v, x, data, segments, i, fat.cachePosition);
    if Word(mem[..], progHeader) != PT_LOAD {
      LoadingSkips(m0, m, data, segments, entrySize, i);
      return true;
    }
    ghost var w := WindowFrom(v, x, SegmentEnd(data, s), fat.cachePosition);
    ok := LoadSegment(fat, mem, progHeader, e, chain, t0, x, data, s, SegmentEnd(data, s), w);
    LoadingKept(m0, m, mem[..], data, segments, entrySize, i);
    if ok { LoadingNext(m0, m, mem[..], data, segments, entrySize, i); }
  }

  /** The header at hand, as it was read from the file. */
  lemma LoadingHeader(m0: seq<byte>, m: seq<byte>, data: seq<byte>, segments: seq<Segment>, size: nat, i: nat)
    requires Loading(m0, m, data, segments, size, i) && i < |segments|
    ensures var p := EntryAddress(i, size);
            && p + 4 <= |m| && Word(m, p) == segments[i].kind
            && (segments[i].kind == PT_LOAD ==> HeaderAt(m, p, segments[i]))
  {
    HeaderAddress(m, segments, size, i);
    if segments[i].kind == PT_LOAD { SegmentFacts(segments, |m|, i); }
    hide SegmentOk, HeadersFrom, AllPlaced, KeptElsewhere, EntryAddress;
  }

  lemma LoadingKept(m0: seq<byte>, m: seq<byte>, m': seq<byte>, data: seq<byte>, segments: seq<Segment>, size: nat,
                    i: nat)
    requires Loading(m0, m, data, segments, size, i) && i < |segments| && segments[i].kind == PT_LOAD
    requires Untouched(m, m', EntryAddress(i, size), segments[i])
    ensures KeptElsewhere(m0, m', segments)
    ensures !InFile(data, segments[i]) ==> !AllInFile(data, segments)
  {
    HeaderAddress(m, segments, size, i);
    hide SegmentsOk, HeadersFrom, AllPlaced, EntryAddress, Untouched, KeptElsewhere;
    KeptWhenUntouched(m0, m, m', segments, EntryAddress(i, size), i);
  }

  lemma LoadingEnds(m0: seq<byte>, m: seq<byte>, data: seq<byte>, segments: seq<Segment>, size: nat)
    requires Loading(m0, m, data, segments, size, |segments|)
    ensures AllInFile(data, segments) && KeptElsewhere(m0, m, segments) && AllPlaced(m, data, segments, |segments|)
  {
    hide SegmentsOk, HeadersFrom, AllPlaced, KeptElsewhere, InFile;
  }

  /** ELF_Read: it succeeds exactly when the file has a whole program header table and all its
      loadable segments. Then the segments are in memory, nothing but them and the loader's
      buffers has changed, and no handle is open that was not before; after a failure one is. */
  method Load(fat: Driver, mem: array<byte>, e: DirEntry, ghost chain: seq<u32>, ghost x: Extent, ghost data: seq<byte>)
      returns (ok: bool, entryPoint: u32)
    requires CanOpen(fat, fat.Handles(), e, chain, x, data) && Loadable(data, mem.Length)
             && LoadSeen(fat.vol, x, data, fat.cachePosition)
    modifies mem, fat`root, fat`files, fat`extents, fat`cache, fat`cachePosition
    ensures ok == (HasTable(data) && AllInFile(data, Segments(data)))
    ensures |data| >= ELF_HEADER_SIZE ==> entryPoint == Word(data, 24)
    ensures HasTable(data) ==> KeptElsewhere(old(mem[..]), mem[..], Segments(data))
    ensures !HasTable(data) ==> OnlyHeaders(old(mem[..]), mem[..])
    ensures ok ==> AllPlaced(mem[..], data, Segments(data), |Segments(data)|)
    ensures fat.Valid()
            && if ok then SameHandles(old(fat.Handles()), fat.Handles())
               else Leaks(old(fat.Handles()), fat.Handles())
  {
    ghost var m0, t0 := mem[..], fat.Handles();
    LoadableSize(data, mem.Length);
    hide CanOpen, Loadable, OnlyHeaders, Word, Driver.Valid, Driver.Handles, Leaks, SameHandles, HasTable,
      TableInBuffer, Loading,
      AllPlaced, AllInFile, KeptElsewhere, Segments, EntrySize, EntryCount;
    var entrySize, entryCount;
    ok, entryPoint, entrySize, entryCount := ReadTable(fat, mem, e, chain, t0, x, data,
        WindowFrom(fat.vol, x, HeadersEnd(data), fat.cachePosition));
    if !ok { return; }
    LoadingStarts(m0, mem[..], data);
    ok := LoadSegments(fat, mem, entrySize, entryCount, e, chain, t0, x, data, Segments(data), m0);
    if ok { AfterLoad(fat, t0, e, chain, x, data); }
  }

  lemma LoadableSize(data: seq<byte>, memory: nat)
    requires Loadable(data, memory)
    ensures HasTable(data) ==> (EntryCount(data) > 0 ==> EntrySize(data) >= PROGRAM_HEADER_SIZE)
  {
    hide HasTable, SegmentsOk, Segments;
  }

  lemma AfterLoad(fat: Driver, t0: HandleTable, e: DirEntry, chain: seq<u32>, x: Extent, data: seq<byte>)
    requires CanOpen(fat, t0, e, chain, x, data)
    ensures fat.Valid() && SameHandles(t0, fat.Handles())
  {
    hide EntryOk, EntryData, FatFile.SectorLba, FileOk, SameHandles;
  }
}

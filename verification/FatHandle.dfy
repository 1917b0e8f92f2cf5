/** What a FAT file handle holds, and when it is a faithful cursor into its file. */
module FatHandle {
  import opened Bytes
  import opened FatVolume
  import opened FatFile
  import opened FatLookups

  datatype FileData = FileData(buffer: seq<byte>, isDir: bool, position: u32, size: u32, inUse: bool,
                               first: u32, current: u32, sector: u32)

  /** A directory of unknown length is read until its chain ends. */
  predicate Unbounded(fd: FileData) {
    fd.isDir && fd.size == 0
  }

  function Limit(fd: FileData, lbas: seq<nat>): nat {
    if Unbounded(fd) then SECTOR_SIZE * |lbas| else fd.size
  }

  /** The position is inside the file, and the buffer is the sector at the position. */
  ghost predicate Buffered(v: Volume, fd: FileData, lbas: seq<nat>)
    requires Formatted(v)
  {
    && OnVolume(v, lbas) && |fd.buffer| == SECTOR_SIZE
    && fd.position <= Limit(fd, lbas) <= SECTOR_SIZE * |lbas| < TWO32
    && (fd.position < Limit(fd, lbas) ==> fd.buffer == v.disk[lbas[fd.position / SECTOR_SIZE]])
  }

  /** The sectors of a file are those of its chain. */
  ghost predicate ExtentOk(v: Volume, x: Extent)
    requires Formatted(v)
  {
    Clusters(v, x.chain) && x.lbas == Sectors(v, x.chain)
  }

  /** The cursor stands on sector n of the file. */
  ghost predicate CursorAt(v: Volume, fd: FileData, x: Extent, n: nat)
    requires Formatted(v)
  {
    && ExtentOk(v, x) && x.endless == Unbounded(fd)
    && n < |x.lbas| && ClusterOf(v, n) < |x.chain|
    && fd.current == x.chain[ClusterOf(v, n)] && fd.sector == SectorOf(v, n)
  }

  ghost predicate FileOk(v: Volume, fd: FileData, x: Extent)
    requires Formatted(v)
  {
    && Buffered(v, fd, x.lbas)
    && (fd.position < Limit(fd, x.lbas) ==> CursorAt(v, fd, x, fd.position / SECTOR_SIZE))
    && (Unbounded(fd) ==> fd.position < Limit(fd, x.lbas))
  }

  /** The root directory of FAT12 and FAT16 is a run of sectors of known length. */
  ghost predicate RootAt(fd: FileData, lbas: seq<nat>, n: nat) {
    n < |lbas| && fd.current == fd.first + n
  }

  ghost predicate IsRoot(fd: FileData, lbas: seq<nat>) {
    !Unbounded(fd) && fd.first + |lbas| < TWO32 && lbas == Consecutive(fd.first, |lbas|)
  }

  ghost predicate RootOk(v: Volume, fd: FileData, lbas: seq<nat>)
    requires Formatted(v)
  {
    && Buffered(v, fd, lbas) && IsRoot(fd, lbas)
    && (fd.position < Limit(fd, lbas) ==> RootAt(fd, lbas, fd.position / SECTOR_SIZE))
  }

  const ROOT_DIRECTORY_HANDLE: int := -1

  ghost predicate HandleOk(v: Volume, h: int, fd: FileData, x: Extent)
    requires Formatted(v)
  {
    if h == ROOT_DIRECTORY_HANDLE then RootOk(v, fd, x.lbas) else FileOk(v, fd, x)
  }

  ghost predicate HandleAt(v: Volume, h: int, fd: FileData, x: Extent, n: nat)
    requires Formatted(v)
  {
    if h == ROOT_DIRECTORY_HANDLE then IsRoot(fd, x.lbas) && RootAt(fd, x.lbas, n) else CursorAt(v, fd, x, n)
  }

  /** Reading has only moved the cursor. */
  predicate SameFile(fd: FileData, fd': FileData, lbas: seq<nat>) {
    && fd'.isDir == fd.isDir && fd'.first == fd.first && fd'.inUse == fd.inUse
    && Limit(fd', lbas) == Limit(fd, lbas)
  }

  lemma SameFileReflexive(fd: FileData, lbas: seq<nat>)
    ensures SameFile(fd, fd, lbas)
  {
  }

  lemma SameFileTransitive(fd0: FileData, fd1: FileData, fd2: FileData, lbas: seq<nat>)
    requires SameFile(fd0, fd1, lbas) && SameFile(fd1, fd2, lbas)
    ensures SameFile(fd0, fd2, lbas) && Limit(fd2, lbas) == Limit(fd0, lbas)
  {
  }

  /** After the last byte of sector n - 1 has been delivered, before the cursor has moved. */
  ghost predicate AtBoundary(fd: FileData, lbas: seq<nat>, n: nat) {
    && 0 < n && fd.position == n * SECTOR_SIZE <= Limit(fd, lbas) <= SECTOR_SIZE * |lbas| < TWO32
    && |fd.buffer| == SECTOR_SIZE
  }

  // ----- moving on to the next sector

  /** The next sector is in the same cluster. */
  lemma NextInCluster(v: Volume, fd: FileData, fd': FileData, x: Extent, n: nat)
    requires Formatted(v) && OnVolume(v, x.lbas) && AtBoundary(fd, x.lbas, n) && CursorAt(v, fd, x, n - 1)
    requires fd'.sector == fd.sector + 1 < v.perCluster
    requires fd' == fd.(sector := fd'.sector, buffer := fd'.buffer)
    ensures n < |x.lbas| && SectorLba(v, fd'.current, fd'.sector) == x.lbas[n]
    ensures fd'.buffer == v.disk[x.lbas[n]] ==> FileOk(v, fd', x)
    ensures Unbounded(fd) ==> fd.position < Limit(fd, x.lbas)
    ensures ClusterOf(v, n) == ClusterOf(v, n - 1)
  {
    OneSectorOn(v, n - 1);
    OnSector(v, x, n, fd.sector + 1);
    hide FirstSector, Sectors, SectorLba, ClusterOf, SectorOf;
  }

  /** Sector n of a file is where the driver looks for it. */
  lemma OnSector(v: Volume, x: Extent, n: nat, s: nat)
    requires Formatted(v) && ExtentOk(v, x) && ClusterOf(v, n) < |x.chain| && s == SectorOf(v, n)
    ensures n < |x.lbas| && SectorLba(v, x.chain[ClusterOf(v, n)], s) == x.lbas[n]
  {
    var k := ClusterOf(v, n);
    Recompose(v, n);
    GroupedIs(n, k, s, v.perCluster);
    SectorAt(v, x.chain, n, k, s);
    assert ClusterOk(v, x.chain[k]);
    LbaNoWrap(v, x.chain[k], s);
  }

  /** The next sector is the first one of the next cluster. */
  lemma NextIsCluster(v: Volume, fd: FileData, fd': FileData, x: Extent, n: nat)
    requires Formatted(v) && OnVolume(v, x.lbas) && AtBoundary(fd, x.lbas, n) && CursorAt(v, fd, x, n - 1)
    requires fd.sector + 1 == v.perCluster && ClusterOf(v, n - 1) + 1 < |x.chain|
    requires fd' == fd.(sector := 0, current := x.chain[ClusterOf(v, n - 1) + 1], buffer := fd'.buffer)
    ensures fd'.current < END_OF_CHAIN && ClusterOf(v, n) == ClusterOf(v, n - 1) + 1
    ensures n < |x.lbas| && SectorLba(v, fd'.current, 0) == x.lbas[n]
    ensures fd'.buffer == v.disk[x.lbas[n]] ==> FileOk(v, fd', x)
    ensures Unbounded(fd) ==> fd.position < Limit(fd, x.lbas)
  {
    OneSectorOn(v, n - 1);
    OnSector(v, x, n, 0);
    assert ClusterOk(v, fd'.current);
    hide FirstSector, Sectors, SectorLba, ClusterOf, SectorOf;
  }

  /** There is no next sector: the file has been delivered completely. */
  lemma NextIsEnd(v: Volume, fd: FileData, x: Extent, n: nat)
    requires Formatted(v) && OnVolume(v, x.lbas) && AtBoundary(fd, x.lbas, n) && CursorAt(v, fd, x, n - 1)
    requires fd.sector + 1 == v.perCluster && ClusterOf(v, n - 1) + 1 == |x.chain|
    ensures fd.position == Limit(fd, x.lbas) && ClusterOf(v, n) == |x.chain|
  {
    OneSectorOn(v, n - 1);
    if n < |x.lbas| { SectorIs(v, x.chain, n); }
    hide FirstSector, Sectors, ClusterOf, SectorOf;
  }

  /** The root directory's next sector is the next one on disk. */
  lemma NextInRoot(v: Volume, fd: FileData, lbas: seq<nat>, n: nat)
    requires Formatted(v) && OnVolume(v, lbas) && AtBoundary(fd, lbas, n) && IsRoot(fd, lbas) && RootAt(fd, lbas, n - 1)
    requires fd.position < Limit(fd, lbas)
    ensures fd.current + 1 < |v.disk|
    ensures RootOk(v, fd.(current := fd.current + 1, buffer := v.disk[fd.current + 1]), lbas)
  {
    assert lbas[n] == fd.current + 1;
  }

  // ----- one copy out of the buffer

  /** What the buffer holds from the position on is what the file holds there. */
  lemma ChunkBytes(v: Volume, fd: FileData, lbas: seq<nat>, take: nat)
    requires Formatted(v) && Buffered(v, fd, lbas) && fd.position < Limit(fd, lbas)
    requires take <= SECTOR_SIZE - fd.position % SECTOR_SIZE && fd.position + take <= Limit(fd, lbas)
    ensures var o := fd.position % SECTOR_SIZE;
            Content(v, lbas)[fd.position..fd.position + take] == fd.buffer[o..o + take]
  {
    var n, o := fd.position / SECTOR_SIZE, fd.position % SECTOR_SIZE;
    ContentOfSector(v, lbas, n);
    SliceOfSlice(Content(v, lbas), n * SECTOR_SIZE, (n + 1) * SECTOR_SIZE, o, o + take);
  }

  /** data is what the file holds between positions a and b. */
  ghost predicate BytesFrom(v: Volume, lbas: seq<nat>, a: nat, b: nat, data: seq<byte>)
    requires Formatted(v)
  {
    OnVolume(v, lbas) && a <= b <= SECTOR_SIZE * |lbas| && data == Content(v, lbas)[a..b]
  }

  lemma BytesFromStart(v: Volume, fd: FileData, lbas: seq<nat>)
    requires Formatted(v) && Buffered(v, fd, lbas)
    ensures BytesFrom(v, lbas, fd.position, fd.position, [])
  {
  }

  lemma BytesFromMore(v: Volume, fd: FileData, lbas: seq<nat>, a: nat, data: seq<byte>, take: nat)
    requires Formatted(v) && Buffered(v, fd, lbas) && fd.position < Limit(fd, lbas)
    requires take <= SECTOR_SIZE - fd.position % SECTOR_SIZE && fd.position + take <= Limit(fd, lbas)
    requires BytesFrom(v, lbas, a, fd.position, data)
    ensures var o := fd.position % SECTOR_SIZE;
            BytesFrom(v, lbas, a, fd.position + take, data + fd.buffer[o..o + take])
  {
    ChunkBytes(v, fd, lbas, take);
    var c := Content(v, lbas);
    assert c[a..fd.position] + c[fd.position..fd.position + take] == c[a..fd.position + take];
  }

  /** A copy never runs past the end of the file. */
  lemma CopyFits(v: Volume, fd: FileData, lbas: seq<nat>)
    requires Formatted(v) && Buffered(v, fd, lbas) && fd.position < Limit(fd, lbas)
    ensures Unbounded(fd) ==> fd.position + (SECTOR_SIZE - fd.position % SECTOR_SIZE) <= Limit(fd, lbas)
    ensures |fd.buffer| == SECTOR_SIZE && Limit(fd, lbas) <= SECTOR_SIZE * |lbas| < TWO32
  {
    if Unbounded(fd) {
      assert fd.position / SECTOR_SIZE < |lbas|;
    }
  }

  /** When reading stops, the stream has moved by what was asked for, or to its end. */
  lemma FinishRead(v: Volume, fd: FileData, fd': FileData, lbas: seq<nat>, data: seq<byte>, count: nat, wanted: nat)
    requires Formatted(v) && Buffered(v, fd, lbas) && Buffered(v, fd', lbas) && SameFile(fd, fd', lbas)
    requires BytesFrom(v, lbas, fd.position, fd'.position, data)
    requires wanted == if Unbounded(fd) then count else Min(count, fd.size - fd.position)
    requires |data| <= wanted && (|data| == wanted || fd'.position == Limit(fd, lbas))
    ensures data == Take(StreamOf(v, fd, lbas), count)
    ensures StreamOf(v, fd', lbas) == Skip(StreamOf(v, fd, lbas), count)
  {
    var limit := Limit(fd, lbas);
    assert fd'.position == Min(fd.position + count, limit);
    SliceOfSlice(Content(v, lbas), 0, limit, fd.position, fd'.position);
  }

  /** A copy that does not empty the buffer leaves the cursor where it is. */
  lemma StaysInSector(v: Volume, h: int, fd: FileData, x: Extent, take: nat)
    requires Formatted(v) && HandleOk(v, h, fd, x) && fd.position < Limit(fd, x.lbas)
    requires take < SECTOR_SIZE - fd.position % SECTOR_SIZE && fd.position + take <= Limit(fd, x.lbas)
    ensures fd.position + take < TWO32
    ensures HandleOk(v, h, fd.(position := fd.position + take), x)
    ensures Buffered(v, fd.(position := fd.position + take), x.lbas)
    ensures Unbounded(fd) ==> fd.position + take < Limit(fd, x.lbas)
  {
    hide ExtentOk, ClusterOf, SectorOf;
  }

  /** A copy that empties the buffer ends at a sector boundary. */
  lemma EndsSector(v: Volume, h: int, fd: FileData, x: Extent)
    requires Formatted(v) && HandleOk(v, h, fd, x) && fd.position < Limit(fd, x.lbas)
    requires fd.position + (SECTOR_SIZE - fd.position % SECTOR_SIZE) <= Limit(fd, x.lbas)
    ensures var n := fd.position / SECTOR_SIZE;
            && (n + 1) * SECTOR_SIZE == fd.position + (SECTOR_SIZE - fd.position % SECTOR_SIZE) < TWO32
            && var fd' := fd.(position := (n + 1) * SECTOR_SIZE);
            && OnVolume(v, x.lbas) && AtBoundary(fd', x.lbas, n + 1) && HandleAt(v, h, fd', x, n)
            && Limit(fd', x.lbas) == Limit(fd, x.lbas)
  {
    hide ExtentOk, ClusterOf, SectorOf;
  }

  /** At the end of the file nothing more is promised about buffer and cursor. */
  lemma AtLimitOk(v: Volume, h: int, fd: FileData, fd': FileData, x: Extent, n: nat)
    requires Formatted(v) && OnVolume(v, x.lbas) && AtBoundary(fd, x.lbas, n) && fd.position == Limit(fd, x.lbas)
    requires fd' == fd.(size := fd'.size, current := fd'.current, sector := fd'.sector, buffer := fd'.buffer)
    requires |fd'.buffer| == SECTOR_SIZE && fd'.size == (if Unbounded(fd) then fd.position else fd.size)
    requires h == ROOT_DIRECTORY_HANDLE ==> IsRoot(fd, x.lbas)
    ensures HandleOk(v, h, fd', x) && SameFile(fd, fd', x.lbas)
  {
  }

  // ----- the value of a handle

  /** A file being read: its bytes and how many have been delivered. */
  datatype Stream = Stream(data: seq<byte>, position: nat)

  ghost predicate StreamOk(s: Stream) {
    s.position <= |s.data|
  }

  function Take(s: Stream, n: nat): seq<byte>
    requires s.position <= |s.data|
  {
    s.data[s.position..Min(s.position + n, |s.data|)]
  }

  function Skip(s: Stream, n: nat): (t: Stream)
    requires s.position <= |s.data|
    ensures t.position <= |t.data|
  {
    s.(position := Min(s.position + n, |s.data|))
  }

  ghost function StreamOf(v: Volume, fd: FileData, lbas: seq<nat>): (s: Stream)
    requires Formatted(v) && Buffered(v, fd, lbas)
    ensures StreamOk(s)
  {
    Stream(Content(v, lbas)[..Limit(fd, lbas)], fd.position)
  }

  // ----- interleaved reads

  datatype Request = Request(handle: nat, count: nat)

  predicate Inside(streams: seq<Stream>) {
    forall i | 0 <= i < |streams| :: streams[i].position <= |streams[i].data|
  }

  predicate Valid(requests: seq<Request>, handles: nat) {
    forall i | 0 <= i < |requests| :: requests[i].handle < handles
  }

  /** The streams after a run of requests. */
  function Run(streams: seq<Stream>, requests: seq<Request>): (r: seq<Stream>)
    requires Inside(streams)
    requires Valid(requests, |streams|)
    ensures |r| == |streams| && Inside(r)
    decreases requests
  {
    if requests == [] then streams
    else
      var q := requests[0];
      Run(streams[q.handle := Skip(streams[q.handle], q.count)], requests[1..])
  }

  /** All bytes one handle is given in the course of the run. */
  function Delivered(streams: seq<Stream>, requests: seq<Request>, h: nat): seq<byte>
    requires Inside(streams)
    requires Valid(requests, |streams|)
    decreases requests
  {
    if requests == [] then []
    else
      var q := requests[0];
      (if q.handle == h then Take(streams[h], q.count) else []) +
      Delivered(streams[q.handle := Skip(streams[q.handle], q.count)], requests[1..], h)
  }

  function Asked(requests: seq<Request>, h: nat): nat {
    if requests == [] then 0
    else (if requests[0].handle == h then requests[0].count else 0) + Asked(requests[1..], h)
  }

  lemma TakeTwice(s: Stream, a: nat, b: nat)
    requires s.position <= |s.data|
    ensures Take(s, a) + Take(Skip(s, a), b) == Take(s, a + b)
    ensures Skip(Skip(s, a), b) == Skip(s, a + b)
  {
    var d, p, m, q := s.data, s.position, Skip(s, a).position, Skip(s, a + b).position;
    assert d[p..m] + d[m..q] == d[p..q];
  }

  /** However reads on several handles interleave and however they are chunked, each handle is
      given its own file from its own position on: as many bytes as it asked for in all, or
      all that are left. */
  lemma {:induction false} InterleavedReads(streams: seq<Stream>, requests: seq<Request>, h: nat)
    requires Inside(streams)
    requires Valid(requests, |streams|)
    requires h < |streams|
    ensures Delivered(streams, requests, h) == Take(streams[h], Asked(requests, h))
    ensures Run(streams, requests)[h] == Skip(streams[h], Asked(requests, h))
    decreases requests
  {
    if requests != [] {
      var q := requests[0];
      var streams' := streams[q.handle := Skip(streams[q.handle], q.count)];
      InterleavedReads(streams', requests[1..], h);
      if q.handle == h {
        var s, a, b := streams[h], q.count, Asked(requests[1..], h);
        TakeTwice(s, a, b);
      }
    }
  }
}

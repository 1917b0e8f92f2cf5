/** The FAT reader of the boot loader: file handles with a one-sector buffer each, and one
    sliding cache of the table that they all share. */
module FatReader {
  import opened Bytes
  import opened FatVolume
  import opened FatFile
  import opened FatLookups
  import opened FatHandle
  import opened FatBoot

  const MAX_FILE_HANDLES: nat := 10
  const ATTRIBUTE_DIRECTORY: nat := 0x10

  /** The entry can be opened with this chain: an empty file, or a file or directory on good
      clusters, as many as its size takes or more. Whether the driver then finds this chain
      depends on the lookups it makes. */
  ghost predicate EntryOk(v: Volume, e: DirEntry, chain: seq<u32>)
    requires Formatted(v)
  {
    if e.size == 0 && !IsDirEntry(e) then chain == []
    else
      && chain != [] && Clusters(v, chain) && chain[0] == FirstCluster(e)
      && e.size <= SECTOR_SIZE * |Sectors(v, chain)| < TWO32
  }

  /** The sectors of an entry; a directory without a size is read until its chain ends. */
  ghost function EntryExtent(v: Volume, e: DirEntry, chain: seq<u32>): Extent
    requires Formatted(v) && EntryOk(v, e, chain)
  {
    if chain == [] then Extent([], [], false) else Extent(Sectors(v, chain), chain, e.size == 0)
  }

  /** The bytes an entry stands for. */
  ghost function EntryData(v: Volume, e: DirEntry, chain: seq<u32>): seq<byte>
    requires Formatted(v) && EntryOk(v, e, chain)
  {
    if chain == [] then []
    else
      SectorsOnVolume(v, chain);
      var c := Content(v, Sectors(v, chain));
      if e.size == 0 then c else c[..e.size]
  }

  /** The fields of a directory entry that opening it uses. */
  datatype DirEntry = DirEntry(name: seq<byte>, attributes: byte, firstHigh: u16, firstLow: u16, size: u32)

  function FirstCluster(e: DirEntry): u32 {
    e.firstLow + e.firstHigh * 0x1_0000
  }

  predicate IsDirEntry(e: DirEntry) {
    e.attributes / ATTRIBUTE_DIRECTORY % 2 == 1
  }

  const EMPTY_BUFFER: seq<byte> := seq(SECTOR_SIZE, _ => 0)
  const CLOSED_FILE: FileData := FileData(EMPTY_BUFFER, false, 0, 0, false, 0, 0, 0)

  class Driver {
    var vol: Volume
    var root: FileData
    var files: seq<FileData>
    var cache: seq<byte>
    var cachePosition: u32
    ghost var rootLbas: seq<nat>        // the sectors of the root directory
    ghost var extents: seq<Extent>      // the sectors of each open file

    ghost predicate Valid()
      reads this
    {
      && CacheOk(vol, cache, cachePosition)
      && |files| == |extents| == MAX_FILE_HANDLES
      && forall i | 0 <= i < MAX_FILE_HANDLES && files[i].inUse :: FileOk(vol, files[i], extents[i])
    }

    /** The handle is open and its buffer is the sector at its position. */
    ghost predicate Ready(h: int)
      requires Valid()
      reads this
    {
      if h == ROOT_DIRECTORY_HANDLE then RootOk(vol, root, rootLbas)
      else 0 <= h < MAX_FILE_HANDLES && files[h].inUse
    }

    function Data(h: int): FileData
      requires -1 <= h < |files|
      reads this
    {
      if h == ROOT_DIRECTORY_HANDLE then root else files[h]
    }

    ghost function Lbas(h: int): seq<nat>
      requires -1 <= h < |extents|
      reads this
    {
      if h == ROOT_DIRECTORY_HANDLE then rootLbas else extents[h].lbas
    }

    ghost function Handles(): HandleTable
      reads this
    {
      HandleTable(vol, root, files, rootLbas, extents)
    }

    ghost function StreamAt(h: int): (s: Stream)
      requires Valid() && Ready(h)
      reads this
      ensures s.position <= |s.data|
    {
      StreamOf(vol, Data(h), Lbas(h))
    }

    constructor (disk: seq<seq<byte>>)
      ensures vol.disk == disk && |cache| == CACHE_BYTES && |files| == |extents| == MAX_FILE_HANDLES
      ensures |root.buffer| == SECTOR_SIZE && (IsDisk(disk) ==> Formatted(vol))
    {
      vol := Volume(disk, 12, 0, 1, 0);
      root := CLOSED_FILE;
      files := seq(MAX_FILE_HANDLES, _ => CLOSED_FILE);
      cache := seq(CACHE_BYTES, _ => 0);
      cachePosition := NO_POSITION;
      rootLbas := [];
      extents := seq(MAX_FILE_HANDLES, _ => Extent([], [], false));
    }

    /** FAT_Initialize. The boot sector must not make it divide by zero. */
    method Initialize() returns (ok: bool)
      requires Formatted(vol) && |cache| == CACHE_BYTES
      requires |files| == |extents| == MAX_FILE_HANDLES && |root.buffer| == SECTOR_SIZE
      requires vol.disk != [] ==> Divides(ParseBoot(vol.disk[0]))
      modifies this
      ensures vol.disk == old(vol.disk) && Formatted(vol) && (vol.disk == [] ==> !ok)
      ensures vol.disk != [] ==>
              var b := ParseBoot(vol.disk[0]);
              && ok == (RootLba(b) < |vol.disk|)
              && (ok ==> Valid() && vol == Volume(vol.disk, DetectType(b), b.reserved, b.perCluster, DataLba(b)))
              && (ok ==> cachePosition == NO_POSITION && forall i | 0 <= i < MAX_FILE_HANDLES :: !files[i].inUse)
              && (ok && HasRootRegion(vol.disk, b) ==>
                    Ready(ROOT_DIRECTORY_HANDLE)
                    && rootLbas == Consecutive(RootLba(b), RootDirSectors(b)) && OnVolume(vol, rootLbas)
                    && StreamAt(ROOT_DIRECTORY_HANDLE) == Stream(Content(vol, rootLbas)[..RootDirSize(b)], 0))
    {
      hide ParseBoot, DetectType, Window, Content, HasRootRegion, RootOk, Buffered, RootLba, DataLba, RootDirSectors,
        OnVolume, StreamOf, Consecutive;
      var sector;
      ok, sector := ReadSector(0);
      if !ok { return; }
      var b := ParseBoot(sector);
      cachePosition := NO_POSITION;
      var lba := RootLba(b);
      root := FileData(root.buffer, true, 0, RootDirSize(b), true, lba, lba, 0);
      var data;
      ok, data := ReadSector(lba);
      if !ok { return; }
      root := root.(buffer := data);
      vol := Volume(vol.disk, DetectType(b), b.reserved, b.perCluster, DataLba(b));
      TypeIsKnown(b);
      var fs := files;
      files := seq(MAX_FILE_HANDLES, i requires 0 <= i < |fs| => fs[i].(inUse := false));
      if HasRootRegion(vol.disk, b) {
        rootLbas := Consecutive(lba, RootDirSectors(b));
        FreshRootOk(vol, b, root);
      }
    }

    /** Partition_ReadSectors of one sector: fails past the end of the disk. */
    method ReadSector(lba: u32) returns (ok: bool, data: seq<byte>)
      requires Formatted(vol)
      ensures ok == (lba < |vol.disk|)
      ensures ok ==> data == vol.disk[lba] && |data| == SECTOR_SIZE
    {
      if lba < |vol.disk| { return true, vol.disk[lba]; }
      return false, [];
    }

    /** FAT_ReadFat: loads the five-sector window. */
    method ReadFat(sector: u32) returns (ok: bool)
      requires Formatted(vol) && |cache| == CACHE_BYTES
      modifies `cache
      ensures ok == (vol.reserved + sector + FAT_CACHE_SIZE <= |vol.disk|)
      ensures ok ==> cache == Window(vol, sector)
      ensures !ok ==> cache == old(cache)
    {
      var lba := vol.reserved + sector;
      if lba + FAT_CACHE_SIZE > |vol.disk| { return false; }
      cache := vol.disk[lba] + vol.disk[lba + 1] + vol.disk[lba + 2] + vol.disk[lba + 3] + vol.disk[lba + 4];
      WindowIsSectors(vol, sector);
      return true;
    }

    /** A byte at an offset from the start of the cache; the position field follows the cache. */
    function Peek(k: nat): byte
      requires |cache| == CACHE_BYTES && k <= CACHE_BYTES
      reads this
    {
      if k < CACHE_BYTES then cache[k] else cachePosition % 0x100
    }

    /** Makes sure that the cache holds the entry, and tells where. */
    method Locate(cluster: u32) returns (k: nat)
      requires CacheOk(vol, cache, cachePosition) && Reachable(vol, cluster)
      modifies `cache, `cachePosition
      ensures CacheOk(vol, cache, cachePosition) && cachePosition != NO_POSITION
      ensures cachePosition == WindowAfter(vol, cluster, old(cachePosition))
      ensures k == EntryIndex(vol.fatType, cluster) - cachePosition * SECTOR_SIZE < CACHE_BYTES
    {
      hide EntryIndex, Window;
      var index := EntryIndex(vol.fatType, cluster);
      var sector := index / SECTOR_SIZE;
      if sector < cachePosition || sector >= (cachePosition + FAT_CACHE_SIZE) % TWO32 {
        var ok := ReadFat(sector);
        cachePosition := sector;
      }
      return index - cachePosition * SECTOR_SIZE;
    }

    /** FAT_NextCluster */
    method NextCluster(cluster: u32) returns (next: u32)
      requires CacheOk(vol, cache, cachePosition) && Reachable(vol, cluster)
      modifies `cache, `cachePosition
      ensures CacheOk(vol, cache, cachePosition)
      ensures next == CachedNext(vol, cluster, old(cachePosition))
      ensures cachePosition == WindowAfter(vol, cluster, old(cachePosition))
    {
      hide WindowAfter, Reachable, FatByte, FatBytes, Decode12, Decode16, Half, Word, Window;
      var k := Locate(cluster);
      EntryInWindow(vol, cluster, cachePosition);
      if vol.fatType == 12 {
        next := Decode12(cluster, Peek(k), Peek(k + 1));
      } else if vol.fatType == 16 {
        next := Decode16(Half(cache[k..k + 2], 0));
      } else {
        next := Word(cache[k..k + 4], 0);
      }
    }

    /** The part of FAT_Read that follows a sector whose last byte has been delivered. */
    method NextSector(h: int, fd: FileData, ghost x: Extent, ghost n: nat) returns (more: bool, fd': FileData)
      requires CacheOk(vol, cache, cachePosition) && OnVolume(vol, x.lbas)
      requires AtBoundary(fd, x.lbas, n) && HandleAt(vol, h, fd, x, n - 1)
               && (h == ROOT_DIRECTORY_HANDLE ==> x.chain == [])
      requires Seen(vol, x, ClusterOf(vol, n - 1), ClusterOf(vol, n), cachePosition)
      modifies `cache, `cachePosition
      ensures CacheOk(vol, cache, cachePosition)
      ensures cachePosition == WindowOver(vol, x, ClusterOf(vol, n - 1), ClusterOf(vol, n), old(cachePosition))
      ensures HandleOk(vol, h, fd', x) && Buffered(vol, fd', x.lbas)
      ensures SameFile(fd, fd', x.lbas) && fd'.position == fd.position
      ensures fd.position < Limit(fd, x.lbas) ==> more
      ensures more ==> fd'.size == fd.size
      ensures Unbounded(fd) && fd.position == Limit(fd, x.lbas) ==> !more
    {
      if h == ROOT_DIRECTORY_HANDLE {
        more, fd' := NextRootSector(fd, x.lbas, n);
      } else {
        more, fd' := NextFileSector(h, fd, x, n);
      }
    }

    method NextRootSector(fd: FileData, ghost lbas: seq<nat>, ghost n: nat) returns (more: bool, fd': FileData)
      requires Formatted(vol) && OnVolume(vol, lbas) && AtBoundary(fd, lbas, n) && IsRoot(fd, lbas)
      requires RootAt(fd, lbas, n - 1)
      ensures RootOk(vol, fd', lbas) && SameFile(fd, fd', lbas) && fd'.position == fd.position
      ensures fd.position < Limit(fd, lbas) ==> more
      ensures more ==> fd'.size == fd.size
    {
      fd' := fd.(current := fd.current + 1);
      var ok, data := ReadSector(fd'.current);
      if fd.position < Limit(fd, lbas) {
        NextInRoot(vol, fd, lbas, n);
      } else {
        AtLimitOk(vol, ROOT_DIRECTORY_HANDLE, fd, fd', Extent(lbas, [], false), n);
        if ok { AtLimitOk(vol, ROOT_DIRECTORY_HANDLE, fd, fd'.(buffer := data), Extent(lbas, [], false), n); }
      }
      if !ok { return false, fd'; }
      return true, fd'.(buffer := data);
    }

    method NextFileSector(h: int, fd: FileData, ghost x: Extent, ghost n: nat) returns (more: bool, fd': FileData)
      requires CacheOk(vol, cache, cachePosition) && OnVolume(vol, x.lbas) && h != ROOT_DIRECTORY_HANDLE
      requires AtBoundary(fd, x.lbas, n) && CursorAt(vol, fd, x, n - 1)
      requires Seen(vol, x, ClusterOf(vol, n - 1), ClusterOf(vol, n), cachePosition)
      modifies `cache, `cachePosition
      ensures CacheOk(vol, cache, cachePosition)
      ensures cachePosition == WindowOver(vol, x, ClusterOf(vol, n - 1), ClusterOf(vol, n), old(cachePosition))
      ensures FileOk(vol, fd', x) && SameFile(fd, fd', x.lbas) && fd'.position == fd.position
      ensures fd.position < Limit(fd, x.lbas) ==> more
      ensures more ==> fd'.size == fd.size
      ensures Unbounded(fd) && fd.position == Limit(fd, x.lbas) ==> !more
    {
      ghost var k := ClusterOf(vol, n - 1);
      CursorCluster(vol, fd, x, n - 1);
      hide CachedNext, ExtentOk, SectorLba, WindowAfter, FileOk, SameFile, CursorAt, Window, ClusterOf, Seen,
        WindowOver, Reachable;
      ghost var last := false;
      fd' := fd.(sector := fd.sector + 1);
      if fd'.sector >= vol.perCluster {
        OneLookup(vol, fd, x, n, cachePosition);
        var c := NextCluster(fd.current);
        fd' := fd.(sector := 0, current := c);
        if k + 1 < |x.chain| {
          ClusterFollows(vol, fd, x, n);
        } else {
          NextIsEnd(vol, fd, x, n);
          last := true;
        }
      } else {
        SectorFollows(vol, fd, x, n, cachePosition);
      }
      var fd1 := fd';
      more, fd' := Refill(fd1);
      if fd1.current >= END_OF_CHAIN || last {
        AtLimitOk(vol, h, fd, fd', x, n);
      }
    }

    /** Where the cursor has moved: past an end-of-chain value the file ends here; otherwise the
        sector is read, whatever cluster it would be in. */
    method Refill(fd: FileData) returns (more: bool, fd': FileData)
      requires Formatted(vol)
      ensures var lba := SectorLba(vol, fd.current, fd.sector);
              if fd.current >= END_OF_CHAIN then !more && fd' == fd.(size := fd.position)
              else if lba < |vol.disk| then more && fd' == fd.(buffer := vol.disk[lba])
              else !more && fd' == fd
    {
      if fd.current >= END_OF_CHAIN { return false, fd.(size := fd.position); }
      var ok, data := ReadSector(SectorLba(vol, fd.current, fd.sector));
      if !ok { return false, fd; }
      return true, fd.(buffer := data);
    }

    ghost function ExtentOf(h: int): Extent
      requires -1 <= h < |extents|
      reads this
    {
      if h == ROOT_DIRECTORY_HANDLE then Extent(rootLbas, [], false) else extents[h]
    }

    /** The lookups on the way to position q of an open file, if nobody moves the window in
        between, find the file's chain. The root directory needs none. */
    ghost predicate SeesTo(h: int, q: nat)
      requires Valid() && Ready(h)
      reads this
    {
      Seen(vol, ExtentOf(h), LookupsTo(vol, StreamAt(h).position), LookupsTo(vol, q), cachePosition)
    }

    /** They do whenever the handle is the root directory of FAT12 or FAT16, or the file's chain
        is on the table and none of its lookups can straddle. */
    lemma UsuallySees(h: int, q: nat)
      requires Valid() && Ready(h)
      requires h == ROOT_DIRECTORY_HANDLE || (OnTable(vol, extents[h]) && Steady(vol, extents[h]))
      ensures SeesTo(h, q)
    {
      assert Formatted(vol);
      hide OnTable, Steady, FileOk, RootOk, StreamOf, CacheOk, LookupsTo;
      if h != ROOT_DIRECTORY_HANDLE {
        SteadyIsSeen(vol, extents[h], LookupsTo(vol, StreamAt(h).position), LookupsTo(vol, q), cachePosition);
      }
    }

    /** Where they leave the window. */
    ghost function WindowAt(h: int, q: nat): u32
      requires Valid() && Ready(h)
      reads this
    {
      WindowOver(vol, ExtentOf(h), LookupsTo(vol, StreamAt(h).position), LookupsTo(vol, q), cachePosition)
    }

    /** FAT_Read: the next count bytes of the file, or all that are left, provided that the
        lookups it makes find the file's chain. */
    method Read(h: int, count: u32) returns (data: seq<byte>)
      requires Valid() && Ready(h) && SeesTo(h, Skip(StreamAt(h), count).position)
      modifies `root, `files, `cache, `cachePosition
      ensures Valid() && Ready(h)
      ensures data == Take(old(StreamAt(h)), count) && StreamAt(h) == Skip(old(StreamAt(h)), count)
      ensures cachePosition == old(WindowAt(h, Skip(StreamAt(h), count).position))
      ensures OnlyMoved(h, old(Handles()), Handles())
    {
      ghost var x, q := ExtentOf(h), Skip(StreamAt(h), count).position;
      HandleIsOk(h);
      hide FileOk, RootOk, CacheOk, Content, OnVolume, HandleOk, Buffered, BytesFrom, StreamOf, Seen, WindowOver,
        LookupsTo;
      var fd := Data(h);
      var byteCount := count;
      if !Unbounded(fd) { byteCount := Min(byteCount, fd.size - fd.position); }
      BytesFromStart(vol, fd, x.lbas);
      var fd';
      data, fd' := Deliver(h, fd, x, byteCount, q);
      FinishRead(vol, fd, fd', x.lbas, data, count, byteCount);
      Keep(h, fd');
    }

    /** On the way to position q: the lookups up to there find the file's chain, and will leave
        the window at w. */
    ghost predicate OnCourse(h: int, q: nat, w: u32)
      requires Valid() && Ready(h)
      reads this
    {
      StreamAt(h).position <= q && SeesTo(h, q) && WindowAt(h, q) == w
    }

    /** One of several reads on that way. */
    method ReadTowards(h: int, count: u32, ghost q: nat, ghost w: u32) returns (data: seq<byte>)
      requires Valid() && Ready(h) && OnCourse(h, q, w) && Skip(StreamAt(h), count).position <= q
      modifies `root, `files, `cache, `cachePosition
      ensures Valid() && Ready(h) && OnCourse(h, q, w)
      ensures data == Take(old(StreamAt(h)), count) && StreamAt(h) == Skip(old(StreamAt(h)), count)
      ensures OnlyMoved(h, old(Handles()), Handles())
    {
      LookupsSplit(vol, ExtentOf(h), StreamAt(h).position, Skip(StreamAt(h), count).position, q, cachePosition);
      hide Seen, WindowOver, LookupsTo, StreamOf, CacheOk, FileOk, RootOk, Buffered;
      data := Read(h, count);
    }

    /** The end of the way. */
    lemma Arrived(h: int, q: nat, w: u32)
      requires Valid() && Ready(h) && OnCourse(h, q, w) && StreamAt(h).position == q
      ensures cachePosition == w
    {
      NoLookups(vol, ExtentOf(h), StreamAt(h).position, q, cachePosition);
      hide Seen, WindowOver, LookupsTo, StreamOf, CacheOk, FileOk, RootOk, Buffered;
    }

    /** The loop of FAT_Read: copies out of the buffer and refills it at sector boundaries. */
    method Deliver(h: int, fd0: FileData, ghost x: Extent, wanted: nat, ghost q: nat)
        returns (data: seq<byte>, fd: FileData)
      requires CacheOk(vol, cache, cachePosition) && (h == ROOT_DIRECTORY_HANDLE ==> x.chain == [])
      requires HandleOk(vol, h, fd0, x) && Buffered(vol, fd0, x.lbas)
      requires BytesFrom(vol, x.lbas, fd0.position, fd0.position, [])
      requires fd0.position <= Limit(fd0, x.lbas) && q == Min(fd0.position + wanted, Limit(fd0, x.lbas))
      requires if Unbounded(fd0) then fd0.position < Limit(fd0, x.lbas) else fd0.position + wanted <= Limit(fd0, x.lbas)
      requires Seen(vol, x, LookupsTo(vol, fd0.position), LookupsTo(vol, q), cachePosition)
      modifies `cache, `cachePosition
      ensures CacheOk(vol, cache, cachePosition)
      ensures HandleOk(vol, h, fd, x) && Buffered(vol, fd, x.lbas)
      ensures SameFile(fd0, fd, x.lbas) && BytesFrom(vol, x.lbas, fd0.position, fd.position, data)
      ensures |data| <= wanted && (|data| == wanted || fd.position == Limit(fd0, x.lbas))
      ensures cachePosition == WindowOver(vol, x, LookupsTo(vol, fd0.position), LookupsTo(vol, q), old(cachePosition))
    {
      assert Formatted(vol);
      hide FileOk, RootOk, CacheOk, Content, OnVolume, HandleOk, Buffered, BytesFrom, SameFile, Seen, WindowOver,
        LookupsTo;
      data, fd := [], fd0;
      ghost var limit := Limit(fd0, x.lbas);
      ghost var w := WindowOver(vol, x, LookupsTo(vol, fd0.position), LookupsTo(vol, q), cachePosition);
      SameFileReflexive(fd0, x.lbas);
      var byteCount := wanted;
      while byteCount > 0
        invariant Formatted(vol) && CacheOk(vol, cache, cachePosition)
        invariant HandleOk(vol, h, fd, x) && Buffered(vol, fd, x.lbas) && SameFile(fd0, fd, x.lbas)
        invariant BytesFrom(vol, x.lbas, fd0.position, fd.position, data)
        invariant 0 <= byteCount == wanted - |data|
                  && fd.position == fd0.position + |data| <= limit == Limit(fd, x.lbas)
        invariant Unbounded(fd) == Unbounded(fd0) && (Unbounded(fd) ==> fd.position < limit)
        invariant Seen(vol, x, LookupsTo(vol, fd.position), LookupsTo(vol, q), cachePosition)
        invariant w == WindowOver(vol, x, LookupsTo(vol, fd.position), LookupsTo(vol, q), cachePosition)
        modifies `cache, `cachePosition
        decreases byteCount
      {
        CopyFits(vol, fd, x.lbas);
        ghost var fd1 := fd;
        var chunk, more;
        chunk, more, fd := CopyOnce(h, fd, x, byteCount, fd0.position, data, q);
        SameFileTransitive(fd0, fd1, fd, x.lbas);
        data := data + chunk;
        byteCount := byteCount - |chunk|;
        if !more { break; }
      }
      NoLookups(vol, x, fd.position, q, cachePosition);
    }

    /** One pass of that loop. */
    method CopyOnce(h: int, fd: FileData, ghost x: Extent, byteCount: nat, ghost start: nat, ghost data: seq<byte>,
          ghost q: nat)
        returns (chunk: seq<byte>, more: bool, fd': FileData)
      requires CacheOk(vol, cache, cachePosition) && (h == ROOT_DIRECTORY_HANDLE ==> x.chain == [])
      requires HandleOk(vol, h, fd, x) && Buffered(vol, fd, x.lbas)
      requires byteCount > 0 && fd.position < Limit(fd, x.lbas) && q == Min(fd.position + byteCount, Limit(fd, x.lbas))
      requires Unbounded(fd) || fd.position + byteCount <= Limit(fd, x.lbas)
      requires BytesFrom(vol, x.lbas, start, fd.position, data)
      requires Seen(vol, x, LookupsTo(vol, fd.position), LookupsTo(vol, q), cachePosition)
      modifies `cache, `cachePosition
      ensures CacheOk(vol, cache, cachePosition)
      ensures HandleOk(vol, h, fd', x) && Buffered(vol, fd', x.lbas) && SameFile(fd, fd', x.lbas)
      ensures 0 < |chunk| <= byteCount && fd'.position == fd.position + |chunk| <= Limit(fd, x.lbas)
      ensures BytesFrom(vol, x.lbas, start, fd'.position, data + chunk)
      ensures fd'.position < Limit(fd, x.lbas) ==> more
      ensures more ==> Unbounded(fd') == Unbounded(fd) && (Unbounded(fd) ==> fd'.position < Limit(fd, x.lbas))
      ensures Seen(vol, x, LookupsTo(vol, fd'.position), LookupsTo(vol, q), cachePosition)
      ensures WindowOver(vol, x, LookupsTo(vol, fd'.position), LookupsTo(vol, q), cachePosition)
           == WindowOver(vol, x, LookupsTo(vol, fd.position), LookupsTo(vol, q), old(cachePosition))
    {
      hide FileOk, RootOk, Content, OnVolume, HandleOk, HandleAt, AtBoundary, Buffered, BytesFrom, Window, Seen,
        WindowOver,
        LookupsTo, ClusterOf;
      CopyFits(vol, fd, x.lbas);
      var left := SECTOR_SIZE - fd.position % SECTOR_SIZE;
      var take := Min(byteCount, left);
      var o := fd.position % SECTOR_SIZE;
      BytesFromMore(vol, fd, x.lbas, start, data, take);
      LookupsSplit(vol, x, fd.position, fd.position + take, q, cachePosition);
      OneCopy(vol, x, fd.position, take, cachePosition);
      chunk := fd.buffer[o..o + take];
      if left == take {
        EndsSector(vol, h, fd, x);
        more, fd' := NextSector(h, fd.(position := fd.position + take), x, fd.position / SECTOR_SIZE + 1);
      } else {
        StaysInSector(vol, h, fd, x, take);
        more, fd' := true, fd.(position := fd.position + take);
      }
    }

    lemma HandleIsOk(h: int)
      requires Valid() && Ready(h)
      ensures HandleOk(vol, h, Data(h), ExtentOf(h)) && Buffered(vol, Data(h), Lbas(h))
      ensures Data(h).position <= Limit(Data(h), Lbas(h)) && ExtentOf(h).lbas == Lbas(h)
      ensures Unbounded(Data(h)) ==> Data(h).position < Limit(Data(h), Lbas(h))
    {
    }

    lemma NothingMoved(h: int)
      requires Valid() && Ready(h)
      ensures OnlyMoved(h, Handles(), Handles())
    {
    }

    /** Writes the handle back. */
    method Keep(h: int, fd: FileData)
      requires Valid() && -1 <= h < MAX_FILE_HANDLES
      requires HandleOk(vol, h, fd, ExtentOf(h)) && (h >= 0 ==> fd.inUse) && SameFile(Data(h), fd, Lbas(h))
      modifies `root, `files
      ensures Valid() && Ready(h) && Data(h) == fd
      ensures OnlyMoved(h, old(Handles()), Handles())
    {
      if h == ROOT_DIRECTORY_HANDLE {
        root := fd;
      } else {
        files := files[h := fd];
      }
    }

    /** FAT_OpenEntry: the lowest closed handle, or -1 for NULL. */
    method OpenEntry(e: DirEntry, ghost chain: seq<u32>) returns (h: int)
      requires Valid() && EntryOk(vol, e, chain)
      modifies `files, `extents
      ensures Valid() && -1 <= h < MAX_FILE_HANDLES && Opens(old(files), files, old(extents), extents)
      ensures forall i | 0 <= i < h :: old(files)[i].inUse
      ensures h < 0 <==> AllInUse(old(files)) || SectorLba(vol, FirstCluster(e), 0) >= |vol.disk|
      ensures chain != [] ==> SectorLba(vol, FirstCluster(e), 0) < |vol.disk|
      ensures h >= 0 ==> !old(files)[h].inUse && Ready(h) && StreamAt(h) == Stream(EntryData(vol, e, chain), 0)
      ensures h >= 0 ==> extents[h] == EntryExtent(vol, e, chain)
      ensures h >= 0 ==> forall i | 0 <= i < MAX_FILE_HANDLES && i != h ::
                files[i] == old(files)[i] && extents[i] == old(extents)[i]
      ensures h < 0 ==> forall i | 0 <= i < MAX_FILE_HANDLES :: files[i].inUse == old(files)[i].inUse
    {
      h := 0;
      while h < MAX_FILE_HANDLES && files[h].inUse
        invariant 0 <= h <= MAX_FILE_HANDLES
        invariant forall i | 0 <= i < h :: files[i].inUse
      {
        h := h + 1;
      }
      FirstClusterOk(vol, e, chain);
      if h == MAX_FILE_HANDLES { return -1; }
      hide FileOk, Content, Sectors, EntryData, Clusters, SectorLba, StreamOf, Window;
      var c := FirstCluster(e);
      var fd := FileData(files[h].buffer, IsDirEntry(e), 0, e.size, false, c, c, 0);
      files := files[h := fd];
      var ok, data := ReadSector(SectorLba(vol, c, 0));
      if !ok { return -1; }
      fd := fd.(buffer := data, inUse := true);
      FreshFileOk(vol, e, chain, fd);
      files, extents := files[h := fd], extents[h := EntryExtent(vol, e, chain)];
    }

    /** FAT_Close on a file. */
    method Close(h: int)
      requires Valid() && 0 <= h < MAX_FILE_HANDLES
      modifies `files
      ensures Valid() && files == old(files)[h := old(files)[h].(inUse := false)]
    {
      files := files[h := files[h].(inUse := false)];
    }

    /** FAT_Close on the root directory: the position and the cursor go back to the start, the
        buffer stays. */
    method CloseRoot()
      requires Valid() && Ready(ROOT_DIRECTORY_HANDLE) && root.size > 0
      modifies `root
      ensures Valid() && root == old(root).(position := 0, current := old(root).first)
      ensures Ready(ROOT_DIRECTORY_HANDLE) <==> root.buffer == vol.disk[rootLbas[0]]
      ensures old(root).position < Min(SECTOR_SIZE, old(root).size) ==> Ready(ROOT_DIRECTORY_HANDLE)
    {
      RootCloses(vol, root, rootLbas);
      root := root.(position := 0, current := root.first);
    }
  }

  /** The handles of a driver, and what their sectors are. */
  datatype HandleTable =
    HandleTable(vol: Volume, root: FileData, files: seq<FileData>, rootLbas: seq<nat>, extents: seq<Extent>)
  {
    predicate Has(h: int) {
      |files| == |extents| && -1 <= h < |files|
    }

    function Data(h: int): FileData
      requires Has(h)
    {
      if h == ROOT_DIRECTORY_HANDLE then root else files[h]
    }

    function Lbas(h: int): seq<nat>
      requires Has(h)
    {
      if h == ROOT_DIRECTORY_HANDLE then rootLbas else extents[h].lbas
    }
  }

  /** Handle h is still on the same file; every other handle is untouched. */
  ghost predicate OnlyMoved(h: int, a: HandleTable, b: HandleTable) {
    && a.Has(h) && b.Has(h) && b.vol == a.vol && b.rootLbas == a.rootLbas && b.extents == a.extents
    && SameFile(a.Data(h), b.Data(h), a.Lbas(h))
    && if h == ROOT_DIRECTORY_HANDLE then b.files == a.files
       else b.root == a.root && |b.files| == |a.files| && b.files == a.files[h := b.files[h]]
  }

  lemma OnlyMovedTransitive(h: int, a: HandleTable, b: HandleTable, c: HandleTable)
    requires OnlyMoved(h, a, b) && OnlyMoved(h, b, c)
    ensures OnlyMoved(h, a, c)
  {
  }

  ghost predicate AllInUse(files: seq<FileData>) {
    forall i | 0 <= i < |files| :: files[i].inUse
  }

  /** No open handle is touched. */
  ghost predicate Opens(files: seq<FileData>, files': seq<FileData>, extents: seq<Extent>, extents': seq<Extent>) {
    && |files'| == |files| == |extents'| == |extents|
    && forall i | 0 <= i < |files| && files[i].inUse :: files'[i] == files[i] && extents'[i] == extents[i]
  }

  lemma FirstClusterOk(v: Volume, e: DirEntry, chain: seq<u32>)
    requires Formatted(v) && EntryOk(v, e, chain)
    ensures chain != [] ==> SectorLba(v, FirstCluster(e), 0) < |v.disk|
  {
    if chain != [] {
      assert ClusterOk(v, chain[0]);
      LbaNoWrap(v, chain[0], 0);
    }
  }

  /** A newly opened handle is a good cursor at the start of the entry's bytes. */
  lemma FreshFileOk(v: Volume, e: DirEntry, chain: seq<u32>, fd: FileData)
    requires Formatted(v) && EntryOk(v, e, chain)
    requires var c := FirstCluster(e);
             && SectorLba(v, c, 0) < |v.disk|
             && fd == FileData(v.disk[SectorLba(v, c, 0)], IsDirEntry(e), 0, e.size, true, c, c, 0)
    ensures var x := EntryExtent(v, e, chain);
            && FileOk(v, fd, x) && Buffered(v, fd, x.lbas)
            && StreamOf(v, fd, x.lbas) == Stream(EntryData(v, e, chain), 0)
  {
    var x := EntryExtent(v, e, chain);
    if chain != [] {
      SectorsOnVolume(v, chain);
      SectorsEmpty(v, chain);
      Divide(0, 0, 0, v.perCluster);
      OnSector(v, x, 0, 0);
      hide Sectors, SectorLba, FirstSector, Clusters;
      assert CursorAt(v, fd, x, 0);
    }
    var c := Content(v, x.lbas);
    assert c[..|c|] == c;
  }

  lemma RootCloses(v: Volume, fd: FileData, lbas: seq<nat>)
    requires Formatted(v) && RootOk(v, fd, lbas) && fd.size > 0
    ensures lbas != [] && lbas[0] < |v.disk|
    ensures RootOk(v, fd.(position := 0, current := fd.first), lbas) <==> fd.buffer == v.disk[lbas[0]]
    ensures fd.position < Min(SECTOR_SIZE, fd.size) ==> fd.buffer == v.disk[lbas[0]]
  {
  }

  lemma FreshRootOk(v: Volume, b: Boot, fd: FileData)
    requires Formatted(v) && HasRootRegion(v.disk, b) && RootLba(b) < |v.disk|
    requires fd == FileData(v.disk[RootLba(b)], true, 0, RootDirSize(b), true, RootLba(b), RootLba(b), 0)
    ensures var lbas := Consecutive(RootLba(b), RootDirSectors(b));
            && RootOk(v, fd, lbas) && Buffered(v, fd, lbas) && OnVolume(v, lbas)
            && StreamOf(v, fd, lbas) == Stream(Content(v, lbas)[..RootDirSize(b)], 0)
  {
    hide Content;
    RegionsInOrder(v.disk, b);
  }

  lemma TypeIsKnown(b: Boot)
    requires Divides(b)
    ensures DetectType(b) in {12, 16, 32}
  {
  }

  lemma CursorCluster(v: Volume, fd: FileData, x: Extent, n: nat)
    requires Formatted(v) && CursorAt(v, fd, x, n)
    ensures fd.sector < v.perCluster && ClusterOf(v, n) < |x.chain| && x.endless == Unbounded(fd)
    ensures fd.current == x.chain[ClusterOf(v, n)] < END_OF_CHAIN && Reachable(v, fd.current)
  {
    assert ClusterOk(v, fd.current);
  }

  /** The one lookup that is made after the last sector of a cluster. */
  lemma OneLookup(v: Volume, fd: FileData, x: Extent, n: nat, window: u32)
    requires Formatted(v) && n > 0 && CursorAt(v, fd, x, n - 1) && fd.sector + 1 >= v.perCluster
    requires Seen(v, x, ClusterOf(v, n - 1), ClusterOf(v, n), window)
    ensures LookupOk(v, x, ClusterOf(v, n - 1), window)
    ensures WindowOver(v, x, ClusterOf(v, n - 1), ClusterOf(v, n), window) == WindowAfter(v, fd.current, window)
  {
    OneSectorOn(v, n - 1);
    var a := ClusterOf(v, n - 1);
    hide LookupOk, ExtentOk, ClusterOf, SectorOf, WindowAfter;
    assert WindowOver(v, x, a + 1, a + 1, WindowAfter(v, x.chain[a], window)) == WindowAfter(v, x.chain[a], window);
  }

  /** The next sector in the same cluster, once read, makes a good cursor again, and takes no
      lookup. */
  lemma SectorFollows(v: Volume, fd: FileData, x: Extent, n: nat, window: u32)
    requires Formatted(v) && OnVolume(v, x.lbas) && AtBoundary(fd, x.lbas, n) && CursorAt(v, fd, x, n - 1)
    requires fd.sector + 1 < v.perCluster
    ensures var fd' := fd.(sector := fd.sector + 1);
            var lba := SectorLba(v, fd'.current, fd'.sector);
            && lba < |v.disk| && FileOk(v, fd'.(buffer := v.disk[lba]), x)
            && SameFile(fd, fd'.(buffer := v.disk[lba]), x.lbas)
            && (Unbounded(fd) ==> fd.position < Limit(fd, x.lbas))
    ensures WindowOver(v, x, ClusterOf(v, n - 1), ClusterOf(v, n), window) == window
  {
    hide SectorLba, CursorAt, FileOk, ClusterOf;
    var fd' := fd.(sector := fd.sector + 1);
    NextInCluster(v, fd, fd', x, n);
    NextInCluster(v, fd, fd'.(buffer := v.disk[x.lbas[n]]), x, n);
  }

  /** So does the first sector of the next cluster. */
  lemma ClusterFollows(v: Volume, fd: FileData, x: Extent, n: nat)
    requires Formatted(v) && OnVolume(v, x.lbas) && AtBoundary(fd, x.lbas, n) && CursorAt(v, fd, x, n - 1)
    requires fd.sector + 1 == v.perCluster && ClusterOf(v, n - 1) + 1 < |x.chain|
    ensures var fd' := fd.(sector := 0, current := x.chain[ClusterOf(v, n - 1) + 1]);
            var lba := SectorLba(v, fd'.current, 0);
            && fd'.current < END_OF_CHAIN && lba < |v.disk| && FileOk(v, fd'.(buffer := v.disk[lba]), x)
            && SameFile(fd, fd'.(buffer := v.disk[lba]), x.lbas)
            && (Unbounded(fd) ==> fd.position < Limit(fd, x.lbas))
  {
    hide SectorLba, CursorAt, FileOk, ClusterOf;
    var fd' := fd.(sector := 0, current := x.chain[ClusterOf(v, n - 1) + 1]);
    NextIsCluster(v, fd, fd', x, n);
    NextIsCluster(v, fd, fd'.(buffer := v.disk[x.lbas[n]]), x, n);
  }

  /** The lookups up to one position, and those from there on. */
  lemma LookupsSplit(v: Volume, x: Extent, p: nat, m: nat, q: nat, window: u32)
    requires Formatted(v) && p <= m <= q && Seen(v, x, LookupsTo(v, p), LookupsTo(v, q), window)
    ensures Seen(v, x, LookupsTo(v, p), LookupsTo(v, m), window)
    ensures var w := WindowOver(v, x, LookupsTo(v, p), LookupsTo(v, m), window);
            && Seen(v, x, LookupsTo(v, m), LookupsTo(v, q), w)
            && WindowOver(v, x, LookupsTo(v, p), LookupsTo(v, q), window)
                == WindowOver(v, x, LookupsTo(v, m), LookupsTo(v, q), w)
  {
    InOrder(v, p / SECTOR_SIZE, m / SECTOR_SIZE);
    InOrder(v, m / SECTOR_SIZE, q / SECTOR_SIZE);
    hide ClusterOf, Seen, WindowOver;
    SeenSplit(v, x, LookupsTo(v, p), LookupsTo(v, m), LookupsTo(v, q), window);
  }

  /** A copy takes a lookup only at a sector boundary, if at all. */
  lemma OneCopy(v: Volume, x: Extent, p: nat, take: nat, window: u32)
    requires v.perCluster > 0 && take <= SECTOR_SIZE - p % SECTOR_SIZE
    ensures if take == SECTOR_SIZE - p % SECTOR_SIZE then
              LookupsTo(v, p) == ClusterOf(v, p / SECTOR_SIZE)
              && LookupsTo(v, p + take) == ClusterOf(v, p / SECTOR_SIZE + 1)
            else
              WindowOver(v, x, LookupsTo(v, p), LookupsTo(v, p + take), window) == window
  {
    hide ClusterOf;
  }

  lemma NoLookups(v: Volume, x: Extent, p: nat, q: nat, window: u32)
    requires v.perCluster > 0 && p == q
    ensures WindowOver(v, x, LookupsTo(v, p), LookupsTo(v, q), window) == window
  {
  }

  /** Where the entry's bytes are in the window that contains its first byte. */
  lemma EntryInWindow(v: Volume, cluster: u32, p: u32)
    requires Formatted(v) && v.reserved + p + FAT_CACHE_SIZE <= |v.disk|
    requires p * SECTOR_SIZE <= EntryIndex(v.fatType, cluster) < p * SECTOR_SIZE + CACHE_BYTES
    ensures var w, i := Window(v, p), EntryIndex(v.fatType, cluster);
            var k := i - p * SECTOR_SIZE;
            && OnDisk(v, i)
            && (v.fatType == 12 ==> w[k] == FatByte(v, i))
            && (v.fatType == 12 && k + 1 < CACHE_BYTES ==> OnDisk(v, i + 1) && w[k + 1] == FatByte(v, i + 1))
            && (v.fatType == 16 ==> k + 2 <= CACHE_BYTES && OnDisk(v, i + 1) && w[k..k + 2] == FatBytes(v, i, 2))
            && (v.fatType == 32 ==> k + 4 <= CACHE_BYTES && OnDisk(v, i + 3) && w[k..k + 4] == FatBytes(v, i, 4))
  {
    var i := EntryIndex(v.fatType, cluster);
    var k := i - p * SECTOR_SIZE;
    EntryAligned(v.fatType, cluster, p);
    hide Window, FatByte, FatBytes, EntryIndex, OnDisk, Formatted;
    WindowBytes(v, p, i, 1);
    if v.fatType == 12 {
      if k + 1 < CACHE_BYTES { WindowBytes(v, p, i, 2); }
    } else if v.fatType == 16 {
      WindowBytes(v, p, i, 2);
    } else {
      WindowBytes(v, p, i, 4);
    }
  }

  /** An entry of 16 or 32 bits does not cross the end of a window. */
  lemma EntryAligned(fatType: nat, cluster: u32, p: u32)
    requires EntryIndex(fatType, cluster) < p * SECTOR_SIZE + CACHE_BYTES
    ensures fatType == 16 ==> EntryIndex(fatType, cluster) + 2 <= p * SECTOR_SIZE + CACHE_BYTES
    ensures fatType != 12 && fatType != 16 ==> EntryIndex(fatType, cluster) + 4 <= p * SECTOR_SIZE + CACHE_BYTES
  {
    hide EntryIndex;
  }

  lemma WindowIsSectors(v: Volume, p: nat)
    requires Formatted(v) && v.reserved + p + FAT_CACHE_SIZE <= |v.disk|
    ensures var l := v.reserved + p;
            v.disk[l] + v.disk[l + 1] + v.disk[l + 2] + v.disk[l + 3] + v.disk[l + 4] == Window(v, p)
  {
    var l := v.reserved + p;
    var w := v.disk[l] + v.disk[l + 1] + v.disk[l + 2] + v.disk[l + 3] + v.disk[l + 4];
    forall k | 0 <= k < CACHE_BYTES ensures w[k] == Window(v, p)[k] {
      assert Window(v, p)[k] == FatByte(v, p * SECTOR_SIZE + k);
      assert (p * SECTOR_SIZE + k) / SECTOR_SIZE == p + k / SECTOR_SIZE;
      assert (p * SECTOR_SIZE + k) % SECTOR_SIZE == k % SECTOR_SIZE;
    }
  }

  /** A cached window holds the bytes of the table on disk. */
  lemma WindowBytes(v: Volume, p: nat, i: nat, n: nat)
    requires Formatted(v) && v.reserved + p + FAT_CACHE_SIZE <= |v.disk|
    requires 0 < n && p * SECTOR_SIZE <= i && i + n <= p * SECTOR_SIZE + CACHE_BYTES
    ensures OnDisk(v, i + n - 1)
    ensures var k := i - p * SECTOR_SIZE; Window(v, p)[k..k + n] == FatBytes(v, i, n)
    ensures var w, k := Window(v, p), i - p * SECTOR_SIZE;
            w[k] == FatByte(v, i) && (n > 1 ==> w[k + 1] == FatByte(v, i + 1))
  {
    var w, k, b := Window(v, p), i - p * SECTOR_SIZE, FatBytes(v, i, n);
    forall j | 0 <= j < n ensures w[k + j] == b[j] {
      assert b[j] == FatByte(v, i + j);
    }
    assert w[k..k + n] == b;
    assert w[k] == b[0];
    if n > 1 { assert w[k + 1] == b[1]; }
  }
}

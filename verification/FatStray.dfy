/** Reads whose lookups stray from the chain on disk: what they deliver, and when it is the file. */
module FatStray {
  import opened Bytes
  import opened FatVolume
  import opened FatFile
  import opened FatLookups
  import opened FatHandle
  import opened FatReader

  // ----- the chain that is found

  /** The first n clusters that lookups find from cluster c on, beginning with the window at a
      position. */
  ghost function Found(v: Volume, c: u32, n: nat, window: u32): (chain: seq<u32>)
    requires Formatted(v)
    ensures |chain| <= n && (n > 0 ==> chain != [] && chain[0] == c)
    decreases n
  {
    if n == 0 then []
    else if n == 1 || !Reachable(v, c) then [c]
    else [c] + Found(v, CachedNext(v, c, window), n - 1, WindowAfter(v, c, window))
  }

  /** On good clusters there are n of them. */
  lemma {:induction false} FoundAll(v: Volume, c: u32, n: nat, window: u32)
    requires Formatted(v) && Clusters(v, Found(v, c, n, window))
    ensures |Found(v, c, n, window)| == n
    decreases n
  {
    if n > 1 {
      var chain := Found(v, c, n, window);
      assert ClusterOk(v, chain[0]);
      hide ClusterOk, CachedNext, WindowAfter;
      var more := Found(v, CachedNext(v, c, window), n - 1, WindowAfter(v, c, window));
      assert chain == [c] + more && forall i | 0 <= i < |more| :: more[i] == chain[i + 1];
      FoundAll(v, CachedNext(v, c, window), n - 1, WindowAfter(v, c, window));
    }
  }

  /** A file with a size that is on these clusters is what the lookups see. */
  lemma {:induction false} FoundIsSeen(v: Volume, x: Extent, a: nat, b: nat, window: u32)
    requires Formatted(v) && Clusters(v, x.chain) && !x.endless && a <= |x.chain|
    requires a < |x.chain| ==> x.chain[a..] == Found(v, x.chain[a], |x.chain| - a, window)
    ensures Seen(v, x, a, b, window)
    decreases |x.chain| - a
  {
    if a < b && a < |x.chain| {
      var c := x.chain[a];
      assert ClusterOk(v, c);
      hide ClusterOk, CachedNext, WindowAfter, Clusters;
      if a + 1 < |x.chain| {
        assert x.chain[a..][1..] == x.chain[a + 1..];
        assert x.chain[a + 1..][0] == x.chain[a + 1];
      }
      FoundIsSeen(v, x, a + 1, b, WindowAfter(v, c, window));
    }
  }

  /** What the lookups see is what they find. */
  lemma {:induction false} SeenIsFound(v: Volume, x: Extent, a: nat, window: u32)
    requires Formatted(v) && a < |x.chain| && Seen(v, x, a, |x.chain|, window)
    ensures x.chain[a..] == Found(v, x.chain[a], |x.chain| - a, window)
    decreases |x.chain| - a
  {
    hide CachedNext, WindowAfter;
    if a + 1 < |x.chain| {
      SeenIsFound(v, x, a + 1, WindowAfter(v, x.chain[a], window));
      assert x.chain[a..] == [x.chain[a]] + x.chain[a + 1..];
    } else {
      assert x.chain[a..] == [x.chain[a]];
    }
  }

  /** They find the chain on disk exactly when every lookup that matters agrees with the table. */
  lemma FoundExact(v: Volume, x: Extent, window: u32)
    requires Formatted(v) && OnTable(v, x) && !x.endless && x.chain != []
    ensures Found(v, x.chain[0], |x.chain|, window) == x.chain <==> AllAgree(v, x, 0, |x.chain|, window)
  {
    SeenExact(v, x, 0, |x.chain|, window);
    assert x.chain[0..] == x.chain;
    if Seen(v, x, 0, |x.chain|, window) {
      SeenIsFound(v, x, 0, window);
    } else if Found(v, x.chain[0], |x.chain|, window) == x.chain {
      FoundIsSeen(v, x, 0, |x.chain|, window);
    }
  }

  // ----- what is read

  /** Two lists of sectors hold the same first q bytes. */
  ghost predicate SameSectors(v: Volume, a: seq<nat>, b: seq<nat>, q: nat)
    requires Formatted(v) && OnVolume(v, a) && OnVolume(v, b)
    requires q <= SECTOR_SIZE * |a| && q <= SECTOR_SIZE * |b|
  {
    forall n: nat | n < |a| && n < |b| && n * SECTOR_SIZE < q ::
      var k := Min(SECTOR_SIZE, q - n * SECTOR_SIZE);
      v.disk[a[n]][..k] == v.disk[b[n]][..k]
  }

  lemma SectorOfContent(v: Volume, a: seq<nat>, b: seq<nat>, q: nat, n: nat, k: nat)
    requires Formatted(v) && OnVolume(v, a) && OnVolume(v, b) && n < |a| && n < |b| && k <= SECTOR_SIZE
    requires q <= SECTOR_SIZE * |a| && q <= SECTOR_SIZE * |b| && Content(v, a)[..q] == Content(v, b)[..q]
    requires n * SECTOR_SIZE + k <= q
    ensures v.disk[a[n]][..k] == v.disk[b[n]][..k]
  {
    hide Content, OnVolume;
    FrontOfSector(v, a, n, k);
    FrontOfSector(v, b, n, k);
    FrontSlice(Content(v, a), q, n * SECTOR_SIZE, k);
    FrontSlice(Content(v, b), q, n * SECTOR_SIZE, k);
  }

  lemma ContentToSectors(v: Volume, a: seq<nat>, b: seq<nat>, q: nat)
    requires Formatted(v) && OnVolume(v, a) && OnVolume(v, b)
    requires q <= SECTOR_SIZE * |a| && q <= SECTOR_SIZE * |b| && Content(v, a)[..q] == Content(v, b)[..q]
    ensures SameSectors(v, a, b, q)
  {
    hide Content;
    forall n: nat | n < |a| && n < |b| && n * SECTOR_SIZE < q
      ensures var k := Min(SECTOR_SIZE, q - n * SECTOR_SIZE); v.disk[a[n]][..k] == v.disk[b[n]][..k]
    {
      SectorOfContent(v, a, b, q, n, Min(SECTOR_SIZE, q - n * SECTOR_SIZE));
    }
  }

  /** Byte j of sector n of the contents. */
  lemma ByteOfContent(v: Volume, a: seq<nat>, b: seq<nat>, n: nat, k: nat, j: nat)
    requires Formatted(v) && OnVolume(v, a) && OnVolume(v, b) && n < |a| && n < |b| && j < k <= SECTOR_SIZE
    requires v.disk[a[n]][..k] == v.disk[b[n]][..k]
    ensures n * SECTOR_SIZE + j < |Content(v, a)| && n * SECTOR_SIZE + j < |Content(v, b)|
    ensures Content(v, a)[n * SECTOR_SIZE + j] == Content(v, b)[n * SECTOR_SIZE + j]
  {
    hide Content, OnVolume;
    var o := n * SECTOR_SIZE;
    FrontOfSector(v, a, n, k);
    FrontOfSector(v, b, n, k);
    assert Content(v, a)[o..o + k][j] == Content(v, b)[o..o + k][j];
  }

  lemma SameAt(v: Volume, a: seq<nat>, b: seq<nat>, q: nat, i: nat)
    requires Formatted(v) && OnVolume(v, a) && OnVolume(v, b)
    requires q <= SECTOR_SIZE * |a| && q <= SECTOR_SIZE * |b| && SameSectors(v, a, b, q) && i < q
    ensures Content(v, a)[i] == Content(v, b)[i]
  {
    hide Content, OnVolume;
    var n: nat := i / SECTOR_SIZE;
    var k := Min(SECTOR_SIZE, q - n * SECTOR_SIZE);
    ByteOfContent(v, a, b, n, k, i % SECTOR_SIZE);
  }

  /** Exactly then their contents agree. */
  lemma SameContent(v: Volume, a: seq<nat>, b: seq<nat>, q: nat)
    requires Formatted(v) && OnVolume(v, a) && OnVolume(v, b)
    requires q <= SECTOR_SIZE * |a| && q <= SECTOR_SIZE * |b|
    ensures Content(v, a)[..q] == Content(v, b)[..q] <==> SameSectors(v, a, b, q)
  {
    hide Content, SameSectors;
    if Content(v, a)[..q] == Content(v, b)[..q] {
      ContentToSectors(v, a, b, q);
    }
    if SameSectors(v, a, b, q) {
      forall i | 0 <= i < q ensures Content(v, a)[i] == Content(v, b)[i] {
        SameAt(v, a, b, q, i);
      }
    }
  }

  lemma FrontOfSector(v: Volume, lbas: seq<nat>, n: nat, k: nat)
    requires Formatted(v) && OnVolume(v, lbas) && n < |lbas| && k <= SECTOR_SIZE
    ensures n * SECTOR_SIZE + k <= |Content(v, lbas)|
    ensures Content(v, lbas)[n * SECTOR_SIZE..n * SECTOR_SIZE + k] == v.disk[lbas[n]][..k]
  {
    ContentOfSector(v, lbas, n);
    SliceOfSlice(Content(v, lbas), n * SECTOR_SIZE, (n + 1) * SECTOR_SIZE, 0, k);
    hide Content;
  }

  lemma FrontSlice(c: seq<byte>, q: nat, o: nat, k: nat)
    requires o + k <= q <= |c|
    ensures c[..q][o..o + k] == c[o..o + k]
  {
  }

  /** A file with a size, and the clusters that lookups find in place of its own. */
  ghost predicate Stray(v: Volume, e: DirEntry, chain: seq<u32>, seen: seq<u32>) {
    && Formatted(v) && e.size > 0 && EntryOk(v, e, chain)
    && Clusters(v, seen) && |seen| == |chain| && seen[0] == chain[0]
  }

  lemma StrayOk(v: Volume, e: DirEntry, chain: seq<u32>, seen: seq<u32>)
    requires Stray(v, e, chain, seen)
    ensures EntryOk(v, e, seen) && |EntryData(v, e, chain)| == |EntryData(v, e, seen)| == e.size
    ensures OnVolume(v, Sectors(v, chain)) && OnVolume(v, Sectors(v, seen))
    ensures |Sectors(v, seen)| == |Sectors(v, chain)| && e.size <= SECTOR_SIZE * |Sectors(v, chain)|
    ensures EntryData(v, e, chain) == Content(v, Sectors(v, chain))[..e.size]
    ensures EntryData(v, e, seen) == Content(v, Sectors(v, seen))[..e.size]
  {
    SectorCount(v, chain);
    SectorCount(v, seen);
    SectorsOnVolume(v, chain);
    SectorsOnVolume(v, seen);
    hide Sectors, Content, Clusters;
  }

  /** The same number of bytes of both, from the start. */
  lemma StrayData(v: Volume, e: DirEntry, chain: seq<u32>, seen: seq<u32>, q: nat)
    requires Stray(v, e, chain, seen) && q <= e.size
    ensures EntryOk(v, e, seen) && OnVolume(v, Sectors(v, chain)) && OnVolume(v, Sectors(v, seen))
    ensures q <= SECTOR_SIZE * |Sectors(v, chain)| && q <= SECTOR_SIZE * |Sectors(v, seen)|
    ensures |EntryData(v, e, chain)| == |EntryData(v, e, seen)| == e.size
    ensures EntryData(v, e, seen)[..q] == EntryData(v, e, chain)[..q] <==>
            SameSectors(v, Sectors(v, seen), Sectors(v, chain), q)
  {
    StrayOk(v, e, chain, seen);
    SameContent(v, Sectors(v, seen), Sectors(v, chain), q);
    hide EntryOk, EntryData, Sectors, Content, SameSectors, OnVolume, Clusters;
    TakeTwice(Content(v, Sectors(v, chain)), e.size, q);
    TakeTwice(Content(v, Sectors(v, seen)), e.size, q);
  }

  lemma TakeTwice(c: seq<byte>, n: nat, q: nat)
    requires q <= n <= |c|
    ensures c[..n][..q] == c[..q]
  {
  }

  lemma SeenFromStart(v: Volume, e: DirEntry, chain: seq<u32>, seen: seq<u32>, q: nat, window: u32)
    requires Stray(v, e, chain, seen) && seen == Found(v, chain[0], |chain|, window)
    ensures EntryOk(v, e, seen) && Seen(v, EntryExtent(v, e, seen), 0, LookupsTo(v, q), window)
  {
    StrayOk(v, e, chain, seen);
    assert seen[0..] == seen;
    FoundIsSeen(v, EntryExtent(v, e, seen), 0, LookupsTo(v, q), window);
    hide EntryOk, Sectors, Clusters;
  }

  /** Opening a file with a size and reading it delivers the file on the clusters that the lookups
      find. So the read is right exactly when the sectors of these clusters hold the same bytes, up
      to where it ends, as those of the file. */
  method ReadAsFound(fat: Driver, e: DirEntry, count: u32, ghost chain: seq<u32>, ghost seen: seq<u32>)
      returns (h: int, data: seq<byte>)
    requires fat.Valid() && Stray(fat.vol, e, chain, seen) && !AllInUse(fat.files)
    requires seen == Found(fat.vol, chain[0], |chain|, fat.cachePosition)
    modifies fat`root, fat`files, fat`extents, fat`cache, fat`cachePosition
    ensures h >= 0 && fat.vol == old(fat.vol) && EntryOk(fat.vol, e, seen)
    ensures |EntryData(fat.vol, e, seen)| == |EntryData(fat.vol, e, chain)| == e.size
    ensures data == EntryData(fat.vol, e, seen)[..Min(count, e.size)]
    ensures OnVolume(fat.vol, Sectors(fat.vol, seen)) && OnVolume(fat.vol, Sectors(fat.vol, chain))
    ensures |data| <= SECTOR_SIZE * |Sectors(fat.vol, seen)| && |data| <= SECTOR_SIZE * |Sectors(fat.vol, chain)|
    ensures data == EntryData(fat.vol, e, chain)[..Min(count, e.size)] <==>
            SameSectors(fat.vol, Sectors(fat.vol, seen), Sectors(fat.vol, chain), |data|)
  {
    ghost var v, q: nat := fat.vol, Min(count, e.size);
    StrayData(v, e, chain, seen, q);
    SeenFromStart(v, e, chain, seen, q, fat.cachePosition);
    FirstClusterOk(v, e, seen);
    AtZero(v);
    hide Stray, Found, EntryOk, EntryData, EntryExtent, FirstSector, StreamOf, Content, Sectors, SameSectors, OnVolume,
      Seen, LookupsTo, Driver.Ready, AllInUse, SectorLba, FileOk;
    h := fat.OpenEntry(e, seen);
    data := fat.Read(h, count);
  }

  lemma AtZero(v: Volume)
    requires v.perCluster > 0
    ensures LookupsTo(v, 0) == 0
  {
  }

  /** The first input that fails: a FAT12 file in cluster 1706 that goes on, read while the window
      starts with the table. Its second cluster is taken to be the low eight bits of the entry. */
  lemma StrayFrom1706(v: Volume, chain: seq<u32>)
    requires Formatted(v) && v.fatType == 12 && Reachable(v, 1706) && |chain| == 2 && chain[0] == 1706
    ensures var stray: u32 := FatByte(v, 2559); Found(v, chain[0], 2, 0) == [1706, stray]
    ensures Clusters(v, chain) && Linked(v, chain) ==>
              (Found(v, chain[0], 2, 0) == chain <==> FatByte(v, 2560) % 0x10 == 0)
  {
    Cluster1706(v);
    hide CachedNext, WindowAfter;
    assert Found(v, CachedNext(v, 1706, 0), 1, 0) == [CachedNext(v, 1706, 0)];
    if Clusters(v, chain) && Linked(v, chain) {
      assert Next(v, chain[0]) == chain[1];
      assert chain == [1706, chain[1]];
    }
  }
}

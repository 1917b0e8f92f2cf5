/** What the lookups of the driver find in a table that was written entry by entry, and what they make
    of a file that was laid out in clusters. */
module FatTable {
  import opened Bytes
  import opened FatVolume
  import opened FatFile
  import opened FatLookups
  import opened FatHandle
  import opened FatReader
  import opened FatPath
  import opened FatStart

  // ----- writing a table

  /** The entries have the width of the table. */
  predicate Entries(fatType: nat, t: seq<u32>) {
    fatType == 12 || fatType == 16 ==> forall k | 0 <= k < |t| :: t[k] < if fatType == 12 then 0x1000 else 0x1_0000
  }

  /** Two 12-bit entries in three bytes, the first one in the low bits. */
  function Fat12Bytes(t: seq<u32>): (b: seq<byte>)
    requires Entries(12, t)
    ensures |b| == |t| + (|t| + 1) / 2
  {
    if t == [] then []
    else if |t| == 1 then [t[0] % 0x100, t[0] / 0x100]
    else [t[0] % 0x100, t[0] / 0x100 + t[1] % 0x10 * 0x10, t[1] / 0x10] + Fat12Bytes(t[2..])
  }

  /** One 16-bit entry in two bytes. */
  function Fat16Bytes(t: seq<u32>): (b: seq<byte>)
    requires Entries(16, t)
    ensures |b| == 2 * |t|
  {
    if t == [] then [] else [t[0] % 0x100, t[0] / 0x100] + Fat16Bytes(t[1..])
  }

  function TableBytes(fatType: nat, t: seq<u32>): (b: seq<byte>)
    requires fatType in {12, 16, 32} && Entries(fatType, t)
  {
    if fatType == 12 then Fat12Bytes(t) else if fatType == 16 then Fat16Bytes(t) else WordBytes(t)
  }

  /** Where entry k starts. */
  function StartOf(fatType: nat, k: nat): nat {
    if fatType == 12 then k + k / 2 else if fatType == 16 then 2 * k else 4 * k
  }

  /** The bytes are on the disk, from a sector on. */
  ghost predicate LieAt(disk: seq<seq<byte>>, lba: nat, bytes: seq<byte>)
    requires IsDisk(disk)
  {
    forall i | 0 <= i < |bytes| ::
      lba + i / SECTOR_SIZE < |disk| && disk[lba + i / SECTOR_SIZE][i % SECTOR_SIZE] == bytes[i]
  }

  /** The bytes are on the disk, from the first sector of the table on. */
  ghost predicate Laid(v: Volume, table: seq<byte>)
    requires Formatted(v)
  {
    LieAt(v.disk, v.reserved, table)
  }

  /** The table t is on the disk, and it is not so long that offsets wrap. */
  ghost predicate Written(v: Volume, t: seq<u32>)
    requires Formatted(v)
  {
    && Entries(v.fatType, t) && Laid(v, TableBytes(v.fatType, t))
    && (if v.fatType == 12 then 3 else if v.fatType == 16 then 2 else 4) * |t| <= TWO32
  }

  /** Five sectors from the one with the start of entry k on are on the disk. */
  ghost predicate WindowThere(v: Volume, k: nat) {
    v.reserved + StartOf(v.fatType, k) / SECTOR_SIZE + FAT_CACHE_SIZE <= |v.disk|
  }

  /** An entry, with end-of-chain values extended to 32 bits. */
  function Extended(fatType: nat, e: u32): u32 {
    if fatType == 12 && 0xFF8 <= e < 0x1000 then e + 0xFFFF_F000
    else if fatType == 16 && 0xFFF8 <= e < 0x1_0000 then e + 0xFFFF_0000
    else e
  }

  // ----- reading it

  /** Twelve of the 16 bits of two bytes: the low ones or the high ones. */
  function Unpacked(low: bool, b0: int, b1: int): int {
    if low then b0 + b1 % 0x10 * 0x100 else b0 / 0x10 + b1 * 0x10
  }

  lemma {:induction false} Fat12At(t: seq<u32>, k: nat)
    requires Entries(12, t) && k < |t|
    ensures var b, i := Fat12Bytes(t), k + k / 2;
            && i + 1 < |b|
            && t[k] == Unpacked(k % 2 == 0, b[i], b[i + 1])
    decreases k
  {
    hide Fat12Bytes, Unpacked;
    if k >= 2 {
      Fat12At(t[2..], k - 2);
      PairsBefore(k);
      Behind12(t, k + k / 2);
      Behind12(t, k + k / 2 + 1);
    } else if |t| > 1 {
      First12(t);
    } else {
      Only12(t);
    }
  }

  lemma PairsBefore(k: nat)
    requires k >= 2
    ensures (k - 2) + (k - 2) / 2 == k + k / 2 - 3 && (k - 2) % 2 == k % 2
  {
  }

  lemma Only12(t: seq<u32>)
    requires Entries(12, t) && |t| == 1
    ensures t[0] == Unpacked(true, Fat12Bytes(t)[0], Fat12Bytes(t)[1])
  {
  }

  lemma Behind12(t: seq<u32>, j: nat)
    requires Entries(12, t) && |t| >= 2 && 3 <= j < |t| + (|t| + 1) / 2
    ensures j - 3 < |Fat12Bytes(t[2..])| && Fat12Bytes(t)[j] == Fat12Bytes(t[2..])[j - 3]
  {
    var a, b := [t[0] % 0x100, t[0] / 0x100 + t[1] % 0x10 * 0x10, t[1] / 0x10], Fat12Bytes(t[2..]);
    assert Fat12Bytes(t) == a + b;
    hide Fat12Bytes;
    assert (a + b)[j] == b[j - 3];
  }

  lemma First12(t: seq<u32>)
    requires Entries(12, t) && |t| >= 2
    ensures var b := Fat12Bytes(t);
            t[0] == Unpacked(true, b[0], b[1]) && t[1] == Unpacked(false, b[1], b[2])
  {
    hide Fat12Bytes;
    Front12(t);
    var b := Fat12Bytes(t);
    Packed(t[0], t[1], b[0], b[1], b[2]);
  }

  lemma Front12(t: seq<u32>)
    requires Entries(12, t) && |t| >= 2
    ensures var b := Fat12Bytes(t);
            b[0] == t[0] % 0x100 && b[1] == t[0] / 0x100 + t[1] % 0x10 * 0x10 && b[2] == t[1] / 0x10
  {
  }

  lemma Packed(x: nat, y: nat, b0: int, b1: int, b2: int)
    requires x < 0x1000 && b0 == x % 0x100 && b1 == x / 0x100 + y % 0x10 * 0x10 && b2 == y / 0x10
    ensures x == b0 + b1 % 0x10 * 0x100 && y == b1 / 0x10 + b2 * 0x10
  {
    assert b1 % 0x10 == x / 0x100 && b1 / 0x10 == y % 0x10;
  }

  lemma {:induction false} Fat16At(t: seq<u32>, k: nat)
    requires Entries(16, t) && k < |t|
    ensures var b := Fat16Bytes(t);
            t[k] == b[2 * k] as int + 0x100 * b[2 * k + 1] as int
    decreases k
  {
    if k >= 1 {
      Fat16At(t[1..], k - 1);
      assert t[1..][k - 1] == t[k];
      assert forall j | 2 <= j < |Fat16Bytes(t)| :: Fat16Bytes(t)[j] == Fat16Bytes(t[1..])[j - 2];
    }
  }

  lemma LaidByte(v: Volume, table: seq<byte>, i: nat)
    requires Formatted(v) && Laid(v, table) && i < |table|
    ensures OnDisk(v, i) && FatByte(v, i) == table[i]
  {
  }

  /** Where the driver looks for entry k. */
  lemma IndexIs(v: Volume, k: u32)
    requires v.fatType in {12, 16, 32}
    requires (if v.fatType == 12 then 3 else if v.fatType == 16 then 2 else 4) * k < TWO32
    ensures EntryIndex(v.fatType, k) == StartOf(v.fatType, k)
    ensures WindowThere(v, k) <==> Reachable(v, k)
  {
    if v.fatType == 12 {
      Index12(k);
    } else {
      assert v.fatType == 16 ==> k * 2 % TWO32 == k * 2;
      assert v.fatType == 32 ==> k * 4 % TWO32 == k * 4;
    }
  }

  lemma Index12(k: u32)
    requires 3 * k < TWO32
    ensures EntryIndex(12, k) == k + k / 2
  {
    assert k * 3 % TWO32 == k * 3;
  }

  /** What the table says comes after cluster k is its entry k, for every width. */
  lemma NextWritten(v: Volume, t: seq<u32>, k: u32)
    requires Formatted(v) && Written(v, t) && k < |t| && WindowThere(v, k)
    ensures Reachable(v, k) && Next(v, k) == Extended(v.fatType, t[k])
  {
    IndexIs(v, k);
    hide Laid, EntryIndex;
    if v.fatType == 12 {
      Next12(v, t, k);
    } else if v.fatType == 16 {
      Next16(v, t, k);
    } else {
      Next32(v, t, k);
    }
  }

  lemma Next12(v: Volume, t: seq<u32>, k: u32)
    requires Formatted(v) && v.fatType == 12 && Written(v, t) && k < |t| && Reachable(v, k)
    requires EntryIndex(12, k) == k + k / 2
    ensures Next(v, k) == Extended(12, t[k])
  {
    var b, i := Fat12Bytes(t), k + k / 2;
    Fat12At(t, k);
    LaidByte(v, b, i);
    LaidByte(v, b, i + 1);
    hide Fat12Bytes, Laid, EntryIndex, FatByte;
  }

  lemma Next16(v: Volume, t: seq<u32>, k: u32)
    requires Formatted(v) && v.fatType == 16 && Written(v, t) && k < |t| && Reachable(v, k)
    requires EntryIndex(16, k) == 2 * k
    ensures Next(v, k) == Extended(16, t[k])
  {
    var b, i := Fat16Bytes(t), 2 * k;
    Fat16At(t, k);
    LaidByte(v, b, i);
    LaidByte(v, b, i + 1);
    LowByteFirst(FatBytes(v, i, 2), 0);
    hide Fat16Bytes, Laid, EntryIndex, FatByte, Half;
  }

  lemma Next32(v: Volume, t: seq<u32>, k: u32)
    requires Formatted(v) && v.fatType == 32 && Written(v, t) && k < |t| && Reachable(v, k)
    requires EntryIndex(32, k) == 4 * k
    ensures Next(v, k) == Extended(32, t[k])
  {
    hide WordBytes, Laid, Next, Formatted, Reachable, Word, ToLE, FatByte, EntryIndex;
    Next32Is(v, k);
    WordOfBytes(t, k);
    LaidSlice(v, WordBytes(t), 4 * k);
    WholeSlice(FatBytes(v, 4 * k, 4));
    WordIs(FatBytes(v, 4 * k, 4), 0, t[k]);
  }

  lemma Next32Is(v: Volume, k: u32)
    requires Formatted(v) && v.fatType == 32 && Reachable(v, k) && EntryIndex(32, k) == 4 * k
    ensures OnDisk(v, 4 * k + 3) && Next(v, k) == Word(FatBytes(v, 4 * k, 4), 0)
  {
    hide EntryIndex, Word, FatByte;
  }

  lemma WholeSlice(e: seq<byte>)
    ensures e[0..|e|] == e
  {
  }

  lemma LaidSlice(v: Volume, table: seq<byte>, i: nat)
    requires Formatted(v) && Laid(v, table) && i + 4 <= |table|
    ensures OnDisk(v, i + 3) && FatBytes(v, i, 4) == table[i..i + 4]
  {
    hide Laid, FatByte, Formatted;
    forall m: nat | i <= m < i + 4 ensures OnDisk(v, m) && FatByte(v, m) == table[m] {
      LaidByte(v, table, m);
    }
    var l, r := FatBytes(v, i, 4), table[i..i + 4];
    assert forall j | 0 <= j < 4 :: l[j] == FatByte(v, i + j) && r[j] == table[i + j];
  }

  /** The one window from which a 12-bit entry is not read right: the one that ends between its two
      bytes. */
  predicate Splits(fatType: nat, k: nat, window: u32) {
    var i := StartOf(fatType, k);
    fatType == 12 && i % SECTOR_SIZE == SECTOR_SIZE - 1 && i / SECTOR_SIZE == window + (FAT_CACHE_SIZE - 1)
  }

  lemma CachedWritten(v: Volume, t: seq<u32>, k: u32, window: u32)
    requires Formatted(v) && Written(v, t) && k < |t| && WindowThere(v, k) && !Splits(v.fatType, k, window)
    ensures Reachable(v, k) && CachedNext(v, k, window) == Extended(v.fatType, t[k])
  {
    NextWritten(v, t, k);
    IndexIs(v, k);
    hide Next, Extended, EntryIndex, Written, Formatted;
  }

  /** FAT_NextCluster on a table that was written: the entry of the cluster, from every window but
      that one. */
  method NextInTable(fat: Driver, k: u32, ghost t: seq<u32>) returns (next: u32)
    requires CacheOk(fat.vol, fat.cache, fat.cachePosition) && Written(fat.vol, t) && k < |t| && WindowThere(fat.vol, k)
    requires !Splits(fat.vol.fatType, k, fat.cachePosition)
    modifies fat`cache, fat`cachePosition
    ensures CacheOk(fat.vol, fat.cache, fat.cachePosition) && next == Extended(fat.vol.fatType, t[k])
  {
    CachedWritten(fat.vol, t, k, fat.cachePosition);
    hide CachedNext, WindowAfter, Written, CacheOk, Extended;
    next := fat.NextCluster(k);
  }

  // ----- files

  /** The table leads from each cluster of the chain to the next one. */
  ghost predicate Leads(fatType: nat, t: seq<u32>, chain: seq<u32>) {
    && (forall a | 0 <= a < |chain| :: chain[a] < |t|)
    && forall a | 0 <= a < |chain| - 1 :: Extended(fatType, t[chain[a]]) == chain[a + 1]
  }

  /** A chain of good clusters is on a written table exactly when the table leads along it, and, for a
      directory without a size, to an end behind it. */
  lemma ChainWritten(v: Volume, t: seq<u32>, x: Extent)
    requires Formatted(v) && Written(v, t) && Clusters(v, x.chain)
    requires forall a | 0 <= a < |x.chain| :: x.chain[a] < |t|
    ensures OnTable(v, x) <==>
            && Leads(v.fatType, t, x.chain)
            && (x.endless && x.chain != [] ==> Extended(v.fatType, t[x.chain[|x.chain| - 1]]) >= END_OF_CHAIN)
  {
    forall a | 0 <= a < |x.chain|
      ensures ClusterOk(v, x.chain[a]) && Next(v, x.chain[a]) == Extended(v.fatType, t[x.chain[a]])
    {
      EntryOfCluster(v, t, x.chain[a]);
    }
    hide Written, Next, Extended, ClusterOk;
  }

  lemma EntryOfCluster(v: Volume, t: seq<u32>, c: u32)
    requires Formatted(v) && Written(v, t) && ClusterOk(v, c) && c < |t|
    ensures Next(v, c) == Extended(v.fatType, t[c])
  {
    IndexIs(v, c);
    NextWritten(v, t, c);
    hide Written, Next, Extended;
  }

  /** Byte p of a file is byte p modulo 512 of this sector. */
  function SectorOfByte(v: Volume, chain: seq<u32>, p: nat): int
    requires v.perCluster > 0 && p / SECTOR_SIZE / v.perCluster < |chain|
  {
    var n := p / SECTOR_SIZE;
    v.dataLba + (chain[n / v.perCluster] - 2) * v.perCluster + n % v.perCluster
  }

  lemma ByteOfFile(v: Volume, e: DirEntry, chain: seq<u32>, p: nat)
    requires Formatted(v) && EntryOk(v, e, chain) && p < |EntryData(v, e, chain)|
    ensures p / SECTOR_SIZE / v.perCluster < |chain| && 0 <= SectorOfByte(v, chain, p) < |v.disk|
    ensures EntryData(v, e, chain)[p] == v.disk[SectorOfByte(v, chain, p)][p % SECTOR_SIZE]
  {
    SectorsOnVolume(v, chain);
    hide Sectors, Content, Clusters;
    SectorIs(v, chain, p / SECTOR_SIZE);
    ByteOfContent(v, Sectors(v, chain), p);
  }

  lemma ByteOfContent(v: Volume, lbas: seq<nat>, p: nat)
    requires Formatted(v) && OnVolume(v, lbas) && p < |Content(v, lbas)|
    ensures Content(v, lbas)[p] == v.disk[lbas[p / SECTOR_SIZE]][p % SECTOR_SIZE]
  {
    var n, c := p / SECTOR_SIZE, Content(v, lbas);
    ContentOfSector(v, lbas, n);
    hide Content;
    assert c[p] == c[n * SECTOR_SIZE..(n + 1) * SECTOR_SIZE][p % SECTOR_SIZE];
  }

  /** The bytes are those of the file's clusters, one after the other. */
  ghost predicate InClusters(v: Volume, chain: seq<u32>, data: seq<byte>) {
    && v.perCluster > 0
    && forall p: nat | p < |data| ::
         && p / SECTOR_SIZE / v.perCluster < |chain| && 0 <= SectorOfByte(v, chain, p) < |v.disk|
         && |v.disk[SectorOfByte(v, chain, p)]| == SECTOR_SIZE
         && data[p] == v.disk[SectorOfByte(v, chain, p)][p % SECTOR_SIZE]
  }

  lemma FrontInClusters(v: Volume, chain: seq<u32>, data: seq<byte>, n: nat)
    requires InClusters(v, chain, data) && n <= |data|
    ensures InClusters(v, chain, data[..n])
  {
    hide SectorOfByte;
  }

  /** Opening and reading a file that was laid out like this delivers its bytes, cluster by cluster,
      whatever the window, if no lookup can straddle. */
  method ReadLaidOut(fat: Driver, e: DirEntry, count: u32, ghost t: seq<u32>, ghost chain: seq<u32>)
      returns (h: int, data: seq<byte>)
    requires fat.Valid() && EntryOk(fat.vol, e, chain) && e.size > 0 && !AllInUse(fat.files)
    requires Written(fat.vol, t) && Leads(fat.vol.fatType, t, chain) && Steady(fat.vol, Extent([], chain, false))
    modifies fat`root, fat`files, fat`extents, fat`cache, fat`cachePosition
    ensures 0 <= h < MAX_FILE_HANDLES && fat.vol == old(fat.vol)
    ensures |data| == Min(count, e.size) && InClusters(fat.vol, chain, data)
  {
    ghost var v, w := fat.vol, fat.cachePosition;
    ghost var c := EntryData(v, e, chain);
    FatFormatted(fat);
    hide EntryOk, EntryData, EntryExtent, FirstSector, Content, Seen, LookupsTo, AllInUse, SectorLba, Written, Leads,
      Steady, InClusters, Driver.Valid, Driver.Ready, Driver.StreamAt, Driver.SeesTo, Driver.WindowAt, Driver.Handles,
      OnlyMoved, Opens;
    SizeOfData(v, e, chain);
    LaidOutIsSeen(v, e, chain, t, Min(count, e.size), w);
    FirstClusterOk(v, e, chain);
    BytesOfFile(v, e, chain);
    FrontInClusters(v, chain, c, Min(count, e.size));
    h := fat.OpenEntry(e, chain);
    MayReadFrom(fat, h, Place(c, EntryExtent(v, e, chain)), count);
    data := fat.Read(h, count);
  }

  lemma FatFormatted(fat: Driver)
    requires fat.Valid()
    ensures Formatted(fat.vol)
  {
  }

  lemma LaidOutIsSeen(v: Volume, e: DirEntry, chain: seq<u32>, t: seq<u32>, q: nat, w: u32)
    requires Formatted(v) && EntryOk(v, e, chain) && e.size > 0
    requires Written(v, t) && Leads(v.fatType, t, chain) && Steady(v, Extent([], chain, false))
    ensures LookupsTo(v, 0) == 0 && Seen(v, EntryExtent(v, e, chain), 0, LookupsTo(v, q), w)
  {
    var x := EntryExtent(v, e, chain);
    SizeOfData(v, e, chain);
    ChainWritten(v, t, x);
    SteadyIsSeen(v, x, 0, LookupsTo(v, q), w);
    hide Written, Seen;
  }

  lemma BytesOfFile(v: Volume, e: DirEntry, chain: seq<u32>)
    requires Formatted(v) && EntryOk(v, e, chain)
    ensures InClusters(v, chain, EntryData(v, e, chain))
  {
    forall p: nat | p < |EntryData(v, e, chain)|
      ensures p / SECTOR_SIZE / v.perCluster < |chain| && 0 <= SectorOfByte(v, chain, p) < |v.disk|
      ensures EntryData(v, e, chain)[p] == v.disk[SectorOfByte(v, chain, p)][p % SECTOR_SIZE]
    {
      ByteOfFile(v, e, chain, p);
    }
    hide EntryOk, EntryData, SectorOfByte;
  }

  lemma SizeOfData(v: Volume, e: DirEntry, chain: seq<u32>)
    requires Formatted(v) && EntryOk(v, e, chain) && e.size > 0
    ensures |EntryData(v, e, chain)| == e.size && EntryExtent(v, e, chain).endless == false
    ensures EntryExtent(v, e, chain).chain == chain
  {
    SectorsOnVolume(v, chain);
  }
}

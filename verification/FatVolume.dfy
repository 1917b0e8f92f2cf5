/** A FAT volume on disk: how the table encodes cluster chains, and what a sliding window on
    the table can and cannot decode. Entry widths and end-of-chain values follow the section
    "FAT Data Structure" of the FAT32 File System Specification, version 1.03. */
module FatVolume {
  import opened Bytes

  const SECTOR_SIZE: nat := 512
  const FAT_CACHE_SIZE: nat := 5
  const CACHE_BYTES: nat := 2560
  const NO_POSITION: u32 := 0xFFFF_FFFF
  const END_OF_CHAIN: u32 := 0xFFFF_FFF8

  datatype Volume = Volume(disk: seq<seq<byte>>, fatType: nat, reserved: u32, perCluster: nat, dataLba: u32)

  /** A sequence of sectors with 32-bit numbers. */
  ghost predicate IsDisk(disk: seq<seq<byte>>) {
    |disk| < TWO32 && forall i | 0 <= i < |disk| :: |disk[i]| == SECTOR_SIZE
  }

  ghost predicate Formatted(v: Volume) {
    v.fatType in {12, 16, 32} && 0 < v.perCluster < 0x100 && IsDisk(v.disk)
  }

  // ----- entries of the table

  /** Byte offset of a cluster's entry, in 32-bit arithmetic. */
  function EntryIndex(fatType: nat, cluster: u32): (i: u32)
    ensures fatType == 16 ==> i % 2 == 0
    ensures fatType != 12 && fatType != 16 ==> i % 4 == 0
  {
    if fatType == 12 then cluster * 3 % TWO32 / 2
    else if fatType == 16 then
      Multiples(cluster, 2, 0x8000_0000);
      cluster * 2 % TWO32
    else
      Multiples(cluster, 4, 0x4000_0000);
      cluster * 4 % TWO32
  }

  /** A multiple of k stays one when it wraps. */
  lemma Multiples(n: nat, k: nat, m: nat)
    requires (k == 2 && m == 0x8000_0000) || (k == 4 && m == 0x4000_0000)
    ensures n * k % TWO32 % k == 0
  {
    var q := n * k / TWO32;
    assert n * k % TWO32 == (n - q * m) * k;
  }

  /** The value of a 12-bit entry that starts at byte b0: even clusters use the low 12 bits,
      odd ones the high 12, and end-of-chain values are extended to 32 bits. */
  function Decode12(cluster: u32, b0: byte, b1: byte): u32 {
    var e := if cluster % 2 == 0 then b0 + b1 % 0x10 * 0x100 else b0 / 0x10 + b1 * 0x10;
    if e >= 0xFF8 then e + 0xFFFF_F000 else e
  }

  function Decode16(h: u16): u32 {
    if h >= 0xFFF8 then h + 0xFFFF_0000 else h
  }

  /** The table on disk, as one byte sequence from offset i on. */
  ghost predicate OnDisk(v: Volume, i: nat) {
    v.reserved + i / SECTOR_SIZE < |v.disk|
  }

  ghost function FatByte(v: Volume, i: nat): byte
    requires Formatted(v) && OnDisk(v, i)
  {
    v.disk[v.reserved + i / SECTOR_SIZE][i % SECTOR_SIZE]
  }

  ghost function FatBytes(v: Volume, i: nat, n: nat): (b: seq<byte>)
    requires Formatted(v) && (n > 0 ==> OnDisk(v, i + n - 1))
    ensures |b| == n && forall k | 0 <= k < n :: b[k] == FatByte(v, i + k)
  {
    seq<byte>(n, k requires 0 <= k < n => FatByte(v, i + k))
  }

  /** The cache window that holds the entry's first byte is on the disk. */
  ghost predicate Reachable(v: Volume, cluster: u32) {
    v.reserved + EntryIndex(v.fatType, cluster) / SECTOR_SIZE + FAT_CACHE_SIZE <= |v.disk|
  }

  /** What the table says comes after a cluster. */
  ghost function Next(v: Volume, cluster: u32): u32
    requires Formatted(v) && Reachable(v, cluster)
  {
    var i := EntryIndex(v.fatType, cluster);
    if v.fatType == 12 then Decode12(cluster, FatByte(v, i), FatByte(v, i + 1))
    else if v.fatType == 16 then Decode16(Half(FatBytes(v, i, 2), 0))
    else Word(FatBytes(v, i, 4), 0)
  }

  // ----- the cached window

  /** The five sectors of the table from sector p on. */
  ghost function Window(v: Volume, p: nat): (w: seq<byte>)
    requires Formatted(v) && v.reserved + p + FAT_CACHE_SIZE <= |v.disk|
    ensures |w| == CACHE_BYTES
  {
    FatBytes(v, p * SECTOR_SIZE, CACHE_BYTES)
  }

  ghost predicate CacheOk(v: Volume, cache: seq<byte>, position: u32) {
    && Formatted(v) && |cache| == CACHE_BYTES
    && (position != NO_POSITION ==>
          v.reserved + position + FAT_CACHE_SIZE <= |v.disk| && cache == Window(v, position))
  }

  predicate InWindow(sector: nat, position: u32) {
    position <= sector < position + FAT_CACHE_SIZE
  }

  /** Where the window stands after looking up an entry. */
  function WindowAfter(v: Volume, cluster: u32, position: u32): u32 {
    var sector := EntryIndex(v.fatType, cluster) / SECTOR_SIZE;
    if InWindow(sector, position) then position else sector
  }

  /** The entry's second byte lies just past the window. */
  predicate Straddles(v: Volume, cluster: u32, position: u32) {
    v.fatType == 12 && EntryIndex(12, cluster) == position * SECTOR_SIZE + CACHE_BYTES - 1
  }

  /** What the cached lookup returns: past the window lies the low byte of the position. */
  ghost function CachedNext(v: Volume, cluster: u32, position: u32): u32
    requires Formatted(v) && Reachable(v, cluster)
  {
    var p := WindowAfter(v, cluster, position);
    if Straddles(v, cluster, p)
    then Decode12(cluster, FatByte(v, EntryIndex(12, cluster)), p % 0x100)
    else Next(v, cluster)
  }

  /** The bits of a 12-bit entry's second byte that belong to the entry. */
  function Relevant(cluster: u32, b1: byte): byte {
    if cluster % 2 == 0 then b1 % 0x10 else b1
  }

  lemma Decode12Injective(cluster: u32, b0: byte, b1: byte, b1': byte)
    ensures Decode12(cluster, b0, b1) == Decode12(cluster, b0, b1') <==> Relevant(cluster, b1) == Relevant(cluster, b1')
  {
  }

  /** The cached lookup agrees with the table on disk exactly when the entry does not straddle
      the end of the window or the stray byte happens to carry the same bits. */
  lemma CachedNextExact(v: Volume, cluster: u32, position: u32)
    requires Formatted(v) && Reachable(v, cluster)
    ensures var p := WindowAfter(v, cluster, position);
            CachedNext(v, cluster, position) == Next(v, cluster) <==>
            !Straddles(v, cluster, p) ||
            Relevant(cluster, p % 0x100) == Relevant(cluster, FatByte(v, EntryIndex(12, cluster) + 1))
  {
    var p := WindowAfter(v, cluster, position);
    var i := EntryIndex(12, cluster);
    if Straddles(v, cluster, p) {
      Decode12Injective(cluster, FatByte(v, i), p % 0x100, FatByte(v, i + 1));
    }
  }

  /** No window that is inside the table can end in the middle of the entry: to do so for an
      entry in the first four sectors it would have to start before the table. */
  predicate NeverStraddles(v: Volume, cluster: u32) {
    || v.fatType != 12
    || EntryIndex(12, cluster) % SECTOR_SIZE != SECTOR_SIZE - 1
    || EntryIndex(12, cluster) / SECTOR_SIZE < FAT_CACHE_SIZE - 1
  }

  /** The lookup of such an entry is right from every cache position. */
  lemma CachedNextRight(v: Volume, cluster: u32, position: u32)
    requires Formatted(v) && Reachable(v, cluster) && NeverStraddles(v, cluster)
    ensures CachedNext(v, cluster, position) == Next(v, cluster)
  {
  }

  /** A lookup is right from every cache position exactly when its entry never straddles, or
      the one window that it does straddle leaves a stray byte with the right bits. */
  lemma RightFromEverywhere(v: Volume, cluster: u32)
    requires Formatted(v) && Reachable(v, cluster)
    ensures (forall w: u32 :: CachedNext(v, cluster, w) == Next(v, cluster)) <==>
            || NeverStraddles(v, cluster)
            || var i := EntryIndex(12, cluster);
               var p := i / SECTOR_SIZE - (FAT_CACHE_SIZE - 1);
               Relevant(cluster, p % 0x100) == Relevant(cluster, FatByte(v, i + 1))
  {
    hide CachedNext, Next, Relevant;
    if NeverStraddles(v, cluster) {
      forall w: u32 ensures CachedNext(v, cluster, w) == Next(v, cluster) {
        CachedNextRight(v, cluster, w);
      }
    } else {
      var p: u32 := EntryIndex(12, cluster) / SECTOR_SIZE - (FAT_CACHE_SIZE - 1);
      forall w: u32
        ensures CachedNext(v, cluster, w) == Next(v, cluster)
             || (WindowAfter(v, cluster, w) == p && Straddles(v, cluster, p))
      {
        CachedNextExact(v, cluster, w);
      }
      CrossingCanStraddle(v, cluster);
      CachedNextExact(v, cluster, p);
      forall w: u32 | WindowAfter(v, cluster, w) == p && Straddles(v, cluster, p)
        ensures CachedNext(v, cluster, w) == Next(v, cluster) <==> CachedNext(v, cluster, p) == Next(v, cluster)
      {
        CachedNextExact(v, cluster, w);
      }
    }
  }

  /** An entry that crosses a sector boundary from the fifth sector on straddles the window
      from some position. */
  lemma CrossingCanStraddle(v: Volume, cluster: u32)
    requires !NeverStraddles(v, cluster)
    ensures var p := EntryIndex(12, cluster) / SECTOR_SIZE - (FAT_CACHE_SIZE - 1);
            WindowAfter(v, cluster, p) == p && Straddles(v, cluster, p)
  {
  }

  /** The first cluster for which this happens is 1706, when the window starts with the table:
      of its entry only the low eight bits are read, so the lookup is right exactly when the
      others are zero. */
  lemma Cluster1706(v: Volume)
    requires Formatted(v) && v.fatType == 12 && Reachable(v, 1706)
    ensures CachedNext(v, 1706, 0) == FatByte(v, 2559) < 0x100 && WindowAfter(v, 1706, 0) == 0
    ensures CachedNext(v, 1706, 0) == Next(v, 1706) <==> FatByte(v, 2560) % 0x10 == 0
    ensures forall c: u32 | c < 1706 :: NeverStraddles(v, c)
  {
  }
}

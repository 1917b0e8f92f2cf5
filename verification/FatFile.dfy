/** Files of a FAT volume as byte sequences: the sectors of a cluster chain one after the
    other, and the cursor a handle keeps into them. */
module FatFile {
  import opened Bytes
  import opened FatVolume

  /** The first sector of a cluster, without 32-bit wrap-around. */
  function FirstSector(v: Volume, cluster: u32): int {
    v.dataLba + (cluster - 2) * v.perCluster
  }

  /** FAT_ClusterToLba */
  function ClusterToLba(v: Volume, cluster: u32): u32 {
    FirstSector(v, cluster) % TWO32
  }

  /** The sector FAT_Read asks for. */
  function SectorLba(v: Volume, cluster: u32, sector: u32): u32 {
    (ClusterToLba(v, cluster) + sector) % TWO32
  }

  /** A data cluster of the volume, whose table entry is on the disk. */
  ghost predicate ClusterOk(v: Volume, cluster: u32) {
    && 2 <= cluster < END_OF_CHAIN && Reachable(v, cluster)
    && 0 <= FirstSector(v, cluster) && FirstSector(v, cluster) + v.perCluster <= |v.disk|
  }

  ghost predicate Clusters(v: Volume, chain: seq<u32>) {
    forall i | 0 <= i < |chain| :: ClusterOk(v, chain[i])
  }

  /** The table on disk links the clusters. */
  ghost predicate Linked(v: Volume, chain: seq<u32>)
    requires Formatted(v) && Clusters(v, chain)
  {
    forall i | 0 <= i < |chain| - 1 :: ClusterOk(v, chain[i]) && Next(v, chain[i]) == chain[i + 1]
  }

  /** The table ends the chain after its last cluster. */
  ghost predicate Ended(v: Volume, chain: seq<u32>)
    requires Formatted(v) && Clusters(v, chain)
  {
    chain != [] && ClusterOk(v, chain[|chain| - 1]) && Next(v, chain[|chain| - 1]) >= END_OF_CHAIN
  }

  /** An entry of the table, as its bits are. */
  ghost function RawEntry(v: Volume, cluster: u32): u32
    requires Formatted(v) && Reachable(v, cluster)
  {
    var i := EntryIndex(v.fatType, cluster);
    if v.fatType == 12 then
      var b0, b1 := FatByte(v, i), FatByte(v, i + 1);
      if cluster % 2 == 0 then b0 + b1 % 0x10 * 0x100 else b0 / 0x10 + b1 * 0x10
    else if v.fatType == 16 then Half(FatBytes(v, i, 2), 0)
    else Word(FatBytes(v, i, 4), 0)
  }

  /** The end-of-chain values of the specification: a FAT32 entry has 28 bits, and the other four
      do not count. */
  predicate IsEndMark(fatType: nat, raw: u32) {
    if fatType == 12 then raw >= 0xFF8
    else if fatType == 16 then raw >= 0xFFF8
    else raw % 0x1000_0000 >= 0x0FFF_FFF8
  }

  /** The driver takes an entry for the end of a chain exactly when it is an end-of-chain value
      and, on FAT32, the four bits that do not count are ones. */
  lemma EndExact(v: Volume, cluster: u32)
    requires Formatted(v) && Reachable(v, cluster)
    ensures Next(v, cluster) >= END_OF_CHAIN <==>
            IsEndMark(v.fatType, RawEntry(v, cluster))
            && (v.fatType == 32 ==> RawEntry(v, cluster) / 0x1000_0000 == 0xF)
  {
    hide FatByte, FatBytes, Half, Word, EntryIndex;
  }

  const STANDARD_END: u32 := 0x0FFF_FFFF

  /** The marker that FAT32 volumes end their chains with has these bits zero: the driver takes it
      for a cluster, and asks for this sector. */
  lemma StandardEnd(v: Volume, cluster: u32)
    requires Formatted(v) && Reachable(v, cluster) && v.fatType == 32 && RawEntry(v, cluster) == STANDARD_END
    ensures IsEndMark(32, RawEntry(v, cluster)) && Next(v, cluster) == STANDARD_END < END_OF_CHAIN
    ensures SectorLba(v, STANDARD_END, 0) == (v.dataLba + 0x0FFF_FFFD * v.perCluster) % TWO32
  {
    hide FatBytes, Word, EntryIndex;
  }

  /** n consecutive sectors. */
  ghost function Consecutive(lba: nat, n: nat): (s: seq<nat>)
    ensures |s| == n && forall k | 0 <= k < n :: s[k] == lba + k
  {
    seq(n, k => lba + k)
  }

  /** The sectors of a chain, cluster after cluster. */
  ghost function Sectors(v: Volume, chain: seq<u32>): seq<nat>
    requires Formatted(v) && Clusters(v, chain)
  {
    if chain == [] then []
    else
      assert ClusterOk(v, chain[0]);
      Consecutive(FirstSector(v, chain[0]), v.perCluster) + Sectors(v, chain[1..])
  }

  ghost predicate OnVolume(v: Volume, lbas: seq<nat>) {
    forall i | 0 <= i < |lbas| :: lbas[i] < |v.disk|
  }

  /** n is k groups of p, and s. */
  predicate Grouped(n: nat, k: nat, s: nat, p: nat) {
    if k == 0 then n == s else p <= n && Grouped(n - p, k - 1, s, p)
  }

  lemma {:induction false} GroupedIs(n: nat, k: nat, s: nat, p: nat)
    ensures Grouped(n, k, s, p) <==> n == k * p + s
    decreases k
  {
    if k > 0 {
      OneMore(k, p, s);
      if p <= n { GroupedIs(n - p, k - 1, s, p); }
    }
  }

  /** Sector n of a chain, which is sector s of cluster k. */
  lemma {:induction false} SectorAt(v: Volume, chain: seq<u32>, n: nat, k: nat, s: nat)
    requires Formatted(v) && Clusters(v, chain) && k < |chain| && s < v.perCluster && Grouped(n, k, s, v.perCluster)
    ensures n < |Sectors(v, chain)| && Sectors(v, chain)[n] == FirstSector(v, chain[k]) + s
    decreases k
  {
    SectorsStep(v, chain);
    hide Sectors, FirstSector, Clusters;
    if k > 0 {
      SectorAt(v, chain[1..], n - v.perCluster, k - 1, s);
    }
  }

  lemma SectorsStep(v: Volume, chain: seq<u32>)
    requires Formatted(v) && Clusters(v, chain) && chain != []
    ensures 0 <= FirstSector(v, chain[0]) && Clusters(v, chain[1..])
    ensures Sectors(v, chain) == Consecutive(FirstSector(v, chain[0]), v.perCluster) + Sectors(v, chain[1..])
  {
    assert ClusterOk(v, chain[0]);
    hide Reachable, FirstSector;
  }

  lemma OneMore(k: nat, p: nat, s: nat)
    requires k > 0
    ensures k * p + s == p + ((k - 1) * p + s) >= p
  {
  }

  lemma {:induction false} SectorCount(v: Volume, chain: seq<u32>)
    requires Formatted(v) && Clusters(v, chain)
    ensures |Sectors(v, chain)| == |chain| * v.perCluster
  {
    if chain != [] {
      assert ClusterOk(v, chain[0]);
      SectorCount(v, chain[1..]);
      assert |chain| * v.perCluster == v.perCluster + (|chain| - 1) * v.perCluster;
    }
  }

  lemma {:induction false} SectorsOnVolume(v: Volume, chain: seq<u32>)
    requires Formatted(v) && Clusters(v, chain)
    ensures OnVolume(v, Sectors(v, chain))
  {
    if chain != [] {
      assert ClusterOk(v, chain[0]);
      SectorsOnVolume(v, chain[1..]);
    }
  }

  /** The bytes of a list of sectors. */
  ghost function Content(v: Volume, lbas: seq<nat>): (c: seq<byte>)
    requires Formatted(v) && OnVolume(v, lbas)
    ensures |c| == SECTOR_SIZE * |lbas|
  {
    if lbas == [] then []
    else
      v.disk[lbas[0]] + Content(v, lbas[1..])
  }

  lemma {:induction false} ContentOfSector(v: Volume, lbas: seq<nat>, n: nat)
    requires Formatted(v) && OnVolume(v, lbas) && n < |lbas|
    ensures Content(v, lbas)[n * SECTOR_SIZE..(n + 1) * SECTOR_SIZE] == v.disk[lbas[n]]
  {
    var h, t := v.disk[lbas[0]], Content(v, lbas[1..]);
    if n > 0 {
      ContentOfSector(v, lbas[1..], n - 1);
      hide Formatted, OnVolume;
      SliceBehind(h, t, (n - 1) * SECTOR_SIZE, n * SECTOR_SIZE);
    }
  }

  // ----- sectors and clusters

  /** Which cluster of its chain sector n of a file is in, and which sector of the cluster. */
  function ClusterOf(v: Volume, n: nat): nat
    requires v.perCluster > 0
  {
    n / v.perCluster
  }

  function SectorOf(v: Volume, n: nat): (s: nat)
    requires v.perCluster > 0
    ensures s < v.perCluster
  {
    n % v.perCluster
  }

  lemma {:induction false} Grows(d: nat, p: nat)
    requires d > 0
    ensures d * p >= p
  {
    if d > 1 {
      Grows(d - 1, p);
      assert d * p == (d - 1) * p + p;
    }
  }

  lemma Times(d: int, p: nat)
    ensures d > 0 ==> d * p >= p
    ensures d < 0 ==> d * p + p <= 0
  {
    if d > 0 {
      Grows(d, p);
    } else if d < 0 {
      Grows(-d, p);
      assert (-d) * p == -(d * p);
    }
  }

  lemma Divide(n: nat, q: nat, r: nat, p: nat)
    requires r < p && n == q * p + r
    ensures n / p == q && n % p == r
  {
    var d := n / p - q;
    assert n == (n / p) * p + n % p;
    assert d * p == (n / p) * p - q * p;
    Times(d, p);
  }

  lemma QuotientBelow(n: nat, k: nat, p: nat)
    requires p > 0 && n < k * p
    ensures n / p < k
  {
    assert n == (n / p) * p + n % p;
    assert (n / p - k) * p == (n / p) * p - k * p;
    Times(n / p - k, p);
  }

  /** One sector on: the next one of the same cluster, or the first one of the next. */
  lemma OneSectorOn(v: Volume, n: nat)
    requires v.perCluster > 0
    ensures SectorOf(v, n) + 1 < v.perCluster ==>
              ClusterOf(v, n + 1) == ClusterOf(v, n) && SectorOf(v, n + 1) == SectorOf(v, n) + 1
    ensures SectorOf(v, n) + 1 >= v.perCluster ==>
              ClusterOf(v, n + 1) == ClusterOf(v, n) + 1 && SectorOf(v, n + 1) == 0
  {
    var p := v.perCluster;
    var q, r := n / p, n % p;
    assert n == q * p + r;
    if r + 1 < p {
      Divide(n + 1, q, r + 1, p);
    } else {
      assert n + 1 == (q + 1) * p + 0;
      Divide(n + 1, q + 1, 0, p);
    }
  }

  /** Sector n of a file on disk. */
  lemma SectorIs(v: Volume, chain: seq<u32>, n: nat)
    requires Formatted(v) && Clusters(v, chain) && n < |Sectors(v, chain)|
    ensures ClusterOf(v, n) < |chain|
    ensures Sectors(v, chain)[n] == FirstSector(v, chain[ClusterOf(v, n)]) + SectorOf(v, n)
  {
    SectorCount(v, chain);
    Recompose(v, n);
    QuotientBelow(n, |chain|, v.perCluster);
    hide Clusters, Sectors, FirstSector, SectorOf;
    GroupedIs(n, ClusterOf(v, n), SectorOf(v, n), v.perCluster);
    SectorAt(v, chain, n, ClusterOf(v, n), SectorOf(v, n));
  }

  lemma Recompose(v: Volume, n: nat)
    requires v.perCluster > 0
    ensures n == ClusterOf(v, n) * v.perCluster + SectorOf(v, n)
  {
  }

  lemma InOrder(v: Volume, m: nat, n: nat)
    requires v.perCluster > 0 && m <= n
    ensures ClusterOf(v, m) <= ClusterOf(v, n)
  {
    var p := v.perCluster;
    var k := n / p + 1;
    assert n == (n / p) * p + n % p;
    assert k * p == (n / p) * p + p;
    QuotientBelow(m, k, p);
  }

  /** 32-bit arithmetic does not wrap for sectors of a good cluster. */
  lemma LbaNoWrap(v: Volume, cluster: u32, s: nat)
    requires Formatted(v) && ClusterOk(v, cluster) && s < v.perCluster
    ensures SectorLba(v, cluster, s) == FirstSector(v, cluster) + s
  {
    hide FirstSector, ClusterOk, Formatted;
    OnDisk32(v, cluster, s);
    Small(FirstSector(v, cluster), s);
  }

  lemma OnDisk32(v: Volume, cluster: u32, s: nat)
    requires Formatted(v) && ClusterOk(v, cluster) && s < v.perCluster
    ensures 0 <= FirstSector(v, cluster) && FirstSector(v, cluster) + s < TWO32
  {
    hide FirstSector, Reachable;
  }

  lemma Small(f: nat, s: nat)
    requires f + s < TWO32
    ensures (f % TWO32 + s) % TWO32 == f + s
  {
  }

  lemma SectorsEmpty(v: Volume, chain: seq<u32>)
    requires Formatted(v) && Clusters(v, chain)
    ensures Sectors(v, chain) == [] <==> chain == []
  {
  }
}

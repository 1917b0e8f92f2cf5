/** The table lookups that reading a file makes, through the window as it is at that moment. */
module FatLookups {
  import opened Bytes
  import opened FatVolume
  import opened FatFile

  /** A file: its sectors, the chain of clusters they belong to, and whether it is a directory
      without a size, which is read until the chain ends. */
  datatype Extent = Extent(lbas: seq<nat>, chain: seq<u32>, endless: bool)

  /** Number of lookups made on the way from the start of a file to a position in it. */
  function LookupsTo(v: Volume, position: nat): nat
    requires v.perCluster > 0
  {
    ClusterOf(v, position / SECTOR_SIZE)
  }

  /** What the lookup after cluster a has to give: the next cluster of the file, or an end if
      the file is only known to end there. */
  ghost predicate LookupOk(v: Volume, x: Extent, a: nat, window: u32)
    requires Formatted(v) && a < |x.chain|
  {
    && Reachable(v, x.chain[a])
    && var c := CachedNext(v, x.chain[a], window);
       if a + 1 < |x.chain| then c == x.chain[a + 1] else x.endless ==> c >= END_OF_CHAIN
  }

  /** Lookups a to b, made one after the other from a window position, give this chain. */
  ghost predicate Seen(v: Volume, x: Extent, a: nat, b: nat, window: u32)
    requires Formatted(v)
    decreases b - a
  {
    a < b && a < |x.chain| ==>
      LookupOk(v, x, a, window) && Seen(v, x, a + 1, b, WindowAfter(v, x.chain[a], window))
  }

  /** Where they leave the window. */
  function WindowOver(v: Volume, x: Extent, a: nat, b: nat, window: u32): u32
    decreases b - a
  {
    if a < b && a < |x.chain| then WindowOver(v, x, a + 1, b, WindowAfter(v, x.chain[a], window)) else window
  }

  /** Lookups can be made in two goes. */
  lemma {:induction false} SeenSplit(v: Volume, x: Extent, a: nat, b: nat, c: nat, window: u32)
    requires Formatted(v) && a <= b <= c
    ensures Seen(v, x, a, c, window) <==> Seen(v, x, a, b, window) && Seen(v, x, b, c, WindowOver(v, x, a, b, window))
    ensures WindowOver(v, x, a, c, window) == WindowOver(v, x, b, c, WindowOver(v, x, a, b, window))
    decreases b - a
  {
    if a < b && a < |x.chain| {
      SeenSplit(v, x, a + 1, b, c, WindowAfter(v, x.chain[a], window));
    }
    hide LookupOk, WindowAfter;
  }

  // ----- the chain on disk

  /** The lookup agrees with the table on disk: its entry does not straddle the window, or the
      stray byte carries the same bits. */
  ghost predicate Agrees(v: Volume, cluster: u32, window: u32)
    requires Formatted(v) && Reachable(v, cluster)
  {
    var p := WindowAfter(v, cluster, window);
    || !Straddles(v, cluster, p)
    || Relevant(cluster, p % 0x100) == Relevant(cluster, FatByte(v, EntryIndex(12, cluster) + 1))
  }

  /** All lookups do that matter; the one after the last cluster of a file with a size does not. */
  ghost predicate AllAgree(v: Volume, x: Extent, a: nat, b: nat, window: u32)
    requires Formatted(v) && Clusters(v, x.chain)
    decreases b - a
  {
    a < b && a < |x.chain| ==>
      && ClusterOk(v, x.chain[a])
      && (a + 1 < |x.chain| || x.endless ==> Agrees(v, x.chain[a], window))
      && AllAgree(v, x, a + 1, b, WindowAfter(v, x.chain[a], window))
  }

  /** A 12-bit end-of-chain value is only read as one when all its bits are right. */
  lemma EndAgrees(v: Volume, cluster: u32, window: u32)
    requires Formatted(v) && Reachable(v, cluster) && Next(v, cluster) >= END_OF_CHAIN
    ensures CachedNext(v, cluster, window) >= END_OF_CHAIN <==> Agrees(v, cluster, window)
  {
    CachedNextExact(v, cluster, window);
  }

  /** A directory without a size is seen to end on FAT16 and FAT32 exactly when the last entry on
      disk is one that the driver takes for an end. */
  lemma DirectoryEnd(v: Volume, x: Extent, window: u32)
    requires Formatted(v) && Clusters(v, x.chain) && x.endless && x.chain != [] && v.fatType != 12
    ensures ClusterOk(v, x.chain[|x.chain| - 1])
    ensures var raw := RawEntry(v, x.chain[|x.chain| - 1]);
            LookupOk(v, x, |x.chain| - 1, window) <==>
            IsEndMark(v.fatType, raw) && (v.fatType == 32 ==> raw / 0x1000_0000 == 0xF)
  {
    var c := x.chain[|x.chain| - 1];
    assert ClusterOk(v, c);
    EndExact(v, c);
    hide RawEntry, IsEndMark, Next;
  }

  /** The table on disk links the file's clusters, and ends a directory without a size after
      its last one. */
  ghost predicate OnTable(v: Volume, x: Extent)
    requires Formatted(v)
  {
    Clusters(v, x.chain) && Linked(v, x.chain) && (x.endless && x.chain != [] ==> Ended(v, x.chain))
  }

  /** The chain on disk is the chain that is seen exactly when all lookups that matter agree
      with the table. */
  lemma {:induction false} SeenExact(v: Volume, x: Extent, a: nat, b: nat, window: u32)
    requires Formatted(v) && OnTable(v, x)
    ensures Seen(v, x, a, b, window) <==> AllAgree(v, x, a, b, window)
    decreases b - a
  {
    if a < b && a < |x.chain| {
      var c := x.chain[a];
      assert ClusterOk(v, c);
      SeenExact(v, x, a + 1, b, WindowAfter(v, c, window));
      CachedNextExact(v, c, window);
      if a + 1 < |x.chain| {
        assert Next(v, c) == x.chain[a + 1];
      } else if x.endless {
        EndAgrees(v, c, window);
      }
    }
    hide ClusterOk, Linked, Ended, CachedNext, Next, Agrees;
  }

  /** No lookup that matters can straddle. */
  ghost predicate Steady(v: Volume, x: Extent) {
    forall a | 0 <= a < |x.chain| && (a + 1 < |x.chain| || x.endless) :: NeverStraddles(v, x.chain[a])
  }

  /** Then the chain on disk is seen whatever the window, and whoever else moves it. */
  lemma {:induction false} SteadyIsSeen(v: Volume, x: Extent, a: nat, b: nat, window: u32)
    requires Formatted(v) && OnTable(v, x)
    requires Steady(v, x)
    ensures Seen(v, x, a, b, window)
    decreases b - a
  {
    if a < b && a < |x.chain| {
      var c := x.chain[a];
      assert ClusterOk(v, c);
      SteadyIsSeen(v, x, a + 1, b, WindowAfter(v, c, window));
      if a + 1 < |x.chain| || x.endless { CachedNextRight(v, c, window); }
    }
    hide CachedNext, WindowAfter;
  }

  /** So it is on every volume that is not FAT12, and on a FAT12 volume for every file in
      clusters below 1706. */
  lemma UsuallySteady(v: Volume, x: Extent)
    requires Formatted(v)
    requires v.fatType == 12 ==> forall a | 0 <= a < |x.chain| :: x.chain[a] < 1706
    ensures Steady(v, x)
  {
  }
}

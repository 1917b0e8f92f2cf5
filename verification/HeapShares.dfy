/** Several owners that share the kernel heap, each with some of its live blocks. */
module HeapShares {
  import opened Bytes
  import opened BlockList
  import opened KernelHeap

  ghost function Owned(owned: map<nat, Block>): set<Block> {
    set i | i in owned :: owned[i]
  }

  ghost predicate DistinctBlocks(owned: map<nat, Block>) {
    forall i, j | i in owned && j in owned && i != j :: owned[i] != owned[j]
  }

  /** One owner has been at work: blocks of all others stay live and keep their bytes, and it
      has taken none of them. */
  ghost predicate OthersSafe(m: seq<byte>, m': seq<byte>, live: set<Block>, live': set<Block>,
                             owned: map<nat, Block>, owned': map<nat, Block>) {
    && live' - Owned(owned') == live - Owned(owned)
    && PayloadsKept(m, m', live - Owned(owned))
  }

  lemma OthersSafeTransitive(m0: seq<byte>, m1: seq<byte>, m2: seq<byte>,
                             live0: set<Block>, live1: set<Block>, live2: set<Block>,
                             owned0: map<nat, Block>, owned1: map<nat, Block>, owned2: map<nat, Block>)
    requires OthersSafe(m0, m1, live0, live1, owned0, owned1)
    requires OthersSafe(m1, m2, live1, live2, owned1, owned2)
    ensures OthersSafe(m0, m2, live0, live2, owned0, owned2)
  {
    KeptTransitive(m0, m1, m2, live0 - Owned(owned0));
  }

  /** Nothing that is live has changed. */
  lemma SafeWhenKept(m: seq<byte>, m': seq<byte>, live: set<Block>, owned: map<nat, Block>)
    requires PayloadsKept(m, m', live)
    ensures OthersSafe(m, m', live, live, owned, owned)
  {
  }

  lemma SafeAtRest(m: seq<byte>, bs: seq<Block>, owned: map<nat, Block>)
    requires Represents(m, bs)
    ensures OthersSafe(m, m, Live(bs), Live(bs), owned, owned)
  {
    KeptReflexive(m, bs, Live(bs) - Owned(owned));
  }

  /** The owner has written to a block of its own. */
  lemma OthersSafeByOwner(m: seq<byte>, m': seq<byte>, live: set<Block>, owned: map<nat, Block>, i: nat)
    requires i in owned && PayloadsKept(m, m', live - {owned[i]})
    ensures OthersSafe(m, m', live, live, owned, owned)
  {
    assert owned[i] in Owned(owned);
  }

  /** It has taken a fresh block. */
  lemma AddedBlock(live: set<Block>, b: Block, slot: nat, owned: map<nat, Block>)
    requires Owned(owned) <= live && b !in live && slot !in owned
    ensures live + {b} - Owned(owned[slot := b]) == live - Owned(owned)
  {
    assert Owned(owned[slot := b]) == Owned(owned) + {b} by {
      assert forall i | i in owned :: i in owned[slot := b] && owned[slot := b][i] == owned[i];
      assert slot in owned[slot := b];
    }
  }

  /** It has exchanged one of its blocks for a fresh one. */
  lemma MovedOwned(live: set<Block>, live': set<Block>, owned: map<nat, Block>, i: nat, b: Block)
    requires Owned(owned) <= live && i in owned && b !in live && DistinctBlocks(owned)
    requires live' == live + {b} - {owned[i]}
    ensures live' - Owned(owned[i := b]) == live - Owned(owned)
    ensures live - Owned(owned) <= live - {owned[i]}
  {
    var owned' := owned[i := b];
    assert Owned(owned') == Owned(owned) - {owned[i]} + {b} by {
      assert i in owned' && owned'[i] == b;
      assert forall j | j in owned && j != i :: j in owned' && owned'[j] == owned[j] && owned[j] != owned[i];
    }
    assert owned[i] in Owned(owned);
  }

  /** So another owner still has its blocks, with their bytes, and has them for itself. */
  lemma OtherOwner(m: seq<byte>, m': seq<byte>, live: set<Block>, live': set<Block>,
                   owned: map<nat, Block>, owned': map<nat, Block>, other: map<nat, Block>)
    requires OthersSafe(m, m', live, live', owned, owned')
    requires Owned(other) <= live && Owned(other) !! Owned(owned)
    ensures Owned(other) <= live' && Owned(other) !! Owned(owned') && PayloadsKept(m, m', Owned(other))
  {
    hide Payload;
    assert Owned(other) <= live - Owned(owned);
  }
}

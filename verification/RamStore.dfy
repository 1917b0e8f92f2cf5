/** Where the RAM file system keeps its data: every file owns one live heap block. */
module RamStore {
  import opened Bytes
  import opened BlockList
  import opened KernelHeap
  import opened HeapShares
  import opened RamTree
  import opened FileTable

  predicate IsFile(e: Entry) {
    e.inUse && !e.isDir
  }

  ghost predicate OnBlock(mem: seq<byte>, live: set<Block>, e: Entry, b: Block) {
    && b in live && b.End() <= |mem| && e.data == PayloadAddress(b) && e.size <= e.capacity <= b.size
  }

  ghost function DataOf(mem: seq<byte>, e: Entry, b: Block): (c: seq<byte>)
    requires b.End() <= |mem| && e.size <= b.size
    ensures |c| == e.size
  {
    Payload(mem, b)[..e.size]
  }

  ghost predicate EntryStored(mem: seq<byte>, live: set<Block>, e: Entry, i: nat,
                              owned: map<nat, Block>, contents: map<nat, seq<byte>>) {
    && i in owned && OnBlock(mem, live, e, owned[i])
    && i in contents && contents[i] == DataOf(mem, e, owned[i])
  }

  /** Each file in use has its own live block of at least its capacity, and its contents there. */
  ghost predicate Store(mem: seq<byte>, live: set<Block>, files: seq<Entry>,
                        owned: map<nat, Block>, contents: map<nat, seq<byte>>) {
    && |files| == RamTree.MAX_FILES
    && (forall i: nat {:trigger files[i]} | i < |files| && IsFile(files[i]) ::
          EntryStored(mem, live, files[i], i, owned, contents))
    && (forall i: nat {:trigger files[i]} | i < |files| && files[i].inUse && files[i].isDir :: files[i].data == NULL)
    && (forall i | i in owned :: i < |files| && IsFile(files[i]))
    && contents.Keys == owned.Keys
    && DistinctBlocks(owned)
  }

  /** Contents after entry i has become e', on the block owned'[i] if it is a file. */
  ghost function After(mem': seq<byte>, e': Entry, i: nat, owned': map<nat, Block>,
                       contents: map<nat, seq<byte>>): (r: map<nat, seq<byte>>)
    requires i in owned' ==> owned'[i].End() <= |mem'| && e'.size <= owned'[i].size
    ensures forall j | j != i :: (j in r <==> j in contents) && (j in r ==> r[j] == contents[j])
    ensures i in r <==> i in owned'
    ensures i in r ==> r[i] == DataOf(mem', e', owned'[i])
  {
    if i in owned' then contents[i := DataOf(mem', e', owned'[i])] else contents - {i}
  }

  lemma StoreFacts(mem: seq<byte>, live: set<Block>, files: seq<Entry>,
                   owned: map<nat, Block>, contents: map<nat, seq<byte>>, i: nat)
    requires Store(mem, live, files, owned, contents) && i < |files|
    ensures IsFile(files[i]) ==>
              && i in owned && owned[i] in live && files[i].data == PayloadAddress(owned[i])
              && owned[i].End() <= |mem| && files[i].size <= files[i].capacity <= owned[i].size
              && i in contents && contents[i] == Payload(mem, owned[i])[..files[i].size]
    ensures !IsFile(files[i]) ==> i !in owned && i !in contents
    ensures files[i].inUse && files[i].isDir ==> files[i].data == NULL
  {
  }

  lemma OwnedLive(mem: seq<byte>, live: set<Block>, files: seq<Entry>,
                  owned: map<nat, Block>, contents: map<nat, seq<byte>>)
    requires Store(mem, live, files, owned, contents)
    ensures Owned(owned) <= live && DistinctBlocks(owned)
    ensures forall i | i in owned :: owned[i] in live && owned[i].End() <= |mem|
  {
    forall i | i in owned ensures owned[i] in live && owned[i].End() <= |mem| {
      assert EntryStored(mem, live, files[i], i, owned, contents);
    }
  }

  lemma StoredKept(mem: seq<byte>, mem': seq<byte>, live: set<Block>, live': set<Block>, e: Entry, i: nat, j: nat,
                   owned: map<nat, Block>, owned': map<nat, Block>,
                   contents: map<nat, seq<byte>>, contents': map<nat, seq<byte>>)
    requires EntryStored(mem, live, e, j, owned, contents) && j != i
    requires OthersKept(mem, mem', live', i, owned, owned')
    requires j in contents' && contents'[j] == contents[j]
    ensures EntryStored(mem', live', e, j, owned', contents')
  {
  }

  /** Changing one entry changes the contents of that entry only. */
  lemma ChangeEntry(mem: seq<byte>, mem': seq<byte>, live: set<Block>, live': set<Block>,
                    files: seq<Entry>, i: nat, e': Entry, owned: map<nat, Block>, owned': map<nat, Block>,
                    contents: map<nat, seq<byte>>)
    requires Store(mem, live, files, owned, contents) && i < |files|
    requires OthersKept(mem, mem', live', i, owned, owned') && DistinctBlocks(owned')
    requires i in owned' <==> IsFile(e')
    requires IsFile(e') ==> OnBlock(mem', live', e', owned'[i])
    requires e'.inUse && e'.isDir ==> e'.data == NULL
    ensures Store(mem', live', files[i := e'], owned', After(mem', e', i, owned', contents))
  {
    hide DistinctBlocks, OnBlock, DataOf, After, Payload;
    assert i in owned' ==> owned'[i].End() <= |mem'| && e'.size <= owned'[i].size by {
      BlockBounds(mem', live', e', i, owned');
    }
    var files', contents' := files[i := e'], After(mem', e', i, owned', contents);
    forall j: nat | j < |files'| && IsFile(files'[j])
      ensures EntryStored(mem', live', files'[j], j, owned', contents')
    {
      if j != i {
        assert EntryStored(mem, live, files[j], j, owned, contents);
        StoredKept(mem, mem', live, live', files[j], i, j, owned, owned', contents, contents');
      }
    }
  }

  lemma BlockBounds(mem: seq<byte>, live: set<Block>, e: Entry, i: nat, owned: map<nat, Block>)
    requires i in owned ==> OnBlock(mem, live, e, owned[i])
    ensures i in owned ==> owned[i].End() <= |mem| && e.size <= owned[i].size
  {
  }

  /** Whatever others do with their own blocks, this store stays as it is. */
  lemma StoreUndisturbed(mem: seq<byte>, mem': seq<byte>, live: set<Block>, live': set<Block>,
                         files: seq<Entry>, owned: map<nat, Block>, contents: map<nat, seq<byte>>)
    requires Store(mem, live, files, owned, contents)
    requires Owned(owned) <= live' && PayloadsKept(mem, mem', Owned(owned))
    ensures Store(mem', live', files, owned, contents)
  {
    forall j: nat | j < |files| && IsFile(files[j])
      ensures EntryStored(mem', live', files[j], j, owned, contents)
    {
      assert EntryStored(mem, live, files[j], j, owned, contents);
      assert owned[j] in Owned(owned);
    }
  }

  /** Changes of entries that hold no data. */
  lemma ChangeDirectory(mem: seq<byte>, live: set<Block>, files: seq<Entry>, i: nat, e': Entry,
                        owned: map<nat, Block>, contents: map<nat, seq<byte>>)
    requires Store(mem, live, files, owned, contents) && i < |files|
    requires !IsFile(files[i]) && !IsFile(e') && (e'.inUse ==> e'.data == NULL)
    ensures Store(mem, live, files[i := e'], owned, contents)
  {
    OwnedLive(mem, live, files, owned, contents);
    ChangeEntry(mem, mem, live, live, files, i, e', owned, owned, contents);
    assert contents - {i} == contents;
  }
}

/** The RAM file system of the shell: a table of 64 entries that stays a tree, with file data
    in blocks of the kernel heap. */
module RamFileSystem {
  import opened Bytes
  import opened BlockList
  import opened KernelHeap
  import opened HeapShares
  import opened RamTree
  import opened RamStore
  import opened FileTable

  const EXISTS: int := -1
  const NOT_FOUND: int := -1
  const IS_DIRECTORY: int := -1
  const NO_SLOT: int := -2
  const NOT_EMPTY: int := -2
  const NOT_A_FILE: int := -2
  const NO_MEMORY: int := -3

  /** Every name in files' was there in files or is the one given, as it is stored. */
  ghost predicate NamesFrom(files: seq<Entry>, files': seq<Entry>, name: string) {
    && |files'| == |files|
    && forall i | 0 <= i < |files'| && files'[i].inUse ::
         files'[i].name == Stored(name) || (files[i].inUse && files'[i].name == files[i].name)
  }

  /** No stored name is longer than a name field. */
  ghost predicate ShortNames(files: seq<Entry>) {
    forall i | 0 <= i < |files| && files[i].inUse :: |files[i].name| <= MAX_NAME
  }

  /** What ramfs_create returns. */
  ghost function CreateCode(files: seq<Entry>, current: nat, blocks: seq<Block>, name: string, isDir: bool): int {
    if Find(files, name, current) >= 0 then EXISTS
    else if UnusedFrom(files, 0) == |files| then NO_SLOT
    else if !isDir && HeapFull(blocks, FIRST_SIZE) then NO_MEMORY
    else UnusedFrom(files, 0)
  }

  lemma AddedUnique(files: seq<Entry>, slot: nat, e: Entry, name: string)
    requires slot < |files| && !files[slot].inUse && e.inUse && e.name == Stored(name)
    ensures UniqueNames(files) ==>
              (UniqueNames(files[slot := e]) <==> Find(files, Stored(name), e.parent) == -1)
    ensures UniqueNames(files) && |name| <= MAX_NAME && Find(files, name, e.parent) == -1 ==>
            UniqueNames(files[slot := e])
  {
    if UniqueNames(files) { CreateKeepsUnique(files, slot, e); }
  }

  lemma AddedUnused(files: seq<Entry>, slot: nat, e: Entry)
    requires slot < |files| && !files[slot].inUse && !e.inUse
    ensures UniqueNames(files) ==> UniqueNames(files[slot := e])
  {
    if UniqueNames(files) { UnusedKeepsUnique(files, slot, e); }
  }

  lemma ResizedUnique(files: seq<Entry>, i: nat, e: Entry)
    requires i < |files| && e == files[i].(data := e.data, size := e.size, capacity := e.capacity)
    ensures UniqueNames(files) ==> UniqueNames(files[i := e])
  {
    if UniqueNames(files) { ResizeKeepsUnique(files, i, e); }
  }

  /** A file entry on the fresh block b. */
  lemma StoreNew(m0: seq<byte>, m1: seq<byte>, m2: seq<byte>, bs: seq<Block>, ptr: u32,
                 files: seq<Entry>, slot: nat, e: Entry, owned: map<nat, Block>, contents: map<nat, seq<byte>>)
    requires Store(m0, Live(bs), files, owned, contents) && slot < |files| && !files[slot].inUse
    requires Represents(m0, bs) && !HeapFull(bs, FIRST_SIZE) && ptr == ServedPointer(bs, FIRST_SIZE)
    requires PayloadsKept(m0, m1, Live(bs))
    requires PayloadsKept(m1, m2, Live(Serve(bs, FIRST_SIZE)) - {NewBlock(bs, FIRST_SIZE)})
    requires |m2| == ARENA && IsFile(e) && e.data == ptr && e.size == 0 && e.capacity == FIRST_SIZE
    ensures var live', owned' := Live(Serve(bs, FIRST_SIZE)), owned[slot := NewBlock(bs, FIRST_SIZE)];
            && Store(m2, live', files[slot := e], owned', contents[slot := []])
            && OthersSafe(m0, m2, Live(bs), live', owned, owned')
  {
    hide FirstFit, Rounded, Serve, Represents, Payload, HeapFull, Live;
    Served(m0, bs, FIRST_SIZE);
    hide NewBlock;
    var b, live, live' := NewBlock(bs, FIRST_SIZE), Live(bs), Live(Serve(bs, FIRST_SIZE));
    var owned' := owned[slot := b];
    OwnedLive(m0, live, files, owned, contents);
    StoreFacts(m0, live, files, owned, contents, slot);
    assert live' - {b} == live;
    KeptTransitive(m0, m1, m2, live);
    AddedBlock(live, b, slot, owned);
    assert OthersKept(m0, m2, live', slot, owned, owned') && DistinctBlocks(owned');
    hide OthersKept, DistinctBlocks, PayloadsKept, Store, Owned, HeapFull, Live;
    ChangeEntry(m0, m2, live, live', files, slot, e, owned, owned', contents);
    assert After(m2, e, slot, owned', contents) == contents[slot := []];
  }

  /** A failed malloc changes nothing that is live. */
  lemma StoreFull(m: seq<byte>, m': seq<byte>, live: set<Block>, files: seq<Entry>,
                  owned: map<nat, Block>, contents: map<nat, seq<byte>>)
    requires Store(m, live, files, owned, contents) && PayloadsKept(m, m', live)
    ensures Store(m', live, files, owned, contents) && OthersSafe(m, m', live, live, owned, owned)
  {
    OwnedLive(m, live, files, owned, contents);
    StoreUndisturbed(m, m', live, live, files, owned, contents);
  }

  /** The block of entry i has been given back. */
  lemma StoreFreed(m: seq<byte>, m': seq<byte>, live: set<Block>, files: seq<Entry>, i: nat,
                   owned: map<nat, Block>, contents: map<nat, seq<byte>>)
    requires Store(m, live, files, owned, contents) && i in owned && i < |files|
    requires PayloadsKept(m, m', live - {owned[i]})
    ensures Store(m', live - {owned[i]}, files[i := ZEROED], owned - {i}, contents - {i})
    ensures OthersSafe(m, m', live, live - {owned[i]}, owned, owned - {i})
  {
    hide Payload, Store, After;
    OwnedLive(m, live, files, owned, contents);
    var live', owned' := live - {owned[i]}, owned - {i};
    FreedOwned(m, m', live, i, owned);
    hide OthersKept, DistinctBlocks, PayloadsKept;
    ChangeEntry(m, m', live, live', files, i, ZEROED, owned, owned', contents);
    assert After(m', ZEROED, i, owned', contents) == contents - {i};
  }

  lemma FreedOwned(m: seq<byte>, m': seq<byte>, live: set<Block>, i: nat, owned: map<nat, Block>)
    requires DistinctBlocks(owned) && i in owned && (forall j | j in owned :: owned[j] in live)
    requires PayloadsKept(m, m', live - {owned[i]})
    ensures DistinctBlocks(owned - {i}) && OthersKept(m, m', live - {owned[i]}, i, owned, owned - {i})
    ensures OthersSafe(m, m', live, live - {owned[i]}, owned, owned - {i})
  {
    hide Payload;
    assert forall j | j in owned && j != i :: owned[j] in live - {owned[i]};
    forall j | j in owned && j != i ensures owned[j] in Owned(owned - {i}) {
      assert j in owned - {i};
    }
    assert Owned(owned - {i}) == Owned(owned) - {owned[i]};
  }

  lemma DirectoryHasNoData(m: seq<byte>, live: set<Block>, files: seq<Entry>, i: nat,
                           owned: map<nat, Block>, contents: map<nat, seq<byte>>)
    requires Store(m, live, files, owned, contents) && i < |files| && files[i].inUse && files[i].data == NULL
    ensures files[i].isDir && owned - {i} == owned && contents - {i} == contents
  {
    StoreFacts(m, live, files, owned, contents, i);
  }

  /** File i has moved to the fresh block b. */
  lemma StoreMoved(m: seq<byte>, m': seq<byte>, live: set<Block>, live': set<Block>, files: seq<Entry>, i: nat,
                   e': Entry, ptr: u32, b: Block, owned: map<nat, Block>, contents: map<nat, seq<byte>>)
    requires Store(m, live, files, owned, contents) && i in owned && i < |files| && IsFile(files[i])
    requires Moved(m, m', live, live', owned[i], b, files[i].size) && ptr == PayloadAddress(b)
    requires e' == files[i].(data := ptr, capacity := e'.capacity) && e'.size <= e'.capacity <= b.size
    ensures Store(m', live', files[i := e'], owned[i := b], contents)
    ensures OthersSafe(m, m', live, live', owned, owned[i := b])
  {
    hide Store, After, Payload;
    OwnedLive(m, live, files, owned, contents);
    StoreFacts(m, live, files, owned, contents, i);
    OthersUnmoved(m, m', live, live', i, b, owned);
    MovedOwned(live, live', owned, i, b);
    MovedData(m, m', live, live', owned[i], b, files[i].size);
    var owned' := owned[i := b];
    hide PayloadsKept, DistinctBlocks, OthersKept, DataOf, Owned;
    assert DataOf(m', e', b) == contents[i] by { DataIs(m', e', b); }
    ChangeEntry(m, m', live, live', files, i, e', owned, owned', contents);
    assert After(m', e', i, owned', contents) == contents;
  }

  lemma MovedData(m: seq<byte>, m': seq<byte>, live: set<Block>, live': set<Block>, ob: Block, b: Block, n: nat)
    requires Moved(m, m', live, live', ob, b, n)
    ensures Payload(m', b)[..n] == Payload(m, ob)[..n]
  {
  }

  lemma DataIs(m: seq<byte>, e: Entry, b: Block)
    requires b.End() <= |m| && e.size <= b.size
    ensures DataOf(m, e, b) == Payload(m, b)[..e.size]
  {
  }

  /** The data and, after it, the terminator have been copied into file i's block. */
  lemma StoreOverwritten(m: seq<byte>, m1: seq<byte>, m2: seq<byte>, live: set<Block>, files: seq<Entry>, i: nat,
                         data: seq<byte>, owned: map<nat, Block>, contents: map<nat, seq<byte>>)
    requires Store(m, live, files, owned, contents) && i in owned && i < |files| && IsFile(files[i])
    requires |data| <= files[i].capacity && |data| < TWO32
    requires var o := owned[i].at + HEADER;
             o + |data| <= |m| == |m1| && m1 == Overlay(m, o, data) && (m2 == m1 || m2 == ZeroAt(m1, owned[i], |data|))
    requires PayloadsKept(m, m1, live - {owned[i]}) && PayloadsKept(m1, m2, live - {owned[i]})
    ensures Store(m2, live, files[i := files[i].(size := |data|)], owned, contents[i := data])
    ensures OthersSafe(m, m2, live, live, owned, owned)
  {
    hide Payload, Overlay, Store, PayloadsKept, OthersKept, DistinctBlocks, After;
    OwnedLive(m, live, files, owned, contents);
    StoreFacts(m, live, files, owned, contents, i);
    KeptTransitive(m, m1, m2, live - {owned[i]});
    OthersUnmoved(m, m2, live, live, i, owned[i], owned);
    assert owned[i := owned[i]] == owned;
    var e' := files[i].(size := |data|);
    OverwrittenData(m, m1, m2, owned[i], data);
    ChangeEntry(m, m2, live, live, files, i, e', owned, owned, contents);
    assert After(m2, e', i, owned, contents) == contents[i := data];
    OthersSafeByOwner(m, m2, live, owned, i);
  }

  lemma OverwrittenData(m: seq<byte>, m1: seq<byte>, m2: seq<byte>, b: Block, data: seq<byte>)
    requires b.End() <= |m| == |m1| && |data| <= b.size
    requires m1 == Overlay(m, b.at + HEADER, data) && (m2 == m1 || m2 == ZeroAt(m1, b, |data|))
    ensures Payload(m2, b)[..|data|] == data
  {
    SliceOfPayload(m1, b, |data|, 0, |data|);
    FrontOfPayload(m1, b, |data|);
  }

  lemma FrontOfData(m: seq<byte>, b: Block, size: nat, n: nat)
    requires b.End() <= |m| && n <= size <= b.size
    ensures Payload(m, b)[..size][..n] == m[b.at + HEADER..b.at + HEADER + n]
  {
    SliceOfPayload(m, b, size, 0, n);
  }

  class RamFs {
    const heap: Heap
    var files: seq<Entry>
    var fileCount: nat
    var currentDir: nat
    ghost var depth: seq<nat>                   // steps to the root
    ghost var owned: map<nat, Block>            // the heap block of each file
    ghost var contents: map<nat, seq<byte>>     // what each file holds

    ghost predicate Valid()
      reads this, heap, heap.arena
    {
      && heap.Valid() && heap.initialized
      && |files| == |depth| == RamTree.MAX_FILES
      && Tree(files, depth) && IsDirectory(files, currentDir) && fileCount == CountInUse(files)
      && Store(heap.mem, Live(heap.blocks), files, owned, contents) && ShortNames(files)
    }

    /** ramfs_init */
    constructor (h: Heap)
      requires h.Valid() && h.initialized
      ensures Valid() && heap == h && UniqueNames(files) && contents == map[]
      ensures files[ROOT] == ROOT_ENTRY && forall i | 0 < i < |files| :: !files[i].inUse
    {
      heap := h;
      files := [ROOT_ENTRY] + seq(RamTree.MAX_FILES - 1, _ => ZEROED);
      fileCount := 1;
      currentDir := ROOT;
      depth := seq(RamTree.MAX_FILES, _ => 0);
      owned, contents := map[], map[];
      new;
      CountUpdate(seq(RamTree.MAX_FILES, _ => ZEROED), 0, ROOT_ENTRY);
      CountNone(seq(RamTree.MAX_FILES, _ => ZEROED));
      assert files == seq(RamTree.MAX_FILES, _ => ZEROED)[0 := ROOT_ENTRY];
    }

    /** ramfs_find_file */
    method FindFile(name: string, parent: nat) returns (r: int)
      ensures r == Find(files, name, parent)
    {
      r := 0;
      while r < |files|
        invariant 0 <= r <= |files|
        invariant FindFrom(files, r, name, parent) == Find(files, name, parent)
      {
        if Matches(files[r], name, parent) { return; }
        r := r + 1;
      }
      return -1;
    }

    /** ramfs_find_free_slot, with |files| for its -1 */
    method FindFreeSlot() returns (r: nat)
      ensures r == UnusedFrom(files, 0)
    {
      r := 0;
      while r < |files|
        invariant 0 <= r <= |files|
        invariant UnusedFrom(files, r) == UnusedFrom(files, 0)
      {
        if !files[r].inUse { return; }
        r := r + 1;
      }
    }

    /** ramfs_create */
    method Create(name: string, isDir: bool) returns (code: int)
      requires Valid()
      modifies this, heap, heap.arena
      ensures Valid() && currentDir == old(currentDir)
      ensures code == CreateCode(old(files), currentDir, old(heap.blocks), name, isDir)
      ensures OthersSafe(old(heap.mem), heap.mem, old(Live(heap.blocks)), Live(heap.blocks), old(owned), owned)
      ensures code < 0 ==> contents == old(contents) && owned == old(owned) && |files| == old(|files|)
                           && heap.blocks == old(heap.blocks)
      ensures code < 0 ==> forall i | 0 <= i < |files| ::
                files[i].inUse == old(files[i]).inUse && (files[i].inUse ==> files[i] == old(files[i]))
      ensures code >= 0 ==>
                && code < |files| && Created(files[code], name, isDir, currentDir) && !old(files)[code].inUse
                && files == old(files)[code := files[code]]
                && contents == (if isDir then old(contents) else old(contents)[code := []])
                && heap.blocks == (if isDir then old(heap.blocks) else Serve(old(heap.blocks), FIRST_SIZE))
                && owned - {code} == old(owned) && code !in old(contents)
      ensures code >= 0 && !isDir ==> !HeapFull(old(heap.blocks), FIRST_SIZE)
                                      && owned == old(owned)[code := NewBlock(old(heap.blocks), FIRST_SIZE)]
      ensures NamesFrom(old(files), files, name)
      ensures code >= 0 && old(UniqueNames(files)) ==>
                (UniqueNames(files) <==> Find(old(files), Stored(name), currentDir) == -1)
      ensures old(UniqueNames(files)) && |name| <= MAX_NAME ==> UniqueNames(files)
    {
      hide Store, Represents, Live, Tree, OthersSafe, Stored, UniqueNames, HeapFull, Serve, Created, Valid, NewBlock;
      var existing := FindFile(name, currentDir);
      if existing >= 0 { KeepOthers(); return EXISTS; }
      var slot := FindFreeSlot();
      if slot == |files| { KeepOthers(); return NO_SLOT; }
      ghost var files0 := files;
      code := CreateAt(slot, name, isDir);
      if code < 0 {
        AddedUnused(files0, slot, files[slot]);
      } else {
        CreatedIs(files[slot], name, isDir, currentDir);
        AddedUnique(files0, slot, files[slot], name);
      }
    }

    /** The part of ramfs_create that fills a free slot. */
    method CreateAt(slot: nat, name: string, isDir: bool) returns (code: int)
      requires Valid() && slot < |files| && !files[slot].inUse
      modifies this, heap, heap.arena
      ensures Valid() && currentDir == old(currentDir)
      ensures code == if !isDir && HeapFull(old(heap.blocks), FIRST_SIZE) then NO_MEMORY else slot
      ensures OthersSafe(old(heap.mem), heap.mem, old(Live(heap.blocks)), Live(heap.blocks), old(owned), owned)
      ensures files == old(files)[slot := files[slot]]
      ensures code < 0 ==> contents == old(contents) && owned == old(owned) && !files[slot].inUse
                           && heap.blocks == old(heap.blocks)
      ensures code >= 0 ==>
                && Created(files[slot], name, isDir, currentDir)
                && contents == (if isDir then old(contents) else old(contents)[slot := []])
                && heap.blocks == (if isDir then old(heap.blocks) else Serve(old(heap.blocks), FIRST_SIZE))
                && owned - {slot} == old(owned) && slot !in old(contents)
      ensures code >= 0 && !isDir ==> owned == old(owned)[slot := NewBlock(old(heap.blocks), FIRST_SIZE)]
    {
      StoreFacts(heap.mem, Live(heap.blocks), files, owned, contents, slot);
      hide Store, Represents, Live, Tree, OthersSafe, Stored, HeapFull, Serve, NewBlock;
      if isDir {
        AddDirectory(slot, Entry(Stored(name), NULL, 0, 0, true, currentDir, true));
        return slot;
      }
      var ok := AddFile(slot, name);
      return if ok then slot else NO_MEMORY;
    }

    /** A directory holds no data. */
    method AddDirectory(slot: nat, e: Entry)
      requires Valid() && slot < |files| && !files[slot].inUse
      requires e.inUse && e.isDir && e.data == NULL && IsDirectory(files, e.parent) && |e.name| <= MAX_NAME
      modifies this
      ensures Valid() && currentDir == old(currentDir) && files == old(files)[slot := e]
      ensures contents == old(contents) && owned == old(owned)
      ensures OthersSafe(heap.mem, heap.mem, Live(heap.blocks), Live(heap.blocks), owned, owned)
    {
      KeepOthers();
      hide Store, Represents, Live, OthersSafe;
      ChangeDirectory(heap.mem, Live(heap.blocks), files, slot, e, owned, contents);
      Insert(slot, e, owned, contents);
    }

    /** Takes an unused slot, for an entry whose data are where they belong. */
    method Insert(slot: nat, e: Entry, ghost owned': map<nat, Block>, ghost contents': map<nat, seq<byte>>)
      requires heap.Valid() && heap.initialized && |files| == |depth| == RamTree.MAX_FILES
      requires Tree(files, depth) && IsDirectory(files, currentDir) && fileCount == CountInUse(files)
      requires slot < |files| && !files[slot].inUse && e.inUse && IsDirectory(files, e.parent)
      requires ShortNames(files) && |e.name| <= MAX_NAME
      requires Store(heap.mem, Live(heap.blocks), files[slot := e], owned', contents')
      modifies `files, `depth, `fileCount, `owned, `contents
      ensures Valid() && files == old(files)[slot := e] && owned == owned' && contents == contents'
    {
      hide Store, Represents, Live;
      AddKeepsTree(files, depth, slot, e);
      CountUpdate(files, slot, e);
      files, depth := files[slot := e], depth[slot := depth[e.parent] + 1];
      fileCount := fileCount + 1;
      owned, contents := owned', contents';
    }

    /** A file starts with a fresh 256-byte buffer that holds the empty string. */
    method AddFile(slot: nat, name: string) returns (ok: bool)
      requires Valid() && slot < |files| && !files[slot].inUse
      modifies this, heap, heap.arena
      ensures Valid() && currentDir == old(currentDir) && ok == !HeapFull(old(heap.blocks), FIRST_SIZE)
      ensures OthersSafe(old(heap.mem), heap.mem, old(Live(heap.blocks)), Live(heap.blocks), old(owned), owned)
      ensures !ok ==> contents == old(contents) && owned == old(owned) && heap.blocks == old(heap.blocks)
                      && files == old(files)[slot := files[slot]] && !files[slot].inUse
      ensures ok ==> contents == old(contents)[slot := []] && owned - {slot} == old(owned)
                     && files == old(files)[slot := files[slot]] && Created(files[slot], name, false, currentDir)
      ensures ok ==> heap.blocks == Serve(old(heap.blocks), FIRST_SIZE)
                     && owned == old(owned)[slot := NewBlock(old(heap.blocks), FIRST_SIZE)]
    {
      hide Store, Represents, Live, OthersSafe, PayloadsKept, Tree, HeapFull, NewBlock, ServedPointer, Serve;
      ghost var bs, m0 := heap.blocks, heap.mem;
      Served(m0, bs, FIRST_SIZE);
      StoreFacts(m0, Live(bs), files, owned, contents, slot);
      var ptr := heap.Malloc(FIRST_SIZE);
      if ptr == NULL {
        StoreFull(m0, heap.mem, Live(bs), files, owned, contents);
        SetUnused(slot, files[slot].(name := Stored(name), data := NULL));
        return false;
      }
      ghost var m1 := heap.mem;
      heap.CopyIn(ptr, [0], NewBlock(bs, FIRST_SIZE));
      var e := Entry(Stored(name), ptr, 0, FIRST_SIZE, false, currentDir, true);
      StoreNew(m0, m1, heap.mem, bs, ptr, files, slot, e, owned, contents);
      Insert(slot, e, owned[slot := NewBlock(bs, FIRST_SIZE)], contents[slot := []]);
      return true;
    }

    /** What an unused slot holds does not matter. */
    method SetUnused(slot: nat, e: Entry)
      requires Valid() && slot < |files| && !files[slot].inUse && !e.inUse
      modifies `files
      ensures Valid() && files == old(files)[slot := e]
    {
      hide Store, Represents, Live;
      ChangeDirectory(heap.mem, Live(heap.blocks), files, slot, e, owned, contents);
      UnusedKeepsTree(files, depth, slot, e);
      CountUpdate(files, slot, e);
      files := files[slot := e];
    }

    /** Nothing has happened. */
    lemma KeepOthers()
      requires Valid()
      ensures OthersSafe(heap.mem, heap.mem, Live(heap.blocks), Live(heap.blocks), owned, owned)
    {
      KeptReflexive(heap.mem, heap.blocks, Live(heap.blocks) - Owned(owned));
    }

    /** ramfs_delete */
    method Delete(name: string) returns (code: int)
      requires Valid()
      modifies this, heap, heap.arena
      ensures Valid() && currentDir == old(currentDir)
      ensures OthersSafe(old(heap.mem), heap.mem, old(Live(heap.blocks)), Live(heap.blocks), old(owned), owned)
      ensures var i := Find(old(files), name, currentDir);
              if i < 0 then code == NOT_FOUND && files == old(files) && contents == old(contents)
              else if old(files)[i].isDir && HasChild(old(files), i) then
                code == NOT_EMPTY && files == old(files) && contents == old(contents)
              else
                && code == 0 && i != ROOT && i != currentDir
                && files == old(files)[i := ZEROED] && contents == old(contents) - {i}
                && owned == old(owned) - {i}
                && heap.blocks == Freed(old(heap.blocks), old(owned), i)
      ensures code != 0 ==> heap.blocks == old(heap.blocks)
      ensures old(UniqueNames(files)) ==> UniqueNames(files)
    {
      var i := FindFile(name, currentDir);
      if i < 0 { KeepOthers(); return NOT_FOUND; }
      if files[i].isDir {
        var full := HasEntries(i);
        if full { KeepOthers(); return NOT_EMPTY; }
      } else {
        FileHasNoChild(files, depth, i);
      }
      RemoveKeepsTree(files, depth, i);
      if UniqueNames(files) { RemoveKeepsUnique(files, i); }
      RemoveEntry(i);
      return 0;
    }

    method HasEntries(i: nat) returns (r: bool)
      ensures r == HasChild(files, i)
    {
      var j := 0;
      while j < |files|
        invariant j <= |files|
        invariant forall k | 0 <= k < j :: !(files[k].inUse && files[k].parent == i)
      {
        if files[j].inUse && files[j].parent == i { return true; }
        j := j + 1;
      }
      return false;
    }

    /** Gives the entry's block back and clears the entry. */
    method RemoveEntry(i: nat)
      requires Valid() && 0 < i < |files| && files[i].inUse && files[i].parent == currentDir
      requires Tree(files[i := ZEROED], depth) && !HasChild(files, i)
      modifies this, heap, heap.arena
      ensures Valid() && currentDir == old(currentDir) && i != currentDir
      ensures OthersSafe(old(heap.mem), heap.mem, old(Live(heap.blocks)), Live(heap.blocks), old(owned), owned)
      ensures files == old(files)[i := ZEROED] && contents == old(contents) - {i} && owned == old(owned) - {i}
      ensures heap.blocks == Freed(old(heap.blocks), old(owned), i)
    {
      hide Store, Represents, Live, OthersSafe, PayloadsKept, Tree, Release;
      ghost var m, live := heap.mem, Live(heap.blocks);
      StoreFacts(m, live, files, owned, contents, i);
      CountUpdate(files, i, ZEROED);
      if files[i].data != NULL {
        var code := heap.Free(files[i].data, owned[i]);
        StoreFreed(m, heap.mem, live, files, i, owned, contents);
      } else {
        DirectoryHasNoData(heap.mem, live, files, i, owned, contents);
        KeepOthers();
        ChangeDirectory(m, live, files, i, ZEROED, owned, contents);
      }
      files := files[i := ZEROED];
      owned, contents := owned - {i}, contents - {i};
      fileCount := fileCount - 1;
    }

    /** The block list after a write of size bytes. */
    ghost function BlocksAfter(name: string, size: u32): seq<Block>
      reads this, heap
    {
      var i := Find(files, name, currentDir);
      if i >= 0 then if i in owned then AfterWrite(heap.blocks, owned[i], files[i].capacity, size) else heap.blocks
      else if CreateCode(files, currentDir, heap.blocks, name, false) < 0 then heap.blocks
      else AfterWrite(Serve(heap.blocks, FIRST_SIZE), NewBlock(heap.blocks, FIRST_SIZE), FIRST_SIZE, size)
    }

    /** ramfs_write_file */
    method WriteFile(name: string, data: seq<byte>) returns (code: int)
      requires Valid() && |data| < TWO32
      modifies this, heap, heap.arena
      ensures Valid() && currentDir == old(currentDir)
      ensures OthersSafe(old(heap.mem), heap.mem, old(Live(heap.blocks)), Live(heap.blocks), old(owned), owned)
      ensures heap.blocks == old(BlocksAfter(name, |data|))
      ensures var found := Find(old(files), name, currentDir);
              var created := CreateCode(old(files), currentDir, old(heap.blocks), name, false);
              if found >= 0 then
                if old(files)[found].isDir then code == IS_DIRECTORY && contents == old(contents)
                else if TooBig(|data|, old(files)[found].capacity, old(heap.blocks)) then
                  code == NO_MEMORY && contents == old(contents)
                else code == |data| && contents == old(contents)[found := data]
              else if created < 0 then code == created && contents == old(contents)
              else if TooBig(|data|, FIRST_SIZE, Serve(old(heap.blocks), FIRST_SIZE)) then
                code == NO_MEMORY && contents == old(contents)[created := []]
              else code == |data| && contents == old(contents)[created := data]
      ensures code >= 0 && Find(old(files), name, currentDir) >= 0 ==>
                var i := Find(old(files), name, currentDir);
                && files == old(files)[i := old(files)[i].(data := files[i].data, size := |data|,
                                                           capacity := Room(|data|, old(files)[i].capacity))]
                && i in old(owned) && i in owned && owned == old(owned)[i := owned[i]]
                && owned[i] == RoomBlock(old(heap.blocks), old(owned)[i], old(files)[i].capacity, |data|)
      ensures code < 0 && Find(old(files), name, currentDir) >= 0 ==> files == old(files) && owned == old(owned)
      ensures code >= 0 && Find(old(files), name, currentDir) < 0 ==>
                var i := CreateCode(old(files), currentDir, old(heap.blocks), name, false);
                && 0 <= i < |files| && files == old(files)[i := files[i]]
                && IsFile(files[i]) && files[i].name == Stored(name) && files[i].parent == currentDir
      ensures NamesFrom(old(files), files, name)
      ensures old(UniqueNames(files)) && |name| <= MAX_NAME ==> UniqueNames(files)
    {
      hide OthersSafe, TooBig, HeapFull, Serve, Represents, Store, Live, Tree, UniqueNames, Stored, NewBlock, RoomBlock,
        AfterWrite, GrowthFails;
      FilesOwn();
      var i := FindFile(name, currentDir);
      ghost var m0, live0, owned0 := heap.mem, Live(heap.blocks), owned;
      if i < 0 {
        i := Create(name, false);
        FilesOwn();
        if i < 0 { return i; }
      } else {
        KeepOthers();
        if files[i].isDir { return IS_DIRECTORY; }
      }
      code := Replace(i, data, m0, live0, owned0);
    }

    lemma NewSlot(name: string)
      requires Valid()
      ensures var i := CreateCode(files, currentDir, heap.blocks, name, false); i >= 0 ==> i !in contents
    {
      hide Store, Tree, Represents, HeapFull, Live, Find;
      var i := UnusedFrom(files, 0);
      if i < |files| { StoreFacts(heap.mem, Live(heap.blocks), files, owned, contents, i); }
    }

    lemma FilesOwn()
      requires Valid()
      ensures forall i: nat | i < |files| && files[i].inUse && files[i].isDir :: i !in owned
      ensures forall i: nat | i < |files| && IsFile(files[i]) :: i in owned
    {
      hide Represents, Tree;
    }

    /** The part of it that concerns an existing file. */
    method Replace(i: nat, data: seq<byte>, ghost m0: seq<byte>, ghost live0: set<Block>, ghost owned0: map<nat, Block>)
        returns (code: int)
      requires Valid() && i < |files| && IsFile(files[i]) && i in owned && |data| < TWO32
      requires OthersSafe(m0, heap.mem, live0, Live(heap.blocks), owned0, owned)
      modifies this, heap, heap.arena
      ensures Valid() && currentDir == old(currentDir)
      ensures i in owned && i in old(owned) && owned == old(owned)[i := owned[i]]
      ensures OthersSafe(m0, heap.mem, live0, Live(heap.blocks), owned0, owned)
      ensures heap.blocks == AfterWrite(old(heap.blocks), old(owned)[i], old(files[i]).capacity, |data|)
      ensures if TooBig(|data|, old(files[i]).capacity, old(heap.blocks)) then
                && code == NO_MEMORY && contents == old(contents) && files == old(files) && owned == old(owned)
              else
                && owned[i] == RoomBlock(old(heap.blocks), old(owned)[i], old(files[i]).capacity, |data|)
                && code == |data| && contents == old(contents)[i := data] && |files| == old(|files|)
                && files == old(files)[i := old(files[i]).(data := files[i].data, size := |data|,
                                                        capacity := Room(|data|, old(files[i]).capacity))]
      ensures old(UniqueNames(files)) ==> UniqueNames(files)
    {
      hide OthersSafe, TooBig, HeapFull, Serve, Represents, Store, Live, Tree, UniqueNames, Stored, NewBlock, Finished,
        RoomBlocks, RoomBlock, GrowthFails;
      ghost var bs, files1, m1, live1, owned1 := heap.blocks, files, heap.mem, Live(heap.blocks), owned;
      var ok := Reserve(i, |data|);
      OthersSafeTransitive(m0, m1, heap.mem, live0, live1, Live(heap.blocks), owned0, owned1, owned);
      if !ok { return NO_MEMORY; }
      ghost var m2, live2, owned2 := heap.mem, Live(heap.blocks), owned;
      RoomEnough(bs, |data|, files1[i].capacity, files[i].capacity);
      Overwrite(i, data);
      assert files == files1[i := files[i]];
      ResizedUnique(files1, i, files[i]);
      OthersSafeTransitive(m0, m2, heap.mem, live0, live2, Live(heap.blocks), owned0, owned2, owned);
      return |data|;
    }

    /** Makes room for size bytes in file i. */
    method Reserve(i: nat, size: u32) returns (ok: bool)
      requires Valid() && i < |files| && IsFile(files[i])
      modifies this, heap, heap.arena
      ensures Valid() && currentDir == old(currentDir) && contents == old(contents)
      ensures OthersSafe(old(heap.mem), heap.mem, old(Live(heap.blocks)), Live(heap.blocks), old(owned), owned)
      ensures ok == !TooBig(size, old(files[i]).capacity, old(heap.blocks))
      ensures !ok ==> files == old(files) && owned == old(owned) && heap.blocks == old(heap.blocks)
      ensures ok ==>
                && i in old(owned)
                && heap.blocks == RoomBlocks(old(heap.blocks), old(owned)[i], old(files[i]).capacity, size)
                && owned == old(owned)[i := RoomBlock(old(heap.blocks), old(owned)[i], old(files[i]).capacity, size)]
      ensures ok ==>
                files == old(files)[i := old(files[i]).(data := files[i].data,
                                                        capacity := Room(size, old(files[i]).capacity))]
    {
      hide Store, Represents, Live, OthersSafe, PayloadsKept, Tree, HeapFull, NewBlock, ServedPointer, Serve, Moved,
        Round256;
      var e := files[i];
      ghost var bs, m := heap.blocks, heap.mem;
      StoreFacts(m, Live(bs), files, owned, contents, i);
      if size <= e.capacity {
        KeepOthers();
        assert owned[i := owned[i]] == owned;
        return true;
      }
      var capacity := Round256(size);
      Served(m, bs, capacity);
      var ptr := heap.Relocate(e.data, e.size, capacity, owned[i]);
      if ptr == NULL {
        StoreFull(m, heap.mem, Live(bs), files, owned, contents);
        return false;
      }
      BufferHolds(bs, size);
      ghost var b := NewBlock(bs, capacity);
      var e' := e.(data := ptr, capacity := capacity);
      StoreMoved(m, heap.mem, Live(bs), Live(heap.blocks), files, i, e', ptr, b, owned, contents);
      ResizeKeepsTree(files, depth, i, e');
      CountUpdate(files, i, e');
      files := files[i := e'];
      owned := owned[i := b];
      return true;
    }

    /** Replaces what file i holds, and stores a zero behind it, wherever that is. */
    method Overwrite(i: nat, data: seq<byte>)
      requires Valid() && i < |files| && IsFile(files[i]) && |data| < TWO32 && |data| <= files[i].capacity
      modifies `files, `fileCount, `contents, heap, heap.arena
      ensures Valid() && i in owned && heap.blocks == Finished(old(heap.blocks), owned[i], |data|)
      ensures OthersSafe(old(heap.mem), heap.mem, old(Live(heap.blocks)), Live(heap.blocks), old(owned), owned)
      ensures files == old(files)[i := old(files[i]).(size := |data|)] && contents == old(contents)[i := data]
    {
      hide Store, Represents, Live, OthersSafe, PayloadsKept, Tree, Overlay, Terminated, ZeroAt;
      ghost var m, live := heap.mem, Live(heap.blocks);
      StoreFacts(m, live, files, owned, contents, i);
      var e := files[i];
      heap.CopyIn(e.data, data, owned[i]);
      ghost var m1 := heap.mem;
      if data != [] {
        heap.PutZero(e.data + |data|, |data|, owned[i]);
      } else {
        KeptHere(heap.mem, heap.blocks, Live(heap.blocks) - {owned[i]});
      }
      StoreOverwritten(m, m1, heap.mem, live, files, i, data, owned, contents);
      ResizeKeepsTree(files, depth, i, e.(size := |data|));
      CountUpdate(files, i, e.(size := |data|));
      files := files[i := e.(size := |data|)];
      contents := contents[i := data];
    }

    /** ramfs_read_file */
    method ReadFile(name: string, buffer: array<byte>, bufferSize: u32) returns (code: int)
      requires Valid() && buffer != heap.arena && bufferSize <= buffer.Length
      modifies buffer
      ensures var i := Find(files, name, currentDir);
              if i < 0 then code == NOT_FOUND && buffer[..] == old(buffer[..])
              else if files[i].isDir then code == NOT_A_FILE && buffer[..] == old(buffer[..])
              else
                && i in contents && code == Min(|contents[i]|, bufferSize)
                && 0 <= code && buffer[..code] == contents[i][..code] && buffer[code..] == old(buffer[code..])
    {
      var i := FindFile(name, currentDir);
      if i < 0 { return NOT_FOUND; }
      if files[i].isDir { return NOT_A_FILE; }
      code := ReadEntry(i, buffer, bufferSize);
    }

    /** Copies the front of file i to the buffer. */
    method ReadEntry(i: nat, buffer: array<byte>, bufferSize: u32) returns (toRead: nat)
      requires Valid() && i < |files| && IsFile(files[i]) && buffer != heap.arena && bufferSize <= buffer.Length
      modifies buffer
      ensures i in contents && toRead == Min(|contents[i]|, bufferSize)
      ensures buffer[..toRead] == contents[i][..toRead] && buffer[toRead..] == old(buffer[toRead..])
    {
      hide Represents, Store, Tree, Live, Payload;
      StoreFacts(heap.mem, Live(heap.blocks), files, owned, contents, i);
      var e := files[i];
      toRead := Min(e.size, bufferSize);
      FrontOfData(heap.mem, owned[i], e.size, toRead);
      heap.CopyOut(e.data, toRead, buffer);
    }

    /** ramfs_get_current_path: fills a 256-byte buffer from its end. The text fits unless the
        path has more than 255 characters. */
    method CurrentPath() returns (fits: bool, path: string)
      requires Valid()
      ensures fits <==> |PathOf(files, depth, currentDir)| <= 255
      ensures fits ==> path == if currentDir == ROOT then "/" else PathOf(files, depth, currentDir)
    {
      if currentDir == ROOT { return true, "/"; }
      hide Store, Represents, Live, ShortNames, CountInUse;
      var temp := new char[256](_ => '\0');
      var pos := 255;
      var dir := currentDir;
      ghost var whole := PathOf(files, depth, currentDir);
      while dir != ROOT
        invariant IsDirectory(files, dir) && 0 <= pos <= 255
        invariant whole == PathOf(files, depth, dir) + temp[pos..255]
        decreases depth[dir]
      {
        assert Hangs(files, depth, dir);
        var name, tail := files[dir].name, temp[pos..255];
        assert whole == PathOf(files, depth, files[dir].parent) + ("/" + name + tail);
        pos := pos - |name|;
        if pos < 0 { return false, ""; }
        forall k | 0 <= k < |name| { temp[pos + k] := name[k]; }
        assert temp[pos..255] == name + tail;
        pos := pos - 1;
        if pos < 0 { return false, ""; }
        temp[pos] := '/';
        assert temp[pos..255] == "/" + name + tail;
        dir := files[dir].parent;
      }
      return true, temp[pos..255];
    }

    /** cmd_cd with an argument: 1 when there is no such directory. */
    method ChangeDir(target: string) returns (code: int)
      requires Valid()
      modifies `currentDir
      ensures Valid() && currentDir == Cd(files, old(currentDir), target)
      ensures var i := Find(files, target, old(currentDir));
              code == if target in {"..", "/"} || (i >= 0 && files[i].isDir) then 0 else 1
    {
      CdStaysInTree(files, depth, currentDir, target);
      if target == ".." {
        if currentDir != ROOT { currentDir := files[currentDir].parent; }
        return 0;
      } else if target == "/" {
        currentDir := ROOT;
        return 0;
      }
      var i := FindFile(target, currentDir);
      if i < 0 { return 1; }
      if !files[i].isDir { return 1; }
      currentDir := i;
      return 0;
    }
  }

  // ----- the heap after a write

  /** The block list after the block of entry i, if it has one, has been given back. */
  ghost function Freed(bs: seq<Block>, owned: map<nat, Block>, i: nat): seq<Block> {
    if i in owned then Release(bs, owned[i].at) else bs
  }

  /** The block list once there is room for size bytes in a file on block b. */
  ghost function RoomBlocks(bs: seq<Block>, b: Block, capacity: u32, size: u32): seq<Block> {
    if size > capacity then Release(Serve(bs, Round256(size)), b.at) else bs
  }

  /** The block that the file then is on. */
  ghost function RoomBlock(bs: seq<Block>, b: Block, capacity: u32, size: u32): Block {
    if size > capacity && !GrowthFails(bs, size) then NewBlock(bs, Round256(size)) else b
  }

  /** The block list after n bytes and, if there are any, a zero behind them have been stored in
      block b. */
  ghost function Finished(bs: seq<Block>, b: Block, n: nat): seq<Block> {
    if n > 0 then Terminated(bs, b, n) else bs
  }

  /** The block list after a write of size bytes to a file on block b. */
  ghost function AfterWrite(bs: seq<Block>, b: Block, capacity: u32, size: u32): seq<Block> {
    if TooBig(size, capacity, bs) then bs
    else Finished(RoomBlocks(bs, b, capacity, size), RoomBlock(bs, b, capacity, size), size)
  }

  lemma RoomEnough(bs: seq<Block>, size: u32, capacity: u32, capacity': u32)
    requires capacity' == Room(size, capacity) && !TooBig(size, capacity, bs)
    ensures size <= capacity'
  {
    if size > capacity { BufferHolds(bs, size); }
  }

  lemma CountNone(files: seq<Entry>)
    requires forall e | e in files :: !e.inUse
    ensures CountInUse(files) == 0
  {
    if files != [] {
      assert files[0] in files;
      CountNone(files[1..]);
    }
  }

  /** Capacity after making room for size bytes. */
  function Room(size: u32, capacity: u32): u32 {
    if size > capacity then Round256(size) else capacity
  }

  /** Room is needed and the heap has none. */
  ghost predicate TooBig(size: u32, capacity: u32, blocks: seq<Block>) {
    size > capacity && GrowthFails(blocks, size)
  }

  /** The entry ramfs_create fills in. */
  lemma CreatedIs(e: Entry, name: string, isDir: bool, parent: nat)
    requires Created(e, name, isDir, parent)
    ensures e.inUse && e.name == Stored(name) && e.parent == parent
  {
  }

  predicate Created(e: Entry, name: string, isDir: bool, parent: nat) {
    && e.name == Stored(name) && e.isDir == isDir && e.parent == parent && e.inUse
    && e.size == 0 && e.capacity == (if isDir then 0 else FIRST_SIZE)
  }
}

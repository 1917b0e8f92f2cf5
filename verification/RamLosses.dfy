/** What the zero that a write stores behind its data does to the heap, and what is left when a
    file has come and gone. */
module RamLosses {
  import opened Bytes
  import opened BlockList
  import opened KernelHeap
  import opened HeapShares
  import opened FileTable
  import opened RamTree
  import opened RamStore
  import opened RamFileSystem

  // ----- one terminator

  /** A zero behind n bytes in block b does no harm: there is none, it is still in the block, or
      it meets a low byte of the next block's size that is zero already. The store behind the
      last block is outside the arena. */
  ghost predicate Harmless(bs: seq<Block>, b: Block, n: nat) {
    n == 0 || n < b.size || forall next | next in bs && next.at == b.End() :: next.size % 0x100 == 0
  }

  /** Otherwise the next block loses the bytes that its size field no longer covers, fewer than
      256 of them; every block keeps its place and its owner. */
  lemma TerminatorEffect(bs: seq<Block>, b: Block, n: nat)
    requires WellFormed(bs) && b in Live(bs) && n <= b.size
    ensures var r := Finished(bs, b, n);
            && WellFormed(r) && Extents(r) == Extents(bs) && Live(r) == Live(bs)
            && (r == bs <==> Harmless(bs, b, n))
            && Lost(bs) <= Lost(r) < Lost(bs) + 0x100 && (Lost(r) == Lost(bs) <==> Harmless(bs, b, n))
  {
    if 0 < n == b.size {
      NickedEffect(bs, b.End());
      hide WellFormed, Live, Extents, Lost, Nicked;
      if next :| next in bs && next.at == b.End() {
        forall c | c in bs && c.at == b.End() ensures c.size % 0x100 == next.size % 0x100 {
          SameSize(bs, c, next);
        }
      }
    }
  }

  lemma SameSize(bs: seq<Block>, b: Block, c: Block)
    requires WellFormed(bs) && b in bs && c in bs && b.at == c.at
    ensures b.size == c.size
  {
    SameOffsetSameBlock(bs, b, c);
  }

  /** The headers in memory are still those of the block list exactly when it does no harm. */
  lemma HeadersAfter(m: seq<byte>, bs: seq<Block>, b: Block, n: nat)
    requires Represents(m, bs) && b in Live(bs) && 0 < n <= b.size
    ensures Represents(ZeroAt(m, b, n), bs) <==> Harmless(bs, b, n)
  {
    ZeroStored(m, bs, b, n);
    TerminatorEffect(bs, b, n);
    var m' := ZeroAt(m, b, n);
    assert Represents(m', Finished(bs, b, n));
    if Represents(m', bs) && n == b.size {
      forall next | next in bs && next.at == b.End() ensures next.size % 0x100 == 0 {
        BothHeaders(m', bs, next);
      }
    }
    hide ZeroAt, WellFormed, Layout, Live, Nicked;
  }

  lemma BothHeaders(m: seq<byte>, bs: seq<Block>, b: Block)
    requires Layout(m, bs) && Layout(m, Nicked(bs, b.at)) && b in bs
    ensures b.size % 0x100 == 0
  {
    NickedIn(bs, b);
    hide Nicked, Word;
    assert HeaderOk(m, b) && HeaderOk(m, Nick(b));
  }

  lemma NickedIn(bs: seq<Block>, b: Block)
    requires b in bs
    ensures Nick(b) in Nicked(bs, b.at)
  {
    var i :| 0 <= i < |bs| && bs[i] == b;
    assert Nicked(bs, b.at)[i] == Nick(b);
  }

  // ----- one write

  /** A write of size bytes to a file on block b stores no terminator, or a harmless one. */
  ghost predicate TerminatorOk(bs: seq<Block>, b: Block, capacity: u32, size: u32) {
    TooBig(size, capacity, bs) || Harmless(RoomBlocks(bs, b, capacity, size), RoomBlock(bs, b, capacity, size), size)
  }

  lemma RoomIsThere(bs: seq<Block>, b: Block, capacity: u32, n: u32)
    requires WellFormed(bs) && b in Live(bs) && capacity <= b.size && !TooBig(n, capacity, bs)
    ensures var bs', b' := RoomBlocks(bs, b, capacity, n), RoomBlock(bs, b, capacity, n);
            && WellFormed(bs') && b' in Live(bs') && n <= Room(n, capacity) <= b'.size && Lost(bs') == Lost(bs)
  {
    if n > capacity {
      var size := Round256(n);
      BufferHolds(bs, n);
      MallocIsFirstFit(bs, size);
      AllocateEffect(bs, Rounded(size));
      ReleaseEffect(Serve(bs, size), b);
      LostAllocate(bs, Rounded(size));
      LostRelease(Serve(bs, size), b.at);
    }
    hide WellFormed, FirstFit, Granted, Allocate, Release, Live, Lost, Round256;
  }

  /** A write loses bytes of the heap exactly when its terminator does harm. */
  lemma WriteLoses(bs: seq<Block>, b: Block, capacity: u32, n: u32)
    requires WellFormed(bs) && b in Live(bs) && capacity <= b.size
    ensures var r := AfterWrite(bs, b, capacity, n);
            && WellFormed(r) && Lost(bs) <= Lost(r) < Lost(bs) + 0x100
            && (Lost(r) == Lost(bs) <==> TerminatorOk(bs, b, capacity, n))
  {
    if !TooBig(n, capacity, bs) {
      RoomIsThere(bs, b, capacity, n);
      TerminatorEffect(RoomBlocks(bs, b, capacity, n), RoomBlock(bs, b, capacity, n), n);
    }
    hide WellFormed, Live, Lost, Finished, RoomBlocks, RoomBlock, Harmless;
  }

  /** On an empty heap the first file of 256 bytes fills its block, and the zero behind it costs
      the rest of the heap 232 bytes. */
  lemma FirstFullFile(fs: RamFs, name: string)
    requires fs.Valid() && fs.heap.blocks == INITIAL_BLOCKS
    requires Find(fs.files, name, fs.currentDir) == -1 && UnusedFrom(fs.files, 0) < |fs.files|
    ensures fs.BlocksAfter(name, 256) == [Block(0, 256, false), Block(268, ARENA - 512, true, 232)]
    ensures Lost(fs.BlocksAfter(name, 256)) == 232
  {
    var bs := Serve(INITIAL_BLOCKS, 256);
    assert bs == [Block(0, 256, false), Block(268, ARENA - 280, true)];
    assert NewBlock(INITIAL_BLOCKS, 256) == Block(0, 256, false);
    assert CreateCode(fs.files, fs.currentDir, INITIAL_BLOCKS, name, false) >= 0;
    hide Store, Tree, Represents, Serve, CreateCode;
    var r := [Block(0, 256, false), Block(268, ARENA - 512, true, 232)];
    assert Nicked(bs, 268) == r;
    assert r[1..] == [r[1]] && r[1..][1..] == [];
    assert Lost(r[1..]) == 232;
  }

  // ----- many writes

  /** Writes to a file that is on block b now: none of them stores a terminator that does harm,
      in the heap as it is then. */
  ghost predicate WritesSurvive(bs: seq<Block>, b: Block, capacity: u32, writes: seq<text32>)
    decreases |writes|
  {
    writes != [] ==>
      var n: u32 := |writes[0]|;
      && TerminatorOk(bs, b, capacity, n)
      && WritesSurvive(AfterWrite(bs, b, capacity, n), RoomBlock(bs, b, capacity, n),
                       if TooBig(n, capacity, bs) then capacity else Room(n, capacity), writes[1..])
  }

  /** Data whose terminator always fits: empty, or not a whole number of 256-byte units. */
  predicate Terminable(data: text32) {
    data == [] || |data| % 256 != 0
  }

  /** A terminator that stays in the buffer is harmless. */
  lemma FitsIsOk(bs: seq<Block>, b: Block, capacity: u32, data: text32)
    requires WellFormed(bs) && b in Live(bs) && capacity <= b.size && capacity % 256 == 0 && Terminable(data)
    ensures TerminatorOk(bs, b, capacity, |data|)
  {
    hide WellFormed, Live, GrowthFails, RoomBlocks, RoomBlock, Lost;
    if !TooBig(|data|, capacity, bs) { RoomIsThere(bs, b, capacity, |data|); }
  }

  /** Writes of such data survive. */
  lemma {:induction false} TerminableSurvive(bs: seq<Block>, b: Block, capacity: u32, writes: seq<text32>)
    requires WellFormed(bs) && b in Live(bs) && capacity <= b.size && capacity % 256 == 0
    requires forall w | w in writes :: Terminable(w)
    ensures WritesSurvive(bs, b, capacity, writes)
    decreases |writes|
  {
    if writes != [] {
      var n: u32 := |writes[0]|;
      FitsIsOk(bs, b, capacity, writes[0]);
      StillThere(bs, b, capacity, n);
      TerminableSurvive(AfterWrite(bs, b, capacity, n), RoomBlock(bs, b, capacity, n),
                        if TooBig(n, capacity, bs) then capacity else Room(n, capacity), writes[1..]);
    }
    hide TerminatorOk, TooBig, AfterWrite, RoomBlock, Room, WellFormed, Live;
  }

  /** After a write the file is on a block that is large enough. */
  lemma StillThere(bs: seq<Block>, b: Block, capacity: u32, n: u32)
    requires WellFormed(bs) && b in Live(bs) && capacity <= b.size && capacity % 256 == 0
    ensures var r, c := AfterWrite(bs, b, capacity, n), if TooBig(n, capacity, bs) then capacity else Room(n, capacity);
            var b' := RoomBlock(bs, b, capacity, n);
            WellFormed(r) && b' in Live(r) && c <= b'.size && c % 256 == 0
  {
    if !TooBig(n, capacity, bs) {
      RoomIsThere(bs, b, capacity, n);
      TerminatorEffect(RoomBlocks(bs, b, capacity, n), RoomBlock(bs, b, capacity, n), n);
    }
    hide WellFormed, Live, Lost, Extents, Finished, Harmless, GrowthFails, NewBlock;
  }

  // ----- a file that comes and goes

  /** Delete finds a file that create has made exactly when its name was stored as it is. */
  lemma StoredIsFound(files: seq<Entry>, slot: nat, e: Entry, name: string)
    requires slot < |files| && !files[slot].inUse && e.inUse && e.name == Stored(name)
    requires ShortNames(files) && Find(files, name, e.parent) == -1
    ensures Find(files[slot := e], name, e.parent) == if |name| <= MAX_NAME then slot else -1
  {
    if |name| <= MAX_NAME {
      FindAdded(files, slot, e);
    } else {
      LongNameNotFound(files[slot := e], name, e.parent);
    }
  }

  lemma LongNameNotFound(files: seq<Entry>, name: string, parent: nat)
    requires ShortNames(files) && |name| > MAX_NAME
    ensures Find(files, name, parent) == -1
  {
    assert forall i | 0 <= i < |files| :: !Matches(files[i], name, parent);
  }

  /** The new file can be found again, or there is none. */
  ghost predicate CanGo(fs: RamFs, name: string)
    reads fs, fs.heap
  {
    |name| <= MAX_NAME || CreateCode(fs.files, fs.currentDir, fs.heap.blocks, name, false) < 0
  }

  /** The writes to it do no harm to the heap, or there is none. */
  ghost predicate HarmlessWrites(fs: RamFs, name: string, writes: seq<text32>)
    reads fs, fs.heap
  {
    CreateCode(fs.files, fs.currentDir, fs.heap.blocks, name, false) >= 0 ==>
      WritesSurvive(Serve(fs.heap.blocks, FIRST_SIZE), NewBlock(fs.heap.blocks, FIRST_SIZE), FIRST_SIZE, writes)
  }

  /** Create a file, write it any number of times, delete it: whatever succeeded on the way, all
      files are as before exactly when the name can be stored as it is, and the headers of the
      heap are where they were. No byte of the heap is lost exactly when no terminator has done
      harm; then a heap without earlier losses is the same as before. */
  method CreateWriteDelete(fs: RamFs, name: string, writes: seq<text32>)
    requires fs.Valid() && Find(fs.files, name, fs.currentDir) == -1
    modifies fs, fs.heap, fs.heap.arena
    ensures fs.Valid() && (fs.contents == old(fs.contents) <==> old(CanGo(fs, name)))
    ensures old(CanGo(fs, name)) ==>
              && Extents(fs.heap.blocks) == Extents(old(fs.heap.blocks))
              && Lost(old(fs.heap.blocks)) <= Lost(fs.heap.blocks)
              && (Lost(fs.heap.blocks) == Lost(old(fs.heap.blocks)) <==> old(HarmlessWrites(fs, name, writes)))
    ensures old(CanGo(fs, name)) && Tight(old(fs.heap.blocks)) ==>
              (fs.heap.blocks == old(fs.heap.blocks) <==> old(HarmlessWrites(fs, name, writes)))
  {
    hide Store, Tree, Live, OthersSafe, Represents, HeapFull, Serve, NewBlock, WritesSurvive, Tight, Extents, Lost;
    ghost var m0, bs0, owned0, files0, contents0 := fs.heap.mem, fs.heap.blocks, fs.owned, fs.files, fs.contents;
    var slot := fs.Create(name, false);
    if slot < 0 {
      HeapRestored(m0, fs.heap.mem, bs0, fs.heap.blocks, files0, owned0, contents0, fs.files, fs.contents);
      return;
    }
    StoredIsFound(files0, slot, fs.files[slot], name);
    CreatedIs(fs.files[slot], name, false, fs.currentDir);
    if |name| > MAX_NAME {
      WriteOthers(fs, name, slot, writes);
      var code := fs.Delete(name);
      return;
    }
    assert contents0[slot := []] - {slot} == contents0;
    LostAllocate(bs0, Rounded(FIRST_SIZE));
    assert Lost(fs.heap.blocks) == Lost(bs0) by { ServedLost(bs0, FIRST_SIZE); }
    WriteAll(fs, name, slot, writes, m0, Live(bs0), owned0);
    FileHasNoChild(fs.files, fs.depth, slot);
    ghost var m, bs, owned := fs.heap.mem, fs.heap.blocks, fs.owned;
    var code := fs.Delete(name);
    LostRelease(bs, owned[slot].at);
    OthersSafeTransitive(m0, m, fs.heap.mem, Live(bs0), Live(bs), Live(fs.heap.blocks), owned0, owned, fs.owned);
    HeapRestored(m0, fs.heap.mem, bs0, fs.heap.blocks, files0, owned0, contents0, fs.files, fs.contents);
  }

  lemma ServedLost(bs: seq<Block>, request: u32)
    ensures Lost(Serve(bs, request)) == Lost(bs)
  {
    LostAllocate(bs, Rounded(request));
  }

  /** The writes to the file in slot do no harm. */
  ghost predicate SurviveFrom(fs: RamFs, slot: nat, writes: seq<text32>)
    reads fs, fs.heap
  {
    && slot < |fs.files| && slot in fs.owned
    && WritesSurvive(fs.heap.blocks, fs.owned[slot], fs.files[slot].capacity, writes)
  }

  /** So far no more than lost0 bytes have been lost, and none will be. */
  ghost predicate Intact(fs: RamFs, slot: nat, lost0: nat, writes: seq<text32>)
    reads fs, fs.heap
  {
    Lost(fs.heap.blocks) == lost0 && SurviveFrom(fs, slot, writes)
  }

  /** The maps differ at i at most. */
  ghost predicate SameBut<T>(m: map<nat, T>, m': map<nat, T>, i: nat) {
    m - {i} == m' - {i}
  }

  lemma SameButUpdate<T>(m: map<nat, T>, i: nat, x: T)
    ensures SameBut(m, m, i) && SameBut(m, m[i := x], i)
  {
    assert m - {i} == m[i := x] - {i};
  }

  lemma SameButTransitive<T>(m: map<nat, T>, m': map<nat, T>, m'': map<nat, T>, i: nat)
    requires SameBut(m, m', i) && SameBut(m', m'', i)
    ensures SameBut(m, m'', i)
  {
  }

  /** The file with that name is in slot. */
  ghost predicate At(fs: RamFs, name: string, slot: nat)
    reads fs
  {
    Find(fs.files, name, fs.currentDir) == slot < |fs.files| && IsFile(fs.files[slot]) && slot in fs.owned
  }

  /** The writes. */
  method WriteAll(fs: RamFs, name: string, slot: nat, writes: seq<text32>,
                  ghost m0: seq<byte>, ghost live0: set<Block>, ghost owned0: map<nat, Block>)
    requires fs.Valid() && At(fs, name, slot)
    requires OthersSafe(m0, fs.heap.mem, live0, Live(fs.heap.blocks), owned0, fs.owned)
    modifies fs, fs.heap, fs.heap.arena
    ensures fs.Valid() && fs.currentDir == old(fs.currentDir) && At(fs, name, slot)
    ensures Lost(old(fs.heap.blocks)) <= Lost(fs.heap.blocks)
    ensures Lost(fs.heap.blocks) == Lost(old(fs.heap.blocks)) <==> old(SurviveFrom(fs, slot, writes))
    ensures SameBut(old(fs.owned), fs.owned, slot) && SameBut(old(fs.contents), fs.contents, slot)
    ensures OthersSafe(m0, fs.heap.mem, live0, Live(fs.heap.blocks), owned0, fs.owned)
  {
    ghost var lost0 := Lost(fs.heap.blocks);
    ghost var whole := Intact(fs, slot, lost0, writes);
    SameButUpdate(fs.contents, slot, []);
    SameButUpdate(fs.owned, slot, fs.owned[slot]);
    hide RamFs.Valid, Live, OthersSafe, Intact, At, Lost, SameBut;
    var rest := writes;
    while rest != []
      invariant fs.Valid() && fs.currentDir == old(fs.currentDir) && At(fs, name, slot)
      invariant lost0 <= Lost(fs.heap.blocks)
      invariant whole <==> Intact(fs, slot, lost0, rest)
      invariant SameBut(old(fs.owned), fs.owned, slot) && SameBut(old(fs.contents), fs.contents, slot)
      invariant OthersSafe(m0, fs.heap.mem, live0, Live(fs.heap.blocks), owned0, fs.owned)
    {
      ghost var m, bs, owned, contents := fs.heap.mem, fs.heap.blocks, fs.owned, fs.contents;
      WriteOnce(fs, name, slot, rest, lost0);
      rest := rest[1..];
      OthersSafeTransitive(m0, m, fs.heap.mem, live0, Live(bs), Live(fs.heap.blocks), owned0, owned, fs.owned);
      SameButTransitive(old(fs.owned), owned, fs.owned, slot);
      SameButTransitive(old(fs.contents), contents, fs.contents, slot);
    }
    NoWrites(fs, name, slot, lost0, rest);
  }

  /** The first of them. */
  method WriteOnce(fs: RamFs, name: string, slot: nat, writes: seq<text32>, ghost lost0: nat)
    requires fs.Valid() && At(fs, name, slot) && writes != [] && lost0 <= Lost(fs.heap.blocks)
    modifies fs, fs.heap, fs.heap.arena
    ensures fs.Valid() && fs.currentDir == old(fs.currentDir) && At(fs, name, slot)
    ensures lost0 <= Lost(fs.heap.blocks)
    ensures old(Intact(fs, slot, lost0, writes)) <==> Intact(fs, slot, lost0, writes[1..])
    ensures SameBut(old(fs.owned), fs.owned, slot) && SameBut(old(fs.contents), fs.contents, slot)
    ensures OthersSafe(old(fs.heap.mem), fs.heap.mem, old(Live(fs.heap.blocks)), Live(fs.heap.blocks),
                       old(fs.owned), fs.owned)
  {
    ghost var bs, b, capacity := fs.heap.blocks, fs.owned[slot], fs.files[slot].capacity;
    OnItsBlock(fs, slot);
    FirstWrite(bs, b, capacity, writes);
    hide RamFs.Valid, Live, OthersSafe, WritesSurvive, Written, Lost, FirstFollows, SameBut;
    Rewrite(fs, name, slot, writes[0]);
    NextWrite(bs, b, capacity, fs.heap.blocks, fs.owned[slot], fs.files[slot].capacity, writes);
  }

  /** The block list, the file's block and its capacity after a write of n bytes. */
  ghost predicate Written(bs: seq<Block>, b: Block, capacity: u32, n: u32, bs': seq<Block>, b': Block, capacity': u32) {
    && bs' == AfterWrite(bs, b, capacity, n) && b' == RoomBlock(bs, b, capacity, n)
    && capacity' == if TooBig(n, capacity, bs) then capacity else Room(n, capacity)
  }

  lemma NextWrite(bs: seq<Block>, b: Block, capacity: u32, bs': seq<Block>, b': Block, capacity': u32,
                  writes: seq<text32>)
    requires writes != [] && Written(bs, b, capacity, |writes[0]|, bs', b', capacity')
    requires FirstFollows(bs, b, capacity, writes)
    ensures Lost(bs) <= Lost(bs')
    ensures WritesSurvive(bs, b, capacity, writes) <==>
            Lost(bs') == Lost(bs) && WritesSurvive(bs', b', capacity', writes[1..])
  {
    hide AfterWrite, RoomBlock, TooBig, Room, WritesSurvive, Lost;
  }

  /** Writing to the file in slot, as that is found by its name. */
  method Rewrite(fs: RamFs, name: string, slot: nat, data: text32)
    requires fs.Valid() && At(fs, name, slot)
    modifies fs, fs.heap, fs.heap.arena
    ensures fs.Valid() && fs.currentDir == old(fs.currentDir) && At(fs, name, slot)
    ensures Written(old(fs.heap.blocks), old(fs.owned)[slot], old(fs.files[slot]).capacity, |data|,
                    fs.heap.blocks, fs.owned[slot], fs.files[slot].capacity)
    ensures SameBut(old(fs.owned), fs.owned, slot) && SameBut(old(fs.contents), fs.contents, slot)
    ensures OthersSafe(old(fs.heap.mem), fs.heap.mem, old(Live(fs.heap.blocks)), Live(fs.heap.blocks),
                       old(fs.owned), fs.owned)
  {
    ghost var files, bs, b := fs.files, fs.heap.blocks, fs.owned[slot];
    hide Store, Tree, Live, OthersSafe, Represents, HeapFull, Serve, NewBlock, TooBig, AfterWrite, RoomBlock, Room,
      Find, UniqueNames, NamesFrom, CreateCode, RamFs.BlocksAfter;
    BlocksAre(fs, name, slot, |data|);
    NoRoomFor(bs, b, files[slot].capacity, |data|);
    SameButUpdate(fs.contents, slot, data);
    SameButUpdate(fs.owned, slot, RoomBlock(bs, b, files[slot].capacity, |data|));
    hide SameBut;
    var code := fs.WriteFile(name, data);
    FindResized(files, slot, fs.files[slot], name, fs.currentDir);
  }

  lemma BlocksAre(fs: RamFs, name: string, slot: nat, n: u32)
    requires At(fs, name, slot)
    ensures fs.BlocksAfter(name, n) == AfterWrite(fs.heap.blocks, fs.owned[slot], fs.files[slot].capacity, n)
  {
    hide AfterWrite, Find, CreateCode;
  }

  lemma NoRoomFor(bs: seq<Block>, b: Block, capacity: u32, n: u32)
    ensures TooBig(n, capacity, bs) ==> RoomBlock(bs, b, capacity, n) == b
  {
  }

  lemma OnItsBlock(fs: RamFs, i: nat)
    requires fs.Valid() && i < |fs.files| && IsFile(fs.files[i])
    ensures WellFormed(fs.heap.blocks) && i in fs.owned && fs.owned[i] in Live(fs.heap.blocks)
    ensures fs.files[i].capacity <= fs.owned[i].size
  {
    StoreFacts(fs.heap.mem, Live(fs.heap.blocks), fs.files, fs.owned, fs.contents, i);
    hide Store, Tree, Live, Layout, WellFormed;
  }

  /** What the first write says about the later ones. */
  ghost predicate FirstFollows(bs: seq<Block>, b: Block, capacity: u32, writes: seq<text32>)
    requires writes != []
  {
    var n: u32 := |writes[0]|;
    var r := AfterWrite(bs, b, capacity, n);
    && Lost(bs) <= Lost(r)
    && (WritesSurvive(bs, b, capacity, writes) <==>
          Lost(r) == Lost(bs)
          && WritesSurvive(r, RoomBlock(bs, b, capacity, n),
                           if TooBig(n, capacity, bs) then capacity else Room(n, capacity), writes[1..]))
  }

  lemma {:induction false} FirstWrite(bs: seq<Block>, b: Block, capacity: u32, writes: seq<text32>)
    requires writes != [] && WellFormed(bs) && b in Live(bs) && capacity <= b.size
    ensures FirstFollows(bs, b, capacity, writes)
  {
    WriteLoses(bs, b, capacity, |writes[0]|);
    hide TerminatorOk, Room, WellFormed, Live, Lost;
  }

  lemma NoWrites(fs: RamFs, name: string, slot: nat, lost0: nat, writes: seq<text32>)
    requires At(fs, name, slot) && writes == []
    ensures Intact(fs, slot, lost0, writes) <==> Lost(fs.heap.blocks) == lost0
  {
  }

  /** Writes to a name that is too long never reach the file that create has made. */
  method WriteOthers(fs: RamFs, name: string, slot: nat, writes: seq<text32>)
    requires fs.Valid() && |name| > MAX_NAME && slot in fs.contents
    modifies fs, fs.heap, fs.heap.arena
    ensures fs.Valid() && slot in fs.contents && fs.contents[slot] == old(fs.contents[slot])
    ensures Find(fs.files, name, fs.currentDir) == -1
  {
    hide Store, Tree, Live, OthersSafe, Represents, HeapFull, Serve, NewBlock, TooBig;
    LongNameNotFound(fs.files, name, fs.currentDir);
    for k := 0 to |writes|
      invariant fs.Valid() && slot in fs.contents && fs.contents[slot] == old(fs.contents[slot])
      invariant Find(fs.files, name, fs.currentDir) == -1
    {
      fs.NewSlot(name);
      var code := fs.WriteFile(name, writes[k]);
      LongNameNotFound(fs.files, name, fs.currentDir);
    }
  }

  /** The input that fails: a name of 32 characters or more. The file stays, empty, and delete
      does not find it. */
  method LeaveBehind(fs: RamFs, name: string) returns (code: int)
    requires fs.Valid() && |name| > MAX_NAME
    requires UnusedFrom(fs.files, 0) < |fs.files| && !HeapFull(fs.heap.blocks, FIRST_SIZE)
    modifies fs, fs.heap, fs.heap.arena
    ensures fs.Valid() && code == NOT_FOUND && fs.contents == old(fs.contents)[UnusedFrom(old(fs.files), 0) := []]
  {
    hide Store, Tree, Live, OthersSafe, Represents, HeapFull, Serve, NewBlock;
    LongNameNotFound(fs.files, name, fs.currentDir);
    var slot := fs.Create(name, false);
    LongNameNotFound(fs.files, name, fs.currentDir);
    code := fs.Delete(name);
  }

  lemma HeapRestored(m: seq<byte>, m': seq<byte>, bs: seq<Block>, bs': seq<Block>, files: seq<Entry>,
                     owned: map<nat, Block>, contents: map<nat, seq<byte>>,
                     files': seq<Entry>, contents': map<nat, seq<byte>>)
    requires Represents(m, bs) && Represents(m', bs')
    requires Store(m, Live(bs), files, owned, contents) && Store(m', Live(bs'), files', owned, contents')
    requires OthersSafe(m, m', Live(bs), Live(bs'), owned, owned)
    ensures Extents(bs') == Extents(bs)
    ensures Tight(bs) ==> (bs' == bs <==> Lost(bs') == Lost(bs))
  {
    OwnedLive(m, Live(bs), files, owned, contents);
    OwnedLive(m', Live(bs'), files', owned, contents');
    var own := Owned(owned);
    assert Live(bs') == Live(bs') - own + own == Live(bs) - own + own == Live(bs);
    LostTight(bs);
    LostTight(bs');
    Canonical(bs', bs, 0, ARENA);
  }
}

/** The kernel's file table as values: which heap block each file's buffer is, and how the
    table and the memory together represent a map from names to byte sequences. */
module FileTable {
  import opened Bytes
  import opened BlockList
  import opened KernelHeap
  import opened HeapShares

  const MAX_FILES: nat := 32

  const FIRST_SIZE: u32 := 256     // the buffer of a new file

  /** A buffer size, rounded up to a multiple of 256 in 32-bit arithmetic, which gives 0 for the
      255 largest sizes. */
  function Round256(size: u32): (r: u32)
    ensures size <= 0xFFFF_FF00 ==> size <= r < size + 256
    ensures size > 0xFFFF_FF00 ==> r == 0
    ensures r <= 0xFFFF_FF00 && r % 256 == 0
  {
    (size + 255) % TWO32 / 256 * 256
  }

  /** malloc has no buffer for so many bytes. */
  ghost predicate GrowthFails(blocks: seq<Block>, size: u32) {
    HeapFull(blocks, Round256(size))
  }

  /** A buffer that malloc has is large enough. */
  lemma BufferHolds(blocks: seq<Block>, size: u32)
    requires !GrowthFails(blocks, size)
    ensures 0 < size <= Round256(size) <= 0xFFFF_FF00
  {
  }

  /** A buffer is on the heap, except that the two built-in files point at string literals. */
  datatype Data = Null | Literal(text: seq<byte>) | OnHeap(ptr: u32)

  datatype VFile = VFile(name: string, data: Data, size: u32, capacity: u32, inUse: bool)

  const UNUSED: VFile := VFile("", Null, 0, 0, false)

  /** The block b holds the buffer of the heap file f. */
  ghost predicate Holds(mem: seq<byte>, live: set<Block>, f: VFile, b: Block) {
    && f.data.OnHeap? && f.data.ptr == PayloadAddress(b)
    && b in live && b.End() <= |mem| && f.capacity <= b.size
  }

  ghost predicate FileOk(mem: seq<byte>, live: set<Block>, f: VFile, i: nat, owned: map<nat, Block>) {
    && f.inUse && f.size <= f.capacity
    && if i in owned then Holds(mem, live, f, owned[i])
       else f.data.Literal? && |f.data.text| == f.capacity
  }

  ghost function Contents(mem: seq<byte>, f: VFile, i: nat, owned: map<nat, Block>): (c: seq<byte>)
    requires f.size <= f.capacity
    requires if i in owned then owned[i].End() <= |mem| && f.capacity <= owned[i].size
             else f.data.Literal? && |f.data.text| == f.capacity
    ensures |c| == f.size
  {
    if i in owned then Payload(mem, owned[i])[..f.size] else f.data.text[..f.size]
  }

  /** All bytes of a file's buffer; the file is the front of it. */
  ghost function BufferOf(mem: seq<byte>, f: VFile, i: nat, owned: map<nat, Block>): (c: seq<byte>)
    requires f.size <= f.capacity
    requires if i in owned then owned[i].End() <= |mem| && f.capacity <= owned[i].size
             else f.data.Literal? && |f.data.text| == f.capacity
    ensures |c| == f.capacity && c[..f.size] == Contents(mem, f, i, owned)
  {
    if i in owned then Payload(mem, owned[i])[..f.capacity] else f.data.text
  }

  /** What is in the n bytes that malloc would hand out now. */
  ghost function FreshBytes(mem: seq<byte>, bs: seq<Block>, n: u32): seq<byte> {
    if HeapFull(bs, n) || NewBlock(bs, n).End() > |mem| || NewBlock(bs, n).size < n then []
    else Payload(mem, NewBlock(bs, n))[..n]
  }

  lemma FreshBytesAre(mem: seq<byte>, bs: seq<Block>, n: u32)
    requires Represents(mem, bs) && n <= 0xFFFF_FFE0 && !HeapFull(bs, n)
    ensures var b := NewBlock(bs, n);
            b.End() <= |mem| && n <= b.size && FreshBytes(mem, bs, n) == Payload(mem, b)[..n]
  {
    Served(mem, bs, n);
    hide HeapFull, NewBlock, Serve;
  }

  /** The file at index i is filed under its name with its contents. */
  ghost predicate Filed(mem: seq<byte>, live: set<Block>, f: VFile, i: nat, owned: map<nat, Block>,
                        slot: map<string, nat>, disk: map<string, seq<byte>>) {
    && FileOk(mem, live, f, i, owned)
    && f.name in slot && slot[f.name] == i
    && f.name in disk && disk[f.name] == Contents(mem, f, i, owned)
  }

  /** The table represents disk: slot tells where each name is, owned which block each buffer is. */
  ghost predicate Table(mem: seq<byte>, live: set<Block>, files: seq<VFile>, owned: map<nat, Block>,
                             slot: map<string, nat>, disk: map<string, seq<byte>>) {
    && |files| == MAX_FILES
    && (forall i: nat {:trigger files[i]} | i < MAX_FILES && files[i].inUse ::
          Filed(mem, live, files[i], i, owned, slot, disk))
    && (forall n | n in slot :: slot[n] < MAX_FILES && files[slot[n]].inUse && files[slot[n]].name == n)
    && disk.Keys == slot.Keys
    && DistinctBlocks(owned)
    && (forall i | i in owned :: i < MAX_FILES && files[i].inUse)
  }

  /** Every file but i keeps its block, and the block its bytes. */
  ghost predicate OthersKept(mem: seq<byte>, mem': seq<byte>, live': set<Block>, i: nat,
                             owned: map<nat, Block>, owned': map<nat, Block>) {
    && owned'.Keys <= owned.Keys + {i}
    && forall j | j in owned && j != i ::
         && j in owned' && owned'[j] == owned[j] && owned[j] in live'
         && owned[j].End() <= |mem| && owned[j].End() <= |mem'|
         && Payload(mem', owned[j]) == Payload(mem, owned[j])
  }

  lemma FiledKept(mem: seq<byte>, mem': seq<byte>, live: set<Block>, live': set<Block>, f: VFile, i: nat, j: nat,
                  owned: map<nat, Block>, owned': map<nat, Block>,
                  slot: map<string, nat>, slot': map<string, nat>,
                  disk: map<string, seq<byte>>, disk': map<string, seq<byte>>)
    requires Filed(mem, live, f, j, owned, slot, disk) && j != i
    requires OthersKept(mem, mem', live', i, owned, owned')
    requires f.name in slot' && slot'[f.name] == slot[f.name]
    requires f.name in disk' && disk'[f.name] == disk[f.name]
    ensures Filed(mem', live', f, j, owned', slot', disk')
  {
  }

  /** An in-use entry after entry i has become f'. */
  lemma UpdatedEntry(mem: seq<byte>, mem': seq<byte>, live: set<Block>, live': set<Block>,
                     files: seq<VFile>, i: nat, f': VFile, owned: map<nat, Block>, owned': map<nat, Block>,
                     slot: map<string, nat>, disk: map<string, seq<byte>>, j: nat)
    requires Table(mem, live, files, owned, slot, disk)
    requires i < MAX_FILES && files[i].inUse && f'.name == files[i].name
    requires FileOk(mem', live', f', i, owned') && OthersKept(mem, mem', live', i, owned, owned')
    requires j < MAX_FILES && files[i := f'][j].inUse
    ensures Filed(mem', live', files[i := f'][j], j, owned', slot,
                  disk[f'.name := Contents(mem', f', i, owned')])
  {
    var c := Contents(mem', f', i, owned');
    hide Contents, Payload, DistinctBlocks, FileOk, OthersKept;
    assert Filed(mem, live, files[i], i, owned, slot, disk);
    if j != i {
      assert Filed(mem, live, files[j], j, owned, slot, disk);
      FiledKept(mem, mem', live, live', files[j], i, j, owned, owned', slot, slot, disk, disk[f'.name := c]);
    }
  }

  /** Changing one file changes the map at that file's name only. */
  lemma UpdateFile(mem: seq<byte>, mem': seq<byte>, live: set<Block>, live': set<Block>,
                   files: seq<VFile>, i: nat, f': VFile, owned: map<nat, Block>, owned': map<nat, Block>,
                   slot: map<string, nat>, disk: map<string, seq<byte>>)
    requires Table(mem, live, files, owned, slot, disk)
    requires i < MAX_FILES && files[i].inUse && f'.name == files[i].name
    requires FileOk(mem', live', f', i, owned')
    requires OthersKept(mem, mem', live', i, owned, owned') && DistinctBlocks(owned')
    ensures Table(mem', live', files[i := f'], owned', slot, disk[f'.name := Contents(mem', f', i, owned')])
  {
    hide Contents, Payload, DistinctBlocks;
    var files' := files[i := f'];
    var disk' := disk[f'.name := Contents(mem', f', i, owned')];
    assert Filed(mem, live, files[i], i, owned, slot, disk);
    assert owned'.Keys <= owned.Keys + {i};
    hide OthersKept, FileOk, Filed;
    forall j: nat | j < MAX_FILES && files'[j].inUse
      ensures Filed(mem', live', files'[j], j, owned', slot, disk')
    {
      UpdatedEntry(mem, mem', live, live', files, i, f', owned, owned', slot, disk, j);
    }
  }

  /** Filling an unused entry adds one name to the map. */
  lemma AddFile(mem: seq<byte>, mem': seq<byte>, live: set<Block>, live': set<Block>,
                files: seq<VFile>, i: nat, f': VFile, owned: map<nat, Block>, owned': map<nat, Block>,
                slot: map<string, nat>, disk: map<string, seq<byte>>)
    requires Table(mem, live, files, owned, slot, disk)
    requires i < MAX_FILES && !files[i].inUse && f'.name !in disk
    requires FileOk(mem', live', f', i, owned')
    requires OthersKept(mem, mem', live', i, owned, owned') && DistinctBlocks(owned')
    ensures Table(mem', live', files[i := f'], owned', slot[f'.name := i],
                       disk[f'.name := Contents(mem', f', i, owned')])
  {
    hide Contents, Payload, DistinctBlocks;
    var files' := files[i := f'];
    var slot' := slot[f'.name := i];
    var disk' := disk[f'.name := Contents(mem', f', i, owned')];
    assert Filed(mem', live', f', i, owned', slot', disk');
    forall j: nat | j < MAX_FILES && files'[j].inUse
      ensures Filed(mem', live', files'[j], j, owned', slot', disk')
    {
      if j != i {
        assert Filed(mem, live, files[j], j, owned, slot, disk);
        FiledKept(mem, mem', live, live', files[j], i, j, owned, owned', slot, slot', disk, disk');
      }
    }
  }

  /** What an unused entry holds does not matter. */
  lemma UnusedEntry(mem: seq<byte>, live: set<Block>, files: seq<VFile>, i: nat, f': VFile, owned: map<nat, Block>,
                    slot: map<string, nat>, disk: map<string, seq<byte>>)
    requires Table(mem, live, files, owned, slot, disk)
    requires i < MAX_FILES && !files[i].inUse && !f'.inUse
    ensures Table(mem, live, files[i := f'], owned, slot, disk)
  {
    hide Filed;
  }

  /** Where the bytes of a heap file are. */
  lemma ContentsOnHeap(mem: seq<byte>, live: set<Block>, f: VFile, i: nat, owned: map<nat, Block>, p: nat, n: nat)
    requires FileOk(mem, live, f, i, owned) && f.data.OnHeap? && p + n <= f.size
    ensures var o := Offset(f.data.ptr) + p;
            && 0 <= o && o + n <= |mem| && Contents(mem, f, i, owned)[p..p + n] == mem[o..o + n]
  {
    SliceOfPayload(mem, owned[i], f.size, p, n);
  }

  lemma SliceOfPayload(mem: seq<byte>, b: Block, size: nat, p: nat, n: nat)
    requires b.End() <= |mem| && p + n <= size <= b.size
    ensures Payload(mem, b)[..size][p..p + n] == mem[b.at + HEADER + p..b.at + HEADER + p + n]
  {
    var a := b.at + HEADER;
    SliceOfSlice(mem, a, b.End(), 0, size);
    SliceOfSlice(mem, a, a + size, p, p + n);
  }

  /** Whatever others do to the heap, files whose blocks stay live and unchanged stay as they are. */
  lemma Undisturbed(mem: seq<byte>, mem': seq<byte>, live: set<Block>, live': set<Block>,
                    files: seq<VFile>, owned: map<nat, Block>,
                    slot: map<string, nat>, disk: map<string, seq<byte>>)
    requires Table(mem, live, files, owned, slot, disk)
    requires live <= live' && PayloadsKept(mem, mem', live)
    ensures Table(mem', live', files, owned, slot, disk)
  {
    OwnedAreLive(mem, live, files, owned, slot, disk);
    forall j: nat | j < MAX_FILES && files[j].inUse
      ensures Filed(mem', live', files[j], j, owned, slot, disk)
    {
      assert Filed(mem, live, files[j], j, owned, slot, disk);
      FiledKept(mem, mem', live, live', files[j], MAX_FILES, j, owned, owned, slot, slot, disk, disk);
    }
  }

  /** The entry where a name is filed, and what the map says about it. */
  lemma FiledAs(mem: seq<byte>, live: set<Block>, files: seq<VFile>, owned: map<nat, Block>,
                slot: map<string, nat>, disk: map<string, seq<byte>>, name: string)
    requires Table(mem, live, files, owned, slot, disk) && name in slot
    ensures var i := slot[name];
            && i < MAX_FILES && files[i].inUse && files[i].name == name
            && Filed(mem, live, files[i], i, owned, slot, disk)
            && name in disk && |disk[name]| == files[i].size <= files[i].capacity
  {
  }

  /** What the table says about the in-use entry i. */
  lemma EntryFacts(mem: seq<byte>, live: set<Block>, files: seq<VFile>, owned: map<nat, Block>,
                   slot: map<string, nat>, disk: map<string, seq<byte>>, i: nat)
    requires Table(mem, live, files, owned, slot, disk) && i < MAX_FILES && files[i].inUse
    ensures var f := files[i];
            && f.name in slot && slot[f.name] == i && f.size <= f.capacity
            && f.name in disk && |disk[f.name]| == f.size
            && (f.data.OnHeap? ==>
                  && i in owned && owned[i] in live && owned[i].End() <= |mem|
                  && PayloadAddress(owned[i]) == f.data.ptr && f.capacity <= owned[i].size)
            && (!f.data.OnHeap? ==> i !in owned && f.data.Literal? && |f.data.text| == f.capacity)
  {
    assert Filed(mem, live, files[i], i, owned, slot, disk);
  }

  /** Where the bytes of the in-use entry i are. */
  lemma EntryBytes(mem: seq<byte>, live: set<Block>, files: seq<VFile>, owned: map<nat, Block>,
                   slot: map<string, nat>, disk: map<string, seq<byte>>, i: nat, p: nat, n: nat)
    requires Table(mem, live, files, owned, slot, disk) && i < MAX_FILES && files[i].inUse
    requires p + n <= files[i].size
    ensures var f := files[i];
            && f.name in disk && |disk[f.name]| == f.size <= f.capacity
            && var part := disk[f.name][p..p + n];
            && (f.data.OnHeap? ==>
                  var o := Offset(f.data.ptr) + p;
                  0 <= o && o + n <= |mem| && part == mem[o..o + n])
            && (!f.data.OnHeap? ==>
                  f.data.Literal? && |f.data.text| == f.capacity && part == f.data.text[p..p + n])
  {
    assert Filed(mem, live, files[i], i, owned, slot, disk);
    if files[i].data.OnHeap? {
      ContentsOnHeap(mem, live, files[i], i, owned, p, n);
    } else {
      SliceOfSlice(files[i].data.text, 0, files[i].size, p, p + n);
    }
  }

  /** The blocks of the files are live blocks of the heap. */
  lemma OwnedAreLive(mem: seq<byte>, live: set<Block>, files: seq<VFile>, owned: map<nat, Block>,
                     slot: map<string, nat>, disk: map<string, seq<byte>>)
    requires Table(mem, live, files, owned, slot, disk)
    ensures forall i | i in owned :: owned[i] in live
  {
    forall i | i in owned ensures owned[i] in live {
      assert Filed(mem, live, files[i], i, owned, slot, disk);
    }
  }

  lemma EntryOk(mem: seq<byte>, live: set<Block>, files: seq<VFile>, owned: map<nat, Block>,
                slot: map<string, nat>, disk: map<string, seq<byte>>, i: nat)
    requires Table(mem, live, files, owned, slot, disk) && i < MAX_FILES && files[i].inUse
    ensures FileOk(mem, live, files[i], i, owned) && files[i].name in disk
    ensures disk[files[i].name] == BufferOf(mem, files[i], i, owned)[..files[i].size]
  {
    assert Filed(mem, live, files[i], i, owned, slot, disk);
  }

  // ----- other owners of heap blocks

  lemma TableOwnsLive(mem: seq<byte>, live: set<Block>, files: seq<VFile>, owned: map<nat, Block>,
                  slot: map<string, nat>, disk: map<string, seq<byte>>)
    requires Table(mem, live, files, owned, slot, disk)
    ensures Owned(owned) <= live && DistinctBlocks(owned)
  {
    OwnedAreLive(mem, live, files, owned, slot, disk);
  }

  /** A new file takes none of their blocks. */
  lemma AddedSafe(mem: seq<byte>, mem': seq<byte>, live: set<Block>, b: Block, files: seq<VFile>, i: nat,
                  owned: map<nat, Block>, slot: map<string, nat>, disk: map<string, seq<byte>>)
    requires Table(mem, live, files, owned, slot, disk) && PayloadsKept(mem, mem', live)
    requires i < MAX_FILES && !files[i].inUse && b !in live
    ensures OthersSafe(mem, mem', live, live + {b}, owned, owned[i := b])
  {
    TableOwnsLive(mem, live, files, owned, slot, disk);
    AddedBlock(live, b, i, owned);
    hide Table, Payload;
  }

  /** Neither does a file that moves. */
  lemma MovedSafe(mem: seq<byte>, mem': seq<byte>, live: set<Block>, live': set<Block>, files: seq<VFile>, i: nat,
                  b: Block, n: nat, owned: map<nat, Block>, slot: map<string, nat>, disk: map<string, seq<byte>>)
    requires Table(mem, live, files, owned, slot, disk) && i in owned
    requires Moved(mem, mem', live, live', owned[i], b, n)
    ensures OthersSafe(mem, mem', live, live', owned, owned[i := b])
  {
    TableOwnsLive(mem, live, files, owned, slot, disk);
    MovedOwned(live, live', owned, i, b);
    hide Table, Payload;
  }

  /** The file table stays as it is whatever others do with their own blocks. */
  lemma TableUndisturbed(mem: seq<byte>, mem': seq<byte>, live: set<Block>, live': set<Block>, files: seq<VFile>,
                         owned: map<nat, Block>, slot: map<string, nat>, disk: map<string, seq<byte>>)
    requires Table(mem, live, files, owned, slot, disk)
    requires Owned(owned) <= live' && PayloadsKept(mem, mem', Owned(owned))
    ensures Table(mem', live', files, owned, slot, disk)
  {
    forall j: nat | j < MAX_FILES && files[j].inUse ensures Filed(mem', live', files[j], j, owned, slot, disk) {
      assert Filed(mem, live, files[j], j, owned, slot, disk);
      assert j in owned ==> owned[j] in Owned(owned);
    }
  }

  /** A new empty file in the unused entry i, on the block malloc has just handed out. */
  lemma NewFile(mem: seq<byte>, mem': seq<byte>, bs: seq<Block>, request: u32,
                ptr: u32, files: seq<VFile>, i: nat, name: string, owned: map<nat, Block>,
                slot: map<string, nat>, disk: map<string, seq<byte>>)
    requires Table(mem, Live(bs), files, owned, slot, disk)
    requires ptr == ServedPointer(bs, request)
    requires Represents(mem, bs) && request <= 0xFFFF_FFE0 && !HeapFull(bs, request)
    requires PayloadsKept(mem, mem', Live(bs)) && |mem'| == ARENA
    requires i < MAX_FILES && !files[i].inUse && name !in disk
    ensures Table(mem', Live(Serve(bs, request)), files[i := VFile(name, OnHeap(ptr), 0, request, true)],
                  owned[i := NewBlock(bs, request)], slot[name := i], disk[name := []])
  {
    hide Serve, Represents, HeapFull, NewBlock, ServedPointer, Table, Live, Payload;
    Served(mem, bs, request);
    var b := NewBlock(bs, request);
    var f, owned' := VFile(name, OnHeap(ptr), 0, request, true), owned[i := b];
    BlockAdded(mem, mem', Live(bs), b, files, i, owned, slot, disk);
    AddFile(mem, mem', Live(bs), Live(bs) + {b}, files, i, f, owned, owned', slot, disk);
    assert Contents(mem', f, i, owned') == [];
  }

  /** A fresh block disturbs no file. */
  lemma BlockAdded(mem: seq<byte>, mem': seq<byte>, live: set<Block>, b: Block, files: seq<VFile>, i: nat,
                   owned: map<nat, Block>,
                   slot: map<string, nat>, disk: map<string, seq<byte>>)
    requires Table(mem, live, files, owned, slot, disk) && PayloadsKept(mem, mem', live)
    requires i < MAX_FILES && !files[i].inUse && b !in live
    ensures OthersKept(mem, mem', live + {b}, i, owned, owned[i := b]) && DistinctBlocks(owned[i := b])
  {
    OwnedAreLive(mem, live, files, owned, slot, disk);
    hide Table, Payload;
  }

  lemma OthersUnmoved(mem: seq<byte>, mem': seq<byte>, live: set<Block>, live': set<Block>, i: nat, b: Block,
                      owned: map<nat, Block>)
    requires DistinctBlocks(owned) && i in owned && (forall j | j in owned :: owned[j] in live)
    requires b == owned[i] || b !in live
    requires live - {owned[i]} <= live' && PayloadsKept(mem, mem', live - {owned[i]})
    ensures DistinctBlocks(owned[i := b]) && OthersKept(mem, mem', live', i, owned, owned[i := b])
  {
    hide Payload;
    assert forall j | j in owned && j != i :: owned[j] in live - {owned[i]};
  }

  lemma MovedContents(mem: seq<byte>, mem': seq<byte>, live: set<Block>, live': set<Block>, b: Block,
                      f: VFile, f': VFile, i: nat, copied: nat, owned: map<nat, Block>)
    requires i in owned && FileOk(mem, live, f, i, owned) && Moved(mem, mem', live, live', owned[i], b, copied)
    requires f'.data.OnHeap? && f'.data.ptr == PayloadAddress(b) && f'.inUse
    requires copied <= f.size == f'.size <= f'.capacity <= b.size
    ensures FileOk(mem', live', f', i, owned[i := b])
    ensures BufferOf(mem', f', i, owned[i := b]) ==
            Contents(mem, f, i, owned)[..copied] + Payload(mem, b)[..f'.capacity][copied..]
  {
    var p, q, n := Payload(mem, owned[i]), Payload(mem, b), f'.capacity;
    assert b in live';
    assert p[..f.size][..copied] == p[..copied];
    assert (p[..copied] + q[copied..])[..n] == p[..copied] + q[..n][copied..];
  }

  /** Moving the file at i from its old block to the fresh block b: the table still represents
      the map, with the bytes that were copied into b. */
  lemma MoveFile(mem: seq<byte>, mem': seq<byte>, live: set<Block>, live': set<Block>, b: Block,
                 files: seq<VFile>, i: nat, ptr: u32, f': VFile, copied: nat,
                 owned: map<nat, Block>, slot: map<string, nat>, disk: map<string, seq<byte>>)
      returns (c: seq<byte>)
    requires Table(mem, live, files, owned, slot, disk)
    requires i < MAX_FILES && files[i].inUse && i in owned
    requires Moved(mem, mem', live, live', owned[i], b, copied)
    requires f'.name == files[i].name && copied <= f'.size == files[i].size && f'.inUse
    requires ptr == PayloadAddress(b) && f'.data == OnHeap(ptr) && f'.size <= f'.capacity <= b.size
    ensures f'.name in disk && |disk[f'.name]| == |c| == f'.size && b.End() <= |mem|
    ensures c == (disk[f'.name][..copied] + Payload(mem, b)[..f'.capacity][copied..])[..f'.size]
    ensures FileOk(mem', live', f', i, owned[i := b])
    ensures BufferOf(mem', f', i, owned[i := b]) == disk[f'.name][..copied] + Payload(mem, b)[..f'.capacity][copied..]
    ensures Table(mem', live', files[i := f'], owned[i := b], slot, disk[f'.name := c])
  {
    assert Filed(mem, live, files[i], i, owned, slot, disk);
    OwnedAreLive(mem, live, files, owned, slot, disk);
    MovedContents(mem, mem', live, live', b, files[i], f', i, copied, owned);
    OthersUnmoved(mem, mem', live, live', i, b, owned);
    c := Contents(mem', f', i, owned[i := b]);
    hide Filed, FileOk, OthersKept, PayloadsKept, Contents, Payload, Moved, DistinctBlocks;
    UpdateFile(mem, mem', live, live', files, i, f', owned, owned[i := b], slot, disk);
  }

  lemma PokePayload(mem: seq<byte>, mem': seq<byte>, b: Block, p: nat, d: seq<byte>)
    requires b.End() <= |mem| == |mem'| && p + |d| <= b.size
    requires mem' == Overlay(mem, b.at + HEADER + p, d)
    ensures Payload(mem', b) == Overlay(Payload(mem, b), p, d)
  {
    var a, q := b.at + HEADER, Overlay(Payload(mem, b), p, d);
    assert forall k | 0 <= k < b.size :: Payload(mem', b)[k] == mem'[a + k] && Payload(mem, b)[k] == mem[a + k];
    assert forall k | 0 <= k < b.size :: q[k] == mem'[a + k];
  }

  lemma OverlayFront(s: seq<byte>, p: nat, d: seq<byte>, n: nat, m: nat)
    requires p + |d| <= m <= n <= |s|
    ensures Overlay(s, p, d)[..m] == Overlay(s[..n], p, d)[..m]
  {
  }

  lemma PokedContents(mem: seq<byte>, mem': seq<byte>, live: set<Block>, f: VFile, f': VFile, i: nat,
                      p: nat, d: seq<byte>, owned: map<nat, Block>)
    requires i in owned && FileOk(mem, live, f, i, owned) && f' == f.(size := f'.size)
    requires f.size <= f'.size <= f'.capacity && p + |d| <= f'.size && |mem'| == |mem|
    requires owned[i].at + HEADER + p + |d| <= |mem| && mem' == Overlay(mem, owned[i].at + HEADER + p, d)
    ensures FileOk(mem', live, f', i, owned)
    ensures Contents(mem', f', i, owned) == Overlay(BufferOf(mem, f, i, owned), p, d)[..f'.size]
  {
    hide Overlay, Payload;
    PokePayload(mem, mem', owned[i], p, d);
    OverlayFront(Payload(mem, owned[i]), p, d, f.capacity, f'.size);
  }

  /** Writing the bytes d at offset p of the buffer of the heap file at i. */
  lemma PokeFile(mem: seq<byte>, mem': seq<byte>, live: set<Block>, files: seq<VFile>, i: nat, f': VFile,
                 p: nat, d: seq<byte>, owned: map<nat, Block>, slot: map<string, nat>, disk: map<string, seq<byte>>)
      returns (c: seq<byte>)
    requires Table(mem, live, files, owned, slot, disk)
    requires i < MAX_FILES && files[i].inUse && i in owned
    requires f' == files[i].(size := f'.size) && files[i].size <= f'.size <= f'.capacity
    requires p + |d| <= f'.size && |mem'| == |mem|
    requires owned[i].at + HEADER + p + |d| <= |mem| && mem' == Overlay(mem, owned[i].at + HEADER + p, d)
    requires PayloadsKept(mem, mem', live - {owned[i]})
    ensures f'.name in disk && FileOk(mem, live, files[i], i, owned)
    ensures c == Overlay(BufferOf(mem, files[i], i, owned), p, d)[..f'.size]
    ensures Table(mem', live, files[i := f'], owned, slot, disk[f'.name := c])
  {
    assert Filed(mem, live, files[i], i, owned, slot, disk);
    OwnedAreLive(mem, live, files, owned, slot, disk);
    PokedContents(mem, mem', live, files[i], f', i, p, d, owned);
    OthersUnmoved(mem, mem', live, live, i, owned[i], owned);
    assert owned[i := owned[i]] == owned;
    c := Contents(mem', f', i, owned);
    hide Filed, FileOk, OthersKept, PayloadsKept, Contents, DistinctBlocks, Overlay, BufferOf;
    UpdateFile(mem, mem', live, live, files, i, f', owned, owned, slot, disk);
  }

  /** The same for a file whose buffer is a literal. */
  lemma PokeLiteral(mem: seq<byte>, live: set<Block>, files: seq<VFile>, i: nat, f': VFile,
                    p: nat, d: seq<byte>, owned: map<nat, Block>, slot: map<string, nat>, disk: map<string, seq<byte>>)
      returns (c: seq<byte>)
    requires Table(mem, live, files, owned, slot, disk)
    requires i < MAX_FILES && files[i].inUse && i !in owned && files[i].data.Literal?
    requires p + |d| <= f'.size <= f'.capacity == |files[i].data.text| && files[i].size <= f'.size
    requires f' == files[i].(size := f'.size, data := Literal(Overlay(files[i].data.text, p, d)))
    ensures f'.name in disk && FileOk(mem, live, files[i], i, owned)
    ensures c == Overlay(BufferOf(mem, files[i], i, owned), p, d)[..f'.size]
    ensures Table(mem, live, files[i := f'], owned, slot, disk[f'.name := c])
  {
    assert Filed(mem, live, files[i], i, owned, slot, disk);
    OwnedAreLive(mem, live, files, owned, slot, disk);
    assert OthersKept(mem, mem, live, i, owned, owned) by {
      forall j | j in owned ensures owned[j].End() <= |mem| {
        assert Filed(mem, live, files[j], j, owned, slot, disk);
      }
    }
    c := Contents(mem, f', i, owned);
    assert FileOk(mem, live, f', i, owned);
    hide Filed, OthersKept, Contents;
    UpdateFile(mem, mem, live, live, files, i, f', owned, owned, slot, disk);
  }
}

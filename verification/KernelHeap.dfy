/** The kernel heap: a first-fit allocator whose 12-byte headers live inside the arena.
    Refines the block list of module BlockList. */
module KernelHeap {
  import opened Bytes
  import opened BlockList

  const HEAP_START: u32 := 0x40_0000
  const NULL: u32 := 0
  const SYSCALL_OK: int := 0
  const SYSCALL_INVALID_PARAMS: int := -3

  // ----- how a block list is written in memory

  function Offset(address: u32): int {
    address - HEAP_START
  }

  /** Address of a block's first payload byte. */
  function PayloadAddress(b: Block): int {
    HEAP_START + b.at + HEADER
  }

  function NextPointer(b: Block): int {
    if b.End() == ARENA then NULL else HEAP_START + b.End()
  }

  ghost predicate HeaderOk(m: seq<byte>, b: Block) {
    && b.End() <= |m|
    && Word(m, b.at) == b.size
    && Word(m, b.at + 4) == (if b.free then 1 else 0)
    && Word(m, b.at + 8) == NextPointer(b)
  }

  ghost predicate Layout(m: seq<byte>, bs: seq<Block>) {
    |m| == ARENA && forall b {:trigger HeaderOk(m, b)} | b in bs :: HeaderOk(m, b)
  }

  /** m holds the headers of bs, and bs is a heap that malloc and free can have left behind. */
  ghost predicate Represents(m: seq<byte>, bs: seq<Block>) {
    WellFormed(bs) && Layout(m, bs)
  }

  function Payload(m: seq<byte>, b: Block): (p: seq<byte>)
    requires b.End() <= |m|
    ensures |p| == b.size + b.slack
  {
    m[b.at + HEADER..b.End()]
  }

  /** Every block of the set keeps all its payload bytes. */
  ghost predicate PayloadsKept(m: seq<byte>, m': seq<byte>, live: set<Block>) {
    forall b | b in live :: b.End() <= |m| && b.End() <= |m'| && Payload(m', b) == Payload(m, b)
  }

  ghost function Blocks(bs: seq<Block>): set<Block> {
    set b | b in bs :: b.Extent()
  }

  lemma AllKept(m: seq<byte>, bs: seq<Block>)
    requires Represents(m, bs)
    ensures PayloadsKept(m, m, Blocks(bs))
  {
    SpansLe(bs, 0, ARENA);
  }

  lemma KeptReflexive(m: seq<byte>, bs: seq<Block>, kept: set<Block>)
    requires Tiles(bs) && |m| == ARENA && kept <= Live(bs)
    ensures PayloadsKept(m, m, kept) && bs != [] && bs[0].at == 0
  {
    SpansLe(bs, 0, ARENA);
  }

  lemma KeptHere(m: seq<byte>, bs: seq<Block>, kept: set<Block>)
    requires Represents(m, bs) && kept <= Live(bs)
    ensures PayloadsKept(m, m, kept)
  {
    KeptReflexive(m, bs, kept);
  }

  lemma KeptTransitive(m: seq<byte>, m': seq<byte>, m'': seq<byte>, live: set<Block>)
    requires PayloadsKept(m, m', live) && PayloadsKept(m', m'', live)
    ensures PayloadsKept(m, m'', live)
  {
  }

  lemma HeaderFrame(m: seq<byte>, m': seq<byte>, b: Block)
    requires HeaderOk(m, b) && |m'| == |m|
    requires forall k | b.at <= k < b.at + HEADER :: m'[k] == m[k]
    ensures HeaderOk(m', b)
  {
    assert m'[b.at..b.at + 4] == m[b.at..b.at + 4];
    assert m'[b.at + 4..b.at + 8] == m[b.at + 4..b.at + 8];
    assert m'[b.at + 8..b.at + 12] == m[b.at + 8..b.at + 12];
  }

  /** Writing inside one block leaves every other block's header and payload alone. */
  lemma OthersUntouched(m: seq<byte>, m': seq<byte>, bs: seq<Block>, i: nat)
    requires Tiles(bs) && Layout(m, bs) && i < |bs| && |m'| == |m|
    requires forall k | 0 <= k < |m| && !(bs[i].at <= k < bs[i].End()) :: m'[k] == m[k]
    ensures forall b | b in bs && b != bs[i] :: HeaderOk(m', b) && Payload(m', b) == Payload(m, b)
  {
    SpansOrdered(bs, 0, ARENA);
    forall b | b in bs && b != bs[i] ensures HeaderOk(m', b) && Payload(m', b) == Payload(m, b) {
      var j :| 0 <= j < |bs| && bs[j] == b;
      assert b.End() <= bs[i].at || bs[i].End() <= b.at;
      assert HeaderOk(m, b);
      HeaderFrame(m, m', b);
    }
  }

  lemma SamePayload(m: seq<byte>, b: Block)
    requires b.End() <= |m|
    ensures b.Extent().End() == b.End() && Payload(m, b.Extent()) == Payload(m, b)
  {
  }

  /** When only block i has been written to, all other live blocks keep their bytes. */
  lemma LiveKept(m: seq<byte>, m': seq<byte>, bs: seq<Block>, i: nat)
    requires Tiles(bs) && |m| == |m'| == ARENA && i < |bs|
    requires forall b | b in bs && b != bs[i] :: b.End() <= ARENA && Payload(m', b) == Payload(m, b)
    ensures PayloadsKept(m, m', Live(bs) - {bs[i].Extent()})
  {
    SpansLe(bs, 0, ARENA);
    hide Payload;
    forall x | x in Live(bs) - {bs[i].Extent()}
      ensures x.End() <= ARENA && Payload(m', x) == Payload(m, x)
    {
      var k := IndexOf(bs, x);
      SamePayload(m, bs[k]);
      SamePayload(m', bs[k]);
    }
  }

  /** Where a live block is in the list. */
  lemma IndexOf(bs: seq<Block>, b: Block) returns (i: nat)
    requires b in Live(bs)
    ensures i < |bs| && !bs[i].free && bs[i].Extent() == b && bs[i].at == b.at && bs[i].End() == b.End()
  {
    i :| 0 <= i < |bs| && !bs[i].free && bs[i].Extent() == b;
  }

  /** Live payloads lie inside the arena, are pairwise disjoint, and contain no header byte. */
  lemma PayloadsDisjoint(bs: seq<Block>, b: Block, c: Block)
    requires Tiles(bs) && b in bs && c in bs
    ensures HEAP_START < PayloadAddress(b) && PayloadAddress(b) + b.size + b.slack <= HEAP_START + ARENA
    ensures b == c
         || PayloadAddress(b) + b.size + b.slack <= PayloadAddress(c) - HEADER
         || PayloadAddress(c) + c.size + c.slack <= PayloadAddress(b) - HEADER
  {
    SpansLe(bs, 0, ARENA);
    SpansOrdered(bs, 0, ARENA);
    var i :| 0 <= i < |bs| && bs[i] == b;
    var j :| 0 <= j < |bs| && bs[j] == c;
  }

  /** The header words of the block at index i, as the list walk reads them. */
  lemma HeaderReads(m: seq<byte>, bs: seq<Block>, i: nat)
    requires Tiles(bs) && Layout(m, bs) && i < |bs|
    ensures bs[i].End() <= ARENA && HeaderOk(m, bs[i])
    ensures NextPointer(bs[i]) == if i + 1 < |bs| then HEAP_START + bs[i + 1].at else NULL
  {
    assert bs[i] in bs;
    SpansLe(bs, 0, ARENA);
    SpansSplit(bs, i, 0, ARENA);
    if i + 1 < |bs| {
      assert bs[i + 1..][0] == bs[i + 1];
      SpansLe(bs[i + 1..], bs[i].End(), ARENA);
    }
  }

  /** The headers malloc must leave where the block b was. */
  ghost predicate CarvedHeaders(m: seq<byte>, b: Block, n: nat)
    requires Fits(b, n)
  {
    && HeaderOk(m, Carve(b, n)[0])
    && (|Carve(b, n)| == 2 ==> HeaderOk(m, Carve(b, n)[1]))
  }

  /** The arena after the header stores of malloc describes the new block list. */
  lemma Carved(m: seq<byte>, m': seq<byte>, bs: seq<Block>, n: nat)
    requires Represents(m, bs) && FirstFit(bs, n) < |bs| && |m'| == |m|
    requires CarvedHeaders(m', bs[FirstFit(bs, n)], n)
    requires var b := bs[FirstFit(bs, n)];
             && PayloadsKept(m, m', Blocks(Carve(b, n)))
             && forall k | 0 <= k < |m| && !(b.at <= k < b.End()) :: m'[k] == m[k]
    ensures Represents(m', Allocate(bs, n))
    ensures PayloadsKept(m, m', Live(bs)) && PayloadsKept(m, m', Blocks(Allocate(bs, n)))
  {
    var i := FirstFit(bs, n);
    var c := Carve(bs[i], n);
    CarvedOthers(m, m', bs, n);
    AllocateSpans(bs, n, 0, ARENA);
    AllocateNeighbours(bs, n);
    OthersUntouched(m, m', bs, i);
    hide HeaderOk, Payload, Spans, NoFreeNeighbours, PayloadsKept, FirstFit, Allocate, Carve;
    forall b | b in Allocate(bs, n) ensures HeaderOk(m', b) {
      AllocateMember(bs, n, 0, ARENA, b);
    }
  }

  lemma CarvedOthers(m: seq<byte>, m': seq<byte>, bs: seq<Block>, n: nat)
    requires Represents(m, bs) && FirstFit(bs, n) < |bs| && |m'| == |m|
    requires var b := bs[FirstFit(bs, n)];
             && PayloadsKept(m, m', Blocks(Carve(b, n)))
             && forall k | 0 <= k < |m| && !(b.at <= k < b.End()) :: m'[k] == m[k]
    ensures PayloadsKept(m, m', Blocks(Allocate(bs, n)))
  {
    var i := FirstFit(bs, n);
    SpansLe(bs, 0, ARENA);
    OthersUntouched(m, m', bs, i);
    hide Carve, FirstFit, Payload;
    forall b | b in Allocate(bs, n)
      ensures b.End() <= |m| && Payload(m', b.Extent()) == Payload(m, b.Extent())
    {
      AllocateMember(bs, n, 0, ARENA, b);
      if b in Carve(bs[i], n) {
        assert b.Extent() in Blocks(Carve(bs[i], n));
      } else {
        SamePayload(m, b);
        SamePayload(m', b);
      }
    }
  }

  /** Marking and splitting writes no byte outside the headers of the blocks that result. */
  lemma CarveKeeps(m: seq<byte>, m': seq<byte>, b: Block, n: nat)
    requires Fits(b, n) && b.End() <= |m| == |m'|
    requires forall k | 0 <= k < |m| && (forall c | c in Carve(b, n) :: !(c.at <= k < c.at + HEADER)) :: m'[k] == m[k]
    ensures PayloadsKept(m, m', Blocks(Carve(b, n)))
    ensures forall k | 0 <= k < |m| && !(b.at <= k < b.End()) :: m'[k] == m[k]
  {
    forall c | c in Carve(b, n) ensures c.End() <= |m| && Payload(m', c) == Payload(m, c) {
      assert forall k | c.at + HEADER <= k < c.End() :: m'[k] == m[k];
    }
  }

  lemma {:induction false} AllocateMember(bs: seq<Block>, n: nat, lo: nat, hi: nat, b: Block)
    requires Spans(bs, lo, hi) && FirstFit(bs, n) < |bs| && b in Allocate(bs, n)
    ensures b in Carve(bs[FirstFit(bs, n)], n) || (b in bs && b != bs[FirstFit(bs, n)])
  {
    var t := bs[1..];
    SpansLe(t, bs[0].End(), hi);
    if Fits(bs[0], n) {
      assert b in Carve(bs[0], n) || b in t;
    } else {
      assert bs[FirstFit(bs, n)] == t[FirstFit(t, n)];
      if b in Allocate(t, n) { AllocateMember(t, n, bs[0].End(), hi, b); }
    }
  }

  /** A block that survives the replacement of bs[i] by c is a block of bs other than bs[i]. */
  lemma DropsOnly(bs: seq<Block>, i: nat, c: seq<Block>, b: Block)
    requires Tiles(bs) && i < |bs| && b in bs[..i] + c + bs[i + 1..] && b !in c
    ensures b in bs && b != bs[i]
  {
    SpansOrdered(bs, 0, ARENA);
    if b in bs[..i] {
      var j :| 0 <= j < i && bs[..i][j] == b;
      assert bs[j] == b;
    } else {
      var j :| 0 <= j < |bs| - i - 1 && bs[i + 1..][j] == b;
      assert bs[j + i + 1] == b;
    }
  }

  lemma FreedHeader(m: seq<byte>, m': seq<byte>, b: Block)
    requires HeaderOk(m, b) && Wrote(m, m', b.at + 4, 1)
    ensures HeaderOk(m', b.(free := true)) && Payload(m', b) == Payload(m, b)
  {
  }

  lemma UsedHeader(m: seq<byte>, m': seq<byte>, b: Block)
    requires HeaderOk(m, b) && Wrote(m, m', b.at + 4, 0)
    ensures HeaderOk(m', b.(free := false))
    ensures forall k | 0 <= k < |m| && !(b.at <= k < b.at + HEADER) :: m'[k] == m[k]
  {
  }

  /** The arena after free has set the block's free flag. */
  lemma Marked(m: seq<byte>, m': seq<byte>, bs: seq<Block>, i: nat)
    requires Tiles(bs) && Layout(m, bs) && i < |bs|
    requires HeaderOk(m, bs[i]) && Wrote(m, m', bs[i].at + 4, 1)
    ensures Layout(m', MarkFree(bs, bs[i].at))
    ensures PayloadsKept(m, m', Live(bs) - {bs[i].Extent()})
  {
    var b := bs[i];
    SpansLe(bs, 0, ARENA);
    OthersUntouched(m, m', bs, i);
    FreedHeader(m, m', b);
    LiveKept(m, m', bs, i);
    hide HeaderOk, PayloadsKept, Payload, Wrote;
    forall c | c in MarkFree(bs, b.at) ensures HeaderOk(m', c) {
      MarkFreeMember(bs, b, c);
    }
  }

  lemma MarkFreeMember(bs: seq<Block>, b: Block, c: Block)
    requires Tiles(bs) && b in bs && c in MarkFree(bs, b.at)
    ensures c == b.(free := true) || (c in bs && c != b)
  {
    var j :| 0 <= j < |bs| && MarkFree(bs, b.at)[j] == c;
    if bs[j].at == b.at { SameOffsetSameBlock(bs, b, bs[j]); }
  }

  lemma MarkFreeKeeps(bs: seq<Block>, b: Block)
    requires Tiles(bs) && b in Live(bs)
    ensures Tiles(MarkFree(bs, b.at)) && Live(bs) - {b} <= Live(MarkFree(bs, b.at))
  {
    MarkFreeSpans(bs, b.at, 0, ARENA);
    MarkFreeLive(bs, b.at);
    forall c | c in Live(bs) && c.at == b.at ensures c == b {
      SameLive(bs, b, c);
    }
  }

  ghost function Joined(bs: seq<Block>, k: nat): (r: seq<Block>)
    requires k + 1 < |bs|
    ensures |r| == |bs| - 1
    ensures r[k].at == bs[k].at && (bs[k].End() == bs[k + 1].at ==> r[k].End() == bs[k + 1].End())
  {
    bs[..k] + [Join(bs[k], bs[k + 1])] + bs[k + 2..]
  }

  lemma JoinedSpans(bs: seq<Block>, k: nat)
    requires Tiles(bs) && k + 1 < |bs|
    ensures Tiles(Joined(bs, k))
  {
    SpansSplit(bs, k, 0, ARENA);
    var t := bs[k + 1..];
    SpansSplit(t, 0, bs[k].End(), ARENA);
    assert t[1..] == bs[k + 2..] && t[0] == bs[k + 1];
    var j := Join(bs[k], bs[k + 1]);
    assert Spans([j], bs[k].at, j.End()) by { assert [j][1..] == []; }
    SpansConcat(bs[..k], [j], 0, bs[k].at, j.End());
    SpansConcat(bs[..k] + [j], bs[k + 2..], 0, j.End(), ARENA);
  }

  /** The arena after the two stores that absorb the block after index k. */
  lemma Absorbed(m: seq<byte>, m': seq<byte>, bs: seq<Block>, k: nat)
    requires Tiles(bs) && Layout(m, bs) && k + 1 < |bs| && bs[k].free && bs[k + 1].free
    requires |m'| == |m| && HeaderOk(m', Join(bs[k], bs[k + 1]))
    requires forall i | 0 <= i < |m| && !(bs[k].at <= i < bs[k].End()) :: m'[i] == m[i]
    ensures Tiles(Joined(bs, k)) && Layout(m', Joined(bs, k))
    ensures PayloadsKept(m, m', Live(bs)) && Live(Joined(bs, k)) == Live(bs)
  {
    OthersUntouched(m, m', bs, k);
    JoinedSpans(bs, k);
    JoinedLive(bs, k);
    hide HeaderOk, Payload, Tiles, Live;
    forall b | b in Joined(bs, k) ensures HeaderOk(m', b) {
      if b != Join(bs[k], bs[k + 1]) { JoinedMember(bs, k, b); }
    }
    LiveKept(m, m', bs, k);
    FreeNotLive(bs, k);
    assert Live(bs) - {bs[k].Extent()} == Live(bs);
  }

  lemma FreeNotLive(bs: seq<Block>, k: nat)
    requires Tiles(bs) && k < |bs| && bs[k].free
    ensures bs[k].Extent() !in Live(bs)
  {
    var b := bs[k];
    forall x | x in Live(bs) ensures x != b.Extent() {
      var j := IndexOf(bs, x);
      var c := bs[j];
      if c.at == b.at { SameOffsetSameBlock(bs, c, b); }
    }
  }

  lemma JoinedMember(bs: seq<Block>, k: nat, b: Block)
    requires Tiles(bs) && k + 1 < |bs| && b in Joined(bs, k) && b != Join(bs[k], bs[k + 1])
    ensures b in bs && b != bs[k]
  {
    var c := [Join(bs[k], bs[k + 1])];
    assert bs[k + 1..][1..] == bs[k + 2..];
    assert b in bs[..k] + c + bs[k + 1..] by {
      assert b in bs[..k] || b in bs[k + 1..][1..];
    }
    DropsOnly(bs, k, c, b);
  }

  lemma JoinedLive(bs: seq<Block>, k: nat)
    requires k + 1 < |bs| && bs[k].free && bs[k + 1].free
    ensures Live(Joined(bs, k)) == Live(bs)
  {
    LiveMiddle(bs[..k], [bs[k], bs[k + 1]], bs[k + 2..]);
    LiveMiddle(bs[..k], [Join(bs[k], bs[k + 1])], bs[k + 2..]);
    assert bs == bs[..k] + [bs[k], bs[k + 1]] + bs[k + 2..];
  }

  /** The rest of free's pass over the list, from index k on. */
  ghost function Swept(bs: seq<Block>, k: nat): seq<Block>
    decreases |bs| - k
  {
    if k + 1 >= |bs| then bs
    else if bs[k].free && bs[k + 1].free then Swept(Joined(bs, k), k)
    else Swept(bs, k + 1)
  }

  lemma {:induction false} SweptIsCoalesce(bs: seq<Block>, k: nat)
    requires k <= |bs|
    ensures Swept(bs, k) == bs[..k] + Coalesce(bs[k..])
    decreases |bs| - k
  {
    hide Swept, Coalesce, Joined, Join;
    SweptStep(bs, k);
    CoalesceStep(bs, k);
    if k + 1 >= |bs| {
      assert bs == bs[..k] + bs[k..];
    } else if bs[k].free && bs[k + 1].free {
      SweptIsCoalesce(Joined(bs, k), k);
      JoinedParts(bs, k);
    } else {
      SweptIsCoalesce(bs, k + 1);
      assert bs[..k + 1] == bs[..k] + [bs[k]];
      Regroup(bs[..k], [bs[k]], Coalesce(bs[k + 1..]));
    }
  }

  lemma JoinedParts(bs: seq<Block>, k: nat)
    requires k + 1 < |bs|
    ensures Joined(bs, k)[k..] == [Join(bs[k], bs[k + 1])] + bs[k + 2..] && Joined(bs, k)[..k] == bs[..k]
  {
    hide Join;
  }

  lemma SweptStep(bs: seq<Block>, k: nat)
    requires k <= |bs|
    ensures Swept(bs, k) ==
            if k + 1 >= |bs| then bs
            else if bs[k].free && bs[k + 1].free then Swept(Joined(bs, k), k)
            else Swept(bs, k + 1)
  {
  }

  lemma CoalesceStep(bs: seq<Block>, k: nat)
    requires k <= |bs|
    ensures Coalesce(bs[k..]) ==
            if k + 1 >= |bs| then bs[k..]
            else if bs[k].free && bs[k + 1].free then Coalesce([Join(bs[k], bs[k + 1])] + bs[k + 2..])
            else [bs[k]] + Coalesce(bs[k + 1..])
  {
    if k + 1 < |bs| {
      assert bs[k..][1..] == bs[k + 1..] && bs[k..][2..] == bs[k + 2..];
    }
  }

  lemma SweptFromStart(bs: seq<Block>)
    ensures Swept(bs, 0) == Coalesce(bs)
  {
    SweptIsCoalesce(bs, 0);
    assert bs[0..] == bs && bs[..0] == [];
  }

  lemma CopiedLayout(m: seq<byte>, m': seq<byte>, bs: seq<Block>, b: Block)
    requires Tiles(bs) && Layout(m, bs) && b in Live(bs) && b.End() <= |m| == |m'|
    requires forall k | 0 <= k < |m| && !(b.at + HEADER <= k < b.End()) :: m'[k] == m[k]
    ensures Layout(m', bs) && PayloadsKept(m, m', Live(bs) - {b})
  {
    SpansLe(bs, 0, ARENA);
    var i := IndexOf(bs, b);
    OthersUntouched(m, m', bs, i);
    assert HeaderOk(m, bs[i]);
    HeaderFrame(m, m', bs[i]);
    LiveKept(m, m', bs, i);
    hide HeaderOk, PayloadsKept, Payload;
  }

  /** What a header says after a zero has been stored in its first byte. */
  lemma NickedHeader(m: seq<byte>, b: Block)
    requires HeaderOk(m, b)
    ensures HeaderOk(m[b.at := 0], Nick(b)) && Payload(m[b.at := 0], b) == Payload(m, b)
  {
    var m' := m[b.at := 0];
    LowByte(m, b.at);
    LowByte(m', b.at);
    assert m'[b.at + 1..b.at + 4] == m[b.at + 1..b.at + 4];
    assert m'[b.at + 4..b.at + 8] == m[b.at + 4..b.at + 8];
    assert m'[b.at + 8..b.at + 12] == m[b.at + 8..b.at + 12];
    assert Word(m', b.at + 4) == Word(m, b.at + 4) && Word(m', b.at + 8) == Word(m, b.at + 8);
    hide Word, FromLE;
  }

  lemma LowByte(m: seq<byte>, i: nat)
    requires i + 4 <= |m|
    ensures Word(m, i) == m[i] + 0x100 * FromLE(m[i + 1..i + 4])
  {
    assert m[i..i + 4][1..] == m[i + 1..i + 4];
  }

  /** A heap with a zero in the first byte of a header is still a heap, and nobody's bytes have
      changed. */
  lemma NickedHeap(m: seq<byte>, bs: seq<Block>, i: nat)
    requires Represents(m, bs) && i < |bs|
    ensures bs[i].at < |m| && Represents(m[bs[i].at := 0], Nicked(bs, bs[i].at))
    ensures PayloadsKept(m, m[bs[i].at := 0], Live(bs))
  {
    var at := bs[i].at;
    SpansLe(bs, 0, ARENA);
    assert HeaderOk(m, bs[i]);
    var m' := m[at := 0];
    NickedEffect(bs, at);
    NickedHeader(m, bs[i]);
    OthersUntouched(m, m', bs, i);
    AllLiveKept(m, m', bs);
    NickedLayout(m', bs, i);
  }

  lemma NickedLayout(m: seq<byte>, bs: seq<Block>, i: nat)
    requires Tiles(bs) && i < |bs| && HeaderOk(m, Nick(bs[i])) && |m| == ARENA
    requires forall b | b in bs && b != bs[i] :: HeaderOk(m, b)
    ensures Layout(m, Nicked(bs, bs[i].at))
  {
    hide HeaderOk, Nicked, Nick;
    forall c | c in Nicked(bs, bs[i].at) ensures HeaderOk(m, c) {
      NickedMember(bs, i, c);
    }
  }

  lemma AllLiveKept(m: seq<byte>, m': seq<byte>, bs: seq<Block>)
    requires Tiles(bs) && |m| == |m'| == ARENA
    requires forall b | b in bs :: b.End() <= ARENA && Payload(m', b) == Payload(m, b)
    ensures PayloadsKept(m, m', Live(bs))
  {
    hide Payload;
    forall x | x in Live(bs) ensures x.End() <= ARENA && Payload(m', x) == Payload(m, x) {
      var k := IndexOf(bs, x);
      SamePayload(m, bs[k]);
      SamePayload(m', bs[k]);
    }
  }

  lemma NickedMember(bs: seq<Block>, i: nat, c: Block)
    requires Tiles(bs) && i < |bs| && c in Nicked(bs, bs[i].at)
    ensures c == Nick(bs[i]) || (c in bs && c != bs[i])
  {
    var j :| 0 <= j < |bs| && Nicked(bs, bs[i].at)[j] == c;
    if bs[j].at == bs[i].at { SameOffsetSameBlock(bs, bs[i], bs[j]); }
  }

  lemma ZeroInside(m: seq<byte>, bs: seq<Block>, b: Block, n: nat)
    requires Represents(m, bs) && b in Live(bs) && n < b.size
    ensures b.End() <= |m| == ARENA && b.at + HEADER + n < b.End()
    ensures var m' := m[b.at + HEADER + n := 0]; Represents(m', bs) && PayloadsKept(m, m', Live(bs) - {b})
  {
    SpansLe(bs, 0, ARENA);
    var i := IndexOf(bs, b);
    hide Live, HeaderOk, Payload, PayloadsKept;
    CopiedLayout(m, m[b.at + HEADER + n := 0], bs, b);
  }

  lemma ZeroBehind(m: seq<byte>, bs: seq<Block>, b: Block)
    requires Represents(m, bs) && b in Live(bs)
    ensures b.End() <= |m| == ARENA && b.End() == b.at + HEADER + b.size
    ensures b.End() < ARENA ==> Represents(m[b.End() := 0], Nicked(bs, b.End()))
    ensures b.End() < ARENA ==> PayloadsKept(m, m[b.End() := 0], Live(bs))
    ensures b.End() == ARENA ==> Nicked(bs, b.End()) == bs && PayloadsKept(m, m, Live(bs))
  {
    SpansLe(bs, 0, ARENA);
    var i := IndexOf(bs, b);
    if b.End() < ARENA {
      FollowedBy(bs, i);
      hide *;
      NickedHeap(m, bs, i + 1);
    } else {
      NothingNicked(bs);
      hide *;
      KeptHere(m, bs, Live(bs));
    }
  }

  /** Memory after a zero has been stored behind n bytes of block b. */
  function ZeroAt(m: seq<byte>, b: Block, n: nat): (r: seq<byte>)
    ensures |r| == |m|
  {
    if b.at + HEADER + n < |m| then m[b.at + HEADER + n := 0] else m
  }

  /** The block list then. */
  function Terminated(bs: seq<Block>, b: Block, n: nat): seq<Block> {
    if n == b.size then Nicked(bs, b.End()) else bs
  }

  /** The bytes before the zero. */
  lemma FrontOfPayload(m: seq<byte>, b: Block, n: nat)
    requires b.End() <= |m| && n <= b.size
    ensures Payload(ZeroAt(m, b, n), b)[..n] == Payload(m, b)[..n]
  {
  }

  lemma ZeroStored(m: seq<byte>, bs: seq<Block>, b: Block, n: nat)
    requires Represents(m, bs) && b in Live(bs) && n <= b.size
    ensures b.End() <= |m| == ARENA && Live(Terminated(bs, b, n)) == Live(bs)
    ensures Represents(ZeroAt(m, b, n), Terminated(bs, b, n)) && PayloadsKept(m, ZeroAt(m, b, n), Live(bs) - {b})
  {
    hide Represents, PayloadsKept, Live, Nicked;
    if n < b.size {
      ZeroInside(m, bs, b, n);
    } else {
      ZeroBehind(m, bs, b);
      StaysLive(m, bs, b.End());
      KeptFewer(m, ZeroAt(m, b, n), Live(bs), Live(bs) - {b});
    }
  }

  lemma KeptFewer(m: seq<byte>, m': seq<byte>, live: set<Block>, fewer: set<Block>)
    requires PayloadsKept(m, m', live) && fewer <= live
    ensures PayloadsKept(m, m', fewer)
  {
  }

  lemma StaysLive(m: seq<byte>, bs: seq<Block>, at: nat)
    requires Represents(m, bs)
    ensures Live(Nicked(bs, at)) == Live(bs)
  {
    NickedEffect(bs, at);
  }

  /** The next block begins where one ends. */
  lemma FollowedBy(bs: seq<Block>, i: nat)
    requires Tiles(bs) && i < |bs| && bs[i].End() < ARENA
    ensures i + 1 < |bs| && bs[i + 1].at == bs[i].End()
  {
    SpansSplit(bs, i, 0, ARENA);
    assert bs[i + 1..] != [];
    assert bs[i + 1] == bs[i + 1..][0];
  }

  lemma NothingNicked(bs: seq<Block>)
    requires Tiles(bs)
    ensures Nicked(bs, ARENA) == bs
  {
    SpansLe(bs, 0, ARENA);
  }

  class Heap {
    const arena: array<byte>
    var heapStart: u32
    var initialized: bool
    ghost var mem: seq<byte>       // what the arena holds
    ghost var blocks: seq<Block>   // the blocks its headers describe

    ghost predicate Mirrored()
      reads this, arena
    {
      mem == arena[..] && |mem| == ARENA
    }

    ghost predicate Valid()
      reads this, arena
    {
      && Mirrored()
      && if initialized then heapStart == HEAP_START && Represents(mem, blocks)
         else blocks == []
    }

    /** The memory is whatever the machine left there; nothing is initialized yet. */
    constructor (memory: array<byte>)
      requires memory.Length == ARENA
      ensures Valid() && !initialized && arena == memory
    {
      arena := memory;
      heapStart := NULL;
      initialized := false;
      blocks := [];
      mem := memory[..];
    }

    ghost function Booted(): seq<Block>
      reads this
    {
      if initialized then blocks else INITIAL_BLOCKS
    }

    method Store(address: u32, w: u32)
      requires Mirrored() && 0 <= Offset(address) && Offset(address) + 4 <= ARENA
      modifies arena, `mem
      ensures Mirrored() && Wrote(old(mem), mem, Offset(address), w)
    {
      var o := Offset(address);
      var b := ToLE(w, 4);
      arena[o], arena[o + 1], arena[o + 2], arena[o + 3] := b[0], b[1], b[2], b[3];
      mem := Overlay(mem, o, b);
      OverlayWrote(old(mem), o, w);
      assert mem == arena[..];
    }

    function Load(address: u32): (w: u32)
      requires Mirrored() && 0 <= Offset(address) && Offset(address) + 4 <= ARENA
      reads this, arena
      ensures w == Word(mem, Offset(address))
    {
      Word(arena[..], Offset(address))
    }

    method Init()
      requires Valid()
      modifies this, arena
      ensures Valid() && initialized && blocks == old(Booted())
      ensures old(initialized) ==> mem == old(mem)
    {
      if initialized { return; }
      heapStart := HEAP_START;
      WriteHeader(heapStart, ARENA - HEADER, NULL);
      blocks := INITIAL_BLOCKS;
      initialized := true;
      InitialWellFormed();
    }

    method Malloc(request: u32) returns (ptr: u32)
      requires Valid()
      modifies this, arena
      ensures Valid() && initialized
      ensures blocks == Serve(old(Booted()), request)
      ensures ptr == ServedPointer(old(Booted()), request)
      ensures PayloadsKept(old(mem), mem, old(Live(blocks)))
      ensures old(initialized) ==> PayloadsKept(old(mem), mem, Blocks(blocks))
    {
      Init();
      KeptReflexive(mem, blocks, Live(blocks));
      AllKept(mem, blocks);
      if request == 0 { return NULL; }
      var size := Rounded(request);
      var current := Search(size);
      if current == NULL {
        AllocateWithout(blocks, size);
        return NULL;
      }
      HeaderReads(mem, blocks, FirstFit(blocks, size));
      Carving(current, size, FirstFit(blocks, size));
      return current + HEADER;
    }

    /** Walks the list to the first free block that is large enough. */
    method Search(size: u32) returns (current: u32)
      requires Valid() && initialized
      ensures var i := FirstFit(blocks, size);
              current == if i == |blocks| then NULL else HEAP_START + blocks[i].at
    {
      hide Word;
      current := heapStart;
      ghost var k := 0;
      SpansOrdered(blocks, 0, ARENA);
      while current != NULL
        invariant k <= |blocks| && current == if k < |blocks| then HEAP_START + blocks[k].at else NULL
        invariant forall j | 0 <= j < k :: !Fits(blocks[j], size)
        decreases |blocks| - k
      {
        HeaderReads(mem, blocks, k);
        if Load(current + 4) != 0 && Load(current) >= size { return; }
        current := Load(current + 8);
        k := k + 1;
      }
    }

    /** Marks the first fitting block as used and splits it when it is much larger than size. */
    method Carving(current: u32, size: u32, ghost k: nat)
      requires Valid() && initialized
      requires k == FirstFit(blocks, size) < |blocks| && current == HEAP_START + blocks[k].at
      modifies arena, `mem, `blocks
      ensures Valid() && blocks == Allocate(old(blocks), size)
      ensures PayloadsKept(old(mem), mem, old(Live(blocks))) && PayloadsKept(old(mem), mem, Blocks(blocks))
    {
      HeaderReads(mem, blocks, k);
      CarveStores(current, size, blocks[k]);
      Carved(old(mem), mem, blocks, size);
      blocks := Allocate(blocks, size);
    }

    method CarveStores(current: u32, size: u32, ghost b: Block)
      requires Mirrored() && b.End() <= ARENA && HeaderOk(mem, b)
      requires Fits(b, size) && current == HEAP_START + b.at
      modifies arena, `mem
      ensures Mirrored() && CarvedHeaders(mem, b, size) && PayloadsKept(old(mem), mem, Blocks(Carve(b, size)))
      ensures forall k | 0 <= k < ARENA && !(b.at <= k < b.End()) :: mem[k] == old(mem)[k]
    {
      hide Word;
      Store(current + 4, 0);
      UsedHeader(old(mem), mem, b);
      assert b.at == Carve(b, size)[0].at && Carve(b, size)[0] in Carve(b, size);
      if Load(current) > size + HEADER + ALIGN {
        SplitStores(current, current + HEADER + size, size, b);
        assert Carve(b, size)[1] in Carve(b, size);
      }
      CarveKeeps(old(mem), mem, b, size);
    }

    /** Writes the header of the leftover block and shortens the block that was found. */
    method SplitStores(current: u32, newBlock: u32, size: u32, ghost b: Block)
      requires Mirrored() && b.End() <= ARENA
      requires current == HEAP_START + b.at && newBlock == current + HEADER + size
      requires Word(mem, b.at) == b.size > size + HEADER + ALIGN
      requires Word(mem, b.at + 4) == 0 && Word(mem, b.at + 8) == NextPointer(b)
      modifies arena, `mem
      ensures Mirrored() && HeaderOk(mem, Block(b.at, size, false))
      ensures HeaderOk(mem, Block(b.at + HEADER + size, b.size - size - HEADER, true, b.slack))
      ensures forall k | 0 <= k < ARENA && !(b.at <= k < b.at + HEADER)
                && !(b.at + HEADER + size <= k < b.at + HEADER + size + HEADER) :: mem[k] == old(mem)[k]
    {
      hide Word;
      var length := Load(current);
      WriteHeader(newBlock, length - size - HEADER, Load(current + 8));
      Store(current + 8, newBlock);
      Store(current, size);
      assert Block(b.at, size, false).End() == Offset(newBlock);
    }

    /** Writes the three header words of a free block. */
    method WriteHeader(block: u32, size: u32, next: u32)
      requires Mirrored() && 0 <= Offset(block) && Offset(block) + HEADER <= ARENA
      modifies arena, `mem
      ensures Mirrored() && SameOutside(old(mem), mem, Offset(block), Offset(block) + HEADER)
      ensures Word(mem, Offset(block)) == size && Word(mem, Offset(block) + 4) == 1
      ensures Word(mem, Offset(block) + 8) == next
    {
      Store(block, size);
      Store(block + 4, 1);
      Store(block + 8, next);
    }

    /** free: ptr must be a live pointer, or NULL. Coalesces the whole list. */
    method Free(ptr: u32, ghost b: Block) returns (code: int)
      requires Valid()
      requires ptr != NULL && initialized ==> b in Live(blocks) && PayloadAddress(b) == ptr
      modifies arena, `mem, `blocks
      ensures Valid() && initialized == old(initialized)
      ensures ptr == NULL || !initialized ==>
                code == SYSCALL_INVALID_PARAMS && blocks == old(blocks) && mem == old(mem)
      ensures ptr != NULL && initialized ==>
                && code == SYSCALL_OK
                && blocks == Release(old(blocks), b.at)
                && Live(blocks) == Live(old(blocks)) - {b}
                && PayloadsKept(old(mem), mem, old(Live(blocks)) - {b})
    {
      if ptr == NULL || !initialized { return SYSCALL_INVALID_PARAMS; }
      hide Word, MarkFree, Coalesce, PayloadsKept;
      ghost var kept := Live(blocks) - {b};
      ghost var i := IndexOf(blocks, b);
      HeaderReads(mem, blocks, i);
      Store(ptr - HEADER + 4, 1);
      Marked(old(mem), mem, blocks, i);
      ReleaseEffect(blocks, b);
      MarkFreeKeeps(blocks, b);
      blocks := MarkFree(blocks, b.at);
      ghost var m := mem;
      SweptFromStart(blocks);
      Sweep(kept);
      KeptTransitive(old(mem), m, mem, kept);
      return SYSCALL_OK;
    }

    /** The pass over the list that merges free neighbours. */
    method Sweep(ghost kept: set<Block>)
      requires Mirrored() && initialized && heapStart == HEAP_START
      requires Tiles(blocks) && Layout(mem, blocks) && kept <= Live(blocks)
      modifies arena, `mem, `blocks
      ensures Mirrored() && Tiles(blocks) && Layout(mem, blocks)
      ensures blocks == Swept(old(blocks), 0)
      ensures PayloadsKept(old(mem), mem, kept)
    {
      hide Word, Tiles;
      var current := heapStart;
      ghost var k := 0;
      KeptReflexive(mem, blocks, kept);
      HeaderReads(mem, blocks, 0);
      while current != NULL && Load(current + 8) != NULL
        invariant Mirrored() && Tiles(blocks) && Layout(mem, blocks) && kept <= Live(blocks)
        invariant k < |blocks| && current == HEAP_START + blocks[k].at && blocks[k].End() <= ARENA
        invariant Swept(blocks, k) == Swept(old(blocks), 0)
        invariant PayloadsKept(old(mem), mem, kept)
        decreases |blocks| - k
      {
        HeaderReads(mem, blocks, k);
        HeaderReads(mem, blocks, k + 1);
        var next := Load(current + 8);
        if Load(current + 4) != 0 && Load(next + 4) != 0 {
          ghost var m := mem;
          Absorb(current, next, k, kept);
          KeptTransitive(old(mem), m, mem, kept);
        } else {
          current := next;
          k := k + 1;
        }
      }
      HeaderReads(mem, blocks, k);
    }

    /** Absorbs the free block after index k. */
    method Absorb(current: u32, next: u32, ghost k: nat, ghost kept: set<Block>)
      requires Mirrored() && Tiles(blocks) && Layout(mem, blocks) && kept <= Live(blocks)
      requires k + 1 < |blocks| && blocks[k].free && blocks[k + 1].free
      requires current == HEAP_START + blocks[k].at && next == HEAP_START + blocks[k + 1].at
      modifies arena, `mem, `blocks
      ensures blocks == Joined(old(blocks), k)
      ensures Mirrored() && Tiles(blocks) && Layout(mem, blocks) && kept <= Live(blocks)
      ensures PayloadsKept(old(mem), mem, kept)
    {
      HeaderReads(mem, blocks, k);
      HeaderReads(mem, blocks, k + 1);
      Extend(current, next, blocks[k], blocks[k + 1]);
      Absorbed(old(mem), mem, blocks, k);
      blocks := Joined(blocks, k);
    }

    /** Makes the free block a swallow its free successor b. */
    method Extend(current: u32, next: u32, ghost a: Block, ghost b: Block)
      requires Mirrored() && b.End() <= ARENA && a.End() == b.at && a.free
      requires HeaderOk(mem, a) && HeaderOk(mem, b)
      requires current == HEAP_START + a.at && next == HEAP_START + b.at
      modifies arena, `mem
      ensures Mirrored() && HeaderOk(mem, Join(a, b))
      ensures forall i | 0 <= i < ARENA && !(a.at <= i < a.End()) :: mem[i] == old(mem)[i]
    {
      hide Word;
      Store(current, Load(current) + Load(next) + HEADER);
      Store(current + 8, Load(next + 8));
      assert Join(a, b).End() == b.End();
    }

    /** A zero stored behind n bytes of the live block b: in the block, or where the next header
        begins, or behind the arena, of which nothing is known. */
    method PutZero(address: u32, ghost n: nat, ghost b: Block)
      requires Valid() && initialized && b in Live(blocks) && n <= b.size && address == PayloadAddress(b) + n
      modifies arena, `mem, `blocks
      ensures Valid() && mem == ZeroAt(old(mem), b, n) && blocks == Terminated(old(blocks), b, n)
      ensures Live(blocks) == old(Live(blocks)) && PayloadsKept(old(mem), mem, old(Live(blocks)) - {b})
    {
      ZeroStored(mem, blocks, b, n);
      hide Represents, PayloadsKept, Terminated, Live;
      if Offset(address) < ARENA {
        arena[Offset(address)] := 0;
      }
      mem := ZeroAt(mem, b, n);
      blocks := Terminated(blocks, b, n);
    }

    /** memcpy into the live block b. */
    method CopyIn(dst: u32, src: seq<byte>, ghost b: Block)
      requires Valid() && b in Live(blocks)
      requires PayloadAddress(b) <= dst && dst + |src| <= PayloadAddress(b) + b.size
      modifies arena, `mem
      ensures Valid()
      ensures Offset(dst) + |src| <= ARENA && mem == Overlay(old(mem), Offset(dst), src)
      ensures PayloadsKept(old(mem), mem, Live(blocks) - {b})
    {
      var o := Offset(dst);
      SpansLe(blocks, 0, ARENA);
      for i := 0 to |src|
        invariant Mirrored()
        invariant forall k | 0 <= k < ARENA :: mem[k] == if o <= k < o + i then src[k - o] else old(mem[k])
      {
        arena[o + i] := src[i];
        mem := mem[o + i := src[i]];
      }
      assert mem == Overlay(old(mem), o, src);
      CopiedLayout(old(mem), mem, blocks, b);
    }

    /** memcpy of n bytes out of the heap to the front of a buffer elsewhere. */
    method CopyOut(src: u32, n: nat, buffer: array<byte>)
      requires Mirrored() && 0 <= Offset(src) && Offset(src) + n <= ARENA
      requires n <= buffer.Length && buffer != arena
      modifies buffer
      ensures buffer[..n] == mem[Offset(src)..Offset(src) + n] && buffer[n..] == old(buffer[n..])
    {
      var o := Offset(src);
      for k := 0 to n
        invariant forall j | 0 <= j < buffer.Length :: buffer[j] == if j < k then mem[o + j] else old(buffer[j])
      {
        buffer[k] := arena[o + k];
      }
    }

    /** memcpy of n bytes from the front of one live block to the front of another. */
    method CopyAcross(dst: u32, src: u32, n: nat, ghost b: Block, ghost ob: Block)
      requires Valid() && b in Live(blocks) && ob in Live(blocks) && b != ob && n <= b.size && n <= ob.size
      requires PayloadAddress(b) == dst && PayloadAddress(ob) == src && ob.End() <= ARENA && b.End() <= ARENA
      modifies arena, `mem
      ensures Valid() && PayloadsKept(old(mem), mem, Live(blocks) - {b})
      ensures mem == Overlay(old(mem), b.at + HEADER, old(mem)[ob.at + HEADER..ob.at + HEADER + n])
    {
      hide Represents, PayloadsKept, Payload, Live, Overlay;
      var o := Offset(src);
      assert arena[o..o + n] == mem[o..o + n];
      CopyIn(dst, arena[o..o + n], b);
    }

    /** Allocates a new block and copies the front of another one into it. */
    method MallocCopy(from: u32, n: nat, request: u32, ghost ob: Block) returns (ptr: u32)
      requires Valid() && initialized && ob in Live(blocks) && PayloadAddress(ob) == from
      requires request <= 0xFFFF_FFE0 && n <= ob.size && (request > 0 ==> n <= request)
      modifies this, arena
      ensures Valid() && initialized && blocks == Serve(old(blocks), request)
      ensures ptr == ServedPointer(old(blocks), request)
      ensures ptr == NULL ==> PayloadsKept(old(mem), mem, Live(old(blocks)))
      ensures ptr != NULL ==> HasCopy(old(mem), mem, Live(old(blocks)), ob, NewBlock(old(blocks), request), n)
    {
      ghost var bs, m0 := blocks, mem;
      Served(m0, bs, request);
      hide Represents, WellFormed, PayloadsKept, Payload, Serve, HeapFull, NewBlock, ServedPointer, HasCopy, Live,
        Overlay,
        PayloadAddress, Heap.Mirrored;
      ptr := Malloc(request);
      if ptr == NULL { return; }
      ghost var b := NewBlock(bs, request);
      ghost var m1 := mem;
      SizesInArena(m1, blocks, ob, b);
      FreshKept(m0, m1, blocks, b);
      CopyAcross(ptr, from, n, b, ob);
      CopiedOver(m0, m1, mem, Live(bs), ob, b, n);
    }

    /** malloc of a new buffer, memcpy of the first n bytes of the old one, free of the old one. */
    method Relocate(from: u32, n: nat, request: u32, ghost ob: Block) returns (ptr: u32)
      requires Valid() && initialized && ob in Live(blocks) && PayloadAddress(ob) == from
      requires request <= 0xFFFF_FFE0 && n <= ob.size && (request > 0 ==> n <= request)
      modifies this, arena
      ensures Valid() && initialized
      ensures ptr == ServedPointer(old(blocks), request)
      ensures ptr == NULL <==> HeapFull(old(blocks), request)
      ensures ptr == NULL ==> blocks == old(blocks) && PayloadsKept(old(mem), mem, Live(old(blocks)))
      ensures ptr != NULL ==>
                Moved(old(mem), mem, Live(old(blocks)), Live(blocks), ob, NewBlock(old(blocks), request), n)
      ensures ptr != NULL ==> NewBlock(old(blocks), request).size >= request
      ensures ptr != NULL ==> blocks == Release(Serve(old(blocks), request), ob.at)
    {
      ghost var bs, m0 := blocks, mem;
      Served(m0, bs, request);
      hide Represents, WellFormed, PayloadsKept, Payload, Serve, Release, HeapFull, NewBlock, ServedPointer, Moved,
        HasCopy, Live;
      ptr := MallocCopy(from, n, request, ob);
      if ptr == NULL { return; }
      ghost var b := NewBlock(bs, request);
      ghost var m2 := mem;
      var code := Free(from, ob);
      SizesInArena(mem, blocks, b, b);
      FreedOld(m0, m2, mem, Live(bs), ob, b, n);
    }
  }

  /** b has the first n bytes of ob and is otherwise as it was, and no live payload has changed. */
  ghost predicate HasCopy(m: seq<byte>, m': seq<byte>, live: set<Block>, ob: Block, b: Block, n: nat) {
    && ob in live && b !in live && n <= ob.size && n <= b.size
    && |m| == |m'| == ARENA && b.End() <= ARENA && ob.End() <= ARENA
    && PayloadsKept(m, m', live) && Payload(m', b) == Payload(m, ob)[..n] + Payload(m, b)[n..]
  }

  /** The live blocks are the old ones with ob replaced by b; b starts with the first n bytes
      of ob and goes on with whatever was there, and the other payloads are unchanged. */
  ghost predicate Moved(m: seq<byte>, m': seq<byte>, live: set<Block>, live': set<Block>, ob: Block, b: Block, n: nat) {
    && ob in live && b !in live && live' == live + {b} - {ob}
    && PayloadsKept(m, m', live - {ob})
    && ob.End() <= |m| && b.End() <= |m'| == |m| && n <= ob.size && n <= b.size
    && Payload(m', b) == Payload(m, ob)[..n] + Payload(m, b)[n..]
  }

  lemma OverlayPayload(m: seq<byte>, m': seq<byte>, b: Block, d: seq<byte>)
    requires b.End() <= |m| && |d| <= b.size && m' == Overlay(m, b.at + HEADER, d)
    ensures Payload(m', b) == d + Payload(m, b)[|d|..]
  {
    var p, q := Payload(m', b), Payload(m, b);
    assert forall k | 0 <= k < b.size :: p[k] == m'[b.at + HEADER + k] && q[k] == m[b.at + HEADER + k];
  }

  lemma CopiedOver(m0: seq<byte>, m1: seq<byte>, m2: seq<byte>, live: set<Block>, ob: Block, b: Block, n: nat)
    requires ob in live && b !in live && n <= ob.size && n <= b.size
    requires |m0| == |m1| == ARENA && b.End() <= ARENA && ob.End() <= ARENA
    requires PayloadsKept(m0, m1, live) && Payload(m1, b) == Payload(m0, b) && PayloadsKept(m1, m2, live + {b} - {b})
    requires m2 == Overlay(m1, b.at + HEADER, m1[ob.at + HEADER..ob.at + HEADER + n])
    ensures HasCopy(m0, m2, live, ob, b, n)
  {
    assert live + {b} - {b} == live;
    OverlayPayload(m1, m2, b, m1[ob.at + HEADER..ob.at + HEADER + n]);
    SliceOfSlice(m1, ob.at + HEADER, ob.End(), 0, n);
    assert Payload(m1, ob)[..n] == Payload(m1, ob)[0..n];
    assert Payload(m1, ob) == Payload(m0, ob);
  }

  lemma FreedOld(m0: seq<byte>, m2: seq<byte>, m3: seq<byte>, live: set<Block>, ob: Block, b: Block, n: nat)
    requires HasCopy(m0, m2, live, ob, b, n) && PayloadsKept(m2, m3, live + {b} - {ob}) && |m3| == ARENA
    ensures Moved(m0, m3, live, live + {b} - {ob}, ob, b, n)
  {
    assert PayloadsKept(m0, m3, live - {ob}) by {
      assert forall c | c in live - {ob} :: c in live && c in live + {b} - {ob};
    }
    assert b in live + {b} - {ob};
    assert Payload(m3, b) == Payload(m2, b);
  }

  lemma FreshKept(m: seq<byte>, m': seq<byte>, bs: seq<Block>, b: Block)
    requires PayloadsKept(m, m', Blocks(bs)) && b in Live(bs)
    ensures b.End() <= |m| && b.End() <= |m'| && Payload(m', b) == Payload(m, b)
  {
  }

  lemma SizesInArena(m: seq<byte>, bs: seq<Block>, a: Block, b: Block)
    requires Represents(m, bs) && a in Live(bs) && b in Live(bs)
    ensures |m| == ARENA && a.End() <= ARENA && b.End() <= ARENA
  {
    SpansLe(bs, 0, ARENA);
  }

  /** The pointer malloc returns. */
  function ServedPointer(bs: seq<Block>, request: u32): int {
    if request == 0 || FirstFit(bs, Rounded(request)) == |bs| then NULL
    else PayloadAddress(Granted(bs, Rounded(request)))
  }

  /** malloc returns NULL. */
  ghost predicate HeapFull(bs: seq<Block>, request: u32) {
    request == 0 || FirstFit(bs, Rounded(request)) == |bs|
  }

  ghost function NewBlock(bs: seq<Block>, request: u32): Block
    requires !HeapFull(bs, request)
  {
    Granted(bs, Rounded(request)).Extent()
  }

  /** What a caller of malloc gets. */
  lemma Served(m: seq<byte>, bs: seq<Block>, request: u32)
    requires Represents(m, bs) && request <= 0xFFFF_FFE0
    ensures HeapFull(bs, request) ==> Serve(bs, request) == bs && ServedPointer(bs, request) == NULL
    ensures !HeapFull(bs, request) ==>
              var b := NewBlock(bs, request);
              && ServedPointer(bs, request) == PayloadAddress(b) != NULL
              && Live(Serve(bs, request)) == Live(bs) + {b}
              && b !in Live(bs) && b.End() <= ARENA && request <= b.size
  {
    RoundedCovers(request);
    if HeapFull(bs, request) {
      if request > 0 { AllocateWithout(bs, Rounded(request)); }
    } else {
      AllocateEffect(bs, Rounded(request));
      MallocIsFirstFit(bs, request);
      assert NewBlock(bs, request) in Live(Serve(bs, request));
      SpansLe(Serve(bs, request), 0, ARENA);
    }
  }
}

/** The heap seen as a list of blocks: what malloc and free do to that list,
    and why the list is a function of the set of live blocks. */
module BlockList {
  import opened Bytes

  const ARENA: nat := 0x10_0000
  const HEADER: nat := 12
  const ALIGN: nat := 32

  /** at is the offset of the header, and size is what its size field says: the number of payload
      bytes after it. The slack is bytes behind these that the size field no longer covers; malloc
      and free leave none, but a store that goes astray can make the field smaller. */
  datatype Block = Block(at: nat, size: nat, free: bool, slack: nat := 0) {
    function End(): nat { at + HEADER + size + slack }

    /** The block with all bytes up to the next header. */
    function Extent(): Block { Block(at, size + slack, free) }
  }

  // ----- the shape of a heap

  /** bs covers [lo, hi) with no gap and no overlap. */
  ghost predicate Spans(bs: seq<Block>, lo: nat, hi: nat) {
    if bs == [] then lo == hi
    else bs[0].at == lo && Spans(bs[1..], bs[0].End(), hi)
  }

  ghost predicate NoFreeNeighbours(bs: seq<Block>) {
    |bs| >= 2 ==> !(bs[0].free && bs[1].free) && NoFreeNeighbours(bs[1..])
  }

  ghost predicate Tiles(bs: seq<Block>) {
    Spans(bs, 0, ARENA)
  }

  ghost predicate WellFormed(bs: seq<Block>) {
    Tiles(bs) && NoFreeNeighbours(bs)
  }

  /** The blocks in use, with all their bytes. */
  ghost function Live(bs: seq<Block>): set<Block> {
    set b | b in bs && !b.free :: b.Extent()
  }

  /** Every size field covers all bytes up to the next header. */
  ghost predicate Tight(bs: seq<Block>) {
    forall i | 0 <= i < |bs| :: bs[i].slack == 0
  }

  ghost function Extents(bs: seq<Block>): (r: seq<Block>)
    ensures |r| == |bs| && forall i | 0 <= i < |bs| :: r[i] == bs[i].Extent()
  {
    seq(|bs|, i requires 0 <= i < |bs| => bs[i].Extent())
  }

  lemma TightExtents(bs: seq<Block>)
    ensures Tight(Extents(bs)) && (Tight(bs) <==> Extents(bs) == bs)
  {
    if Extents(bs) == bs {
      forall i | 0 <= i < |bs| ensures bs[i].slack == 0 {
        assert Extents(bs)[i] == bs[i];
      }
    }
  }

  lemma {:induction false} SpansLe(bs: seq<Block>, lo: nat, hi: nat)
    requires Spans(bs, lo, hi)
    ensures lo <= hi
    ensures forall b | b in bs :: lo <= b.at && b.End() <= hi
  {
    if bs != [] {
      SpansLe(bs[1..], bs[0].End(), hi);
      assert forall b | b in bs :: b == bs[0] || b in bs[1..];
    }
  }

  /** Blocks later in the list lie strictly after earlier ones. */
  lemma {:induction false} SpansOrdered(bs: seq<Block>, lo: nat, hi: nat)
    requires Spans(bs, lo, hi)
    ensures forall i, j | 0 <= i < j < |bs| :: bs[i].End() <= bs[j].at
    ensures bs != [] ==> bs[0].at == lo && bs[|bs| - 1].End() == hi
  {
    if bs != [] {
      SpansOrdered(bs[1..], bs[0].End(), hi);
      SpansLe(bs[1..], bs[0].End(), hi);
      forall i, j | 0 <= i < j < |bs| ensures bs[i].End() <= bs[j].at {
        assert bs[j] == bs[1..][j - 1];
        if i > 0 { assert bs[i] == bs[1..][i - 1]; }
      }
    }
  }

  lemma {:induction false} SpansConcat(a: seq<Block>, b: seq<Block>, lo: nat, mid: nat, hi: nat)
    requires Spans(a, lo, mid) && Spans(b, mid, hi)
    ensures Spans(a + b, lo, hi)
  {
    if a == [] {
      assert a + b == b;
    } else {
      SpansConcat(a[1..], b, a[0].End(), mid, hi);
      assert (a + b)[1..] == a[1..] + b;
    }
  }

  lemma {:induction false} SpansSplit(bs: seq<Block>, i: nat, lo: nat, hi: nat)
    requires Spans(bs, lo, hi) && i < |bs|
    ensures Spans(bs[..i], lo, bs[i].at)
    ensures Spans(bs[i + 1..], bs[i].End(), hi)
    ensures bs == bs[..i] + [bs[i]] + bs[i + 1..]
  {
    if i > 0 {
      SpansSplit(bs[1..], i - 1, bs[0].End(), hi);
      assert bs[..i][1..] == bs[1..][..i - 1];
      assert bs[1..][i - 1 + 1..] == bs[i + 1..];
    }
  }

  lemma {:induction false} ExtentsSpan(bs: seq<Block>, lo: nat, hi: nat)
    requires Spans(bs, lo, hi)
    ensures Spans(Extents(bs), lo, hi)
  {
    if bs != [] {
      ExtentsSpan(bs[1..], bs[0].End(), hi);
      assert Extents(bs)[1..] == Extents(bs[1..]);
    }
  }

  lemma {:induction false} ExtentsNeighbours(bs: seq<Block>)
    requires NoFreeNeighbours(bs)
    ensures NoFreeNeighbours(Extents(bs))
  {
    if |bs| >= 2 {
      ExtentsNeighbours(bs[1..]);
      assert Extents(bs)[1..] == Extents(bs[1..]);
    }
  }

  lemma LiveAt(bs: seq<Block>, i: nat)
    requires i < |bs| && !bs[i].free
    ensures bs[i].Extent() in Live(bs)
  {
  }

  lemma LiveExtents(bs: seq<Block>)
    ensures Live(Extents(bs)) == Live(bs)
  {
    var es := Extents(bs);
    forall x | x in Live(bs) ensures x in Live(es) {
      var i :| 0 <= i < |bs| && !bs[i].free && bs[i].Extent() == x;
      LiveAt(es, i);
    }
    forall x | x in Live(es) ensures x in Live(bs) {
      var i :| 0 <= i < |es| && !es[i].free && es[i].Extent() == x;
      LiveAt(bs, i);
    }
  }

  // ----- the block list is a function of the live set

  /** Two ways of tiling the same range, without free neighbours and with the same live blocks,
      have their headers at the same places, and are the same list if no size field is short. */
  lemma Canonical(bs: seq<Block>, cs: seq<Block>, lo: nat, hi: nat)
    requires Spans(bs, lo, hi) && NoFreeNeighbours(bs)
    requires Spans(cs, lo, hi) && NoFreeNeighbours(cs)
    requires Live(bs) == Live(cs)
    ensures Extents(bs) == Extents(cs)
    ensures Tight(bs) && Tight(cs) ==> bs == cs
  {
    ExtentsSpan(bs, lo, hi);
    ExtentsSpan(cs, lo, hi);
    ExtentsNeighbours(bs);
    ExtentsNeighbours(cs);
    LiveExtents(bs);
    LiveExtents(cs);
    TightExtents(bs);
    TightExtents(cs);
    TightCanonical(Extents(bs), Extents(cs), lo, hi);
  }

  lemma {:induction false} TightCanonical(bs: seq<Block>, cs: seq<Block>, lo: nat, hi: nat)
    requires Spans(bs, lo, hi) && NoFreeNeighbours(bs) && Tight(bs)
    requires Spans(cs, lo, hi) && NoFreeNeighbours(cs) && Tight(cs)
    requires Live(bs) == Live(cs)
    ensures bs == cs
  {
    SpansLe(bs, lo, hi);
    SpansLe(cs, lo, hi);
    if bs != [] && cs != [] {
      HeadsAgree(bs, cs, lo, hi);
      LiveTail(bs, lo, hi);
      LiveTail(cs, lo, hi);
      TightCanonical(bs[1..], cs[1..], bs[0].End(), hi);
      assert bs == [bs[0]] + bs[1..] && cs == [cs[0]] + cs[1..];
    }
  }

  lemma TightLive(bs: seq<Block>)
    requires Tight(bs)
    ensures forall b | b in bs :: b.Extent() == b
    ensures Live(bs) == set b | b in bs && !b.free
  {
    forall b | b in bs ensures b.Extent() == b {
      var i :| 0 <= i < |bs| && bs[i] == b;
    }
    assert forall b | b in bs && !b.free :: b.Extent() in Live(bs);
  }

  lemma LiveTail(bs: seq<Block>, lo: nat, hi: nat)
    requires bs != [] && Spans(bs, lo, hi) && NoFreeNeighbours(bs) && Tight(bs)
    ensures Live(bs[1..]) == Live(bs) - {bs[0]}
    ensures NoFreeNeighbours(bs[1..]) && Tight(bs[1..])
  {
    SpansLe(bs[1..], bs[0].End(), hi);
    assert Tight(bs[1..]);
    TightLive(bs);
    TightLive(bs[1..]);
    assert bs[0] !in bs[1..];
    assert forall b | b in bs :: b == bs[0] || b in bs[1..];
  }

  lemma HeadsAgree(bs: seq<Block>, cs: seq<Block>, lo: nat, hi: nat)
    requires bs != [] && cs != []
    requires Spans(bs, lo, hi) && NoFreeNeighbours(bs)
    requires Spans(cs, lo, hi) && NoFreeNeighbours(cs)
    requires Live(bs) == Live(cs)
    requires Tight(bs) && Tight(cs)
    ensures bs[0] == cs[0]
  {
    if bs[0].free && cs[0].free {
      FreeHeadNotLonger(bs, cs, lo, hi);
      FreeHeadNotLonger(cs, bs, lo, hi);
    } else if !bs[0].free {
      UsedHeadShared(bs, cs, lo, hi);
    } else {
      UsedHeadShared(cs, bs, lo, hi);
    }
  }

  lemma UsedHeadShared(bs: seq<Block>, cs: seq<Block>, lo: nat, hi: nat)
    requires bs != [] && cs != [] && !bs[0].free
    requires Spans(bs, lo, hi) && Spans(cs, lo, hi) && Live(bs) == Live(cs)
    requires Tight(bs) && Tight(cs)
    ensures bs[0] == cs[0]
  {
    TightLive(bs);
    TightLive(cs);
    assert bs[0] in Live(bs);
    SpansOrdered(cs, lo, hi);
    var k :| 0 <= k < |cs| && cs[k] == bs[0];
  }

  lemma FreeHeadNotLonger(bs: seq<Block>, cs: seq<Block>, lo: nat, hi: nat)
    requires bs != [] && cs != [] && bs[0].free && cs[0].free
    requires Spans(bs, lo, hi) && NoFreeNeighbours(bs)
    requires Spans(cs, lo, hi) && Live(bs) == Live(cs)
    requires Tight(bs) && Tight(cs)
    ensures cs[0].size <= bs[0].size
  {
    TightLive(bs);
    TightLive(cs);
    SpansLe(cs, lo, hi);
    SpansOrdered(cs, lo, hi);
    if |bs| == 1 {
      assert bs[0].End() == hi;
    } else {
      assert bs[1].at == bs[0].End();
      assert bs[1] in Live(bs);
      var k :| 0 <= k < |cs| && cs[k] == bs[1];
    }
  }

  // ----- malloc

  predicate Fits(b: Block, n: nat) {
    b.free && b.size >= n
  }

  /** Index of the first block that can hold n bytes, or |bs|. */
  function FirstFit(bs: seq<Block>, n: nat): (i: nat)
    ensures i <= |bs|
    ensures forall j | 0 <= j < i :: !Fits(bs[j], n)
    ensures i < |bs| ==> Fits(bs[i], n)
  {
    if bs == [] || Fits(bs[0], n) then 0 else 1 + FirstFit(bs[1..], n)
  }

  /** The block malloc hands out from b, followed by what is left over when b is much larger. */
  function Carve(b: Block, n: nat): seq<Block>
    requires Fits(b, n)
  {
    if b.size > n + HEADER + ALIGN
    then [Block(b.at, n, false), Block(b.at + HEADER + n, b.size - n - HEADER, true, b.slack)]
    else [b.(free := false)]
  }

  function Allocate(bs: seq<Block>, n: nat): seq<Block> {
    if bs == [] then []
    else if Fits(bs[0], n) then Carve(bs[0], n) + bs[1..]
    else [bs[0]] + Allocate(bs[1..], n)
  }

  /** The block Allocate hands out. */
  function Granted(bs: seq<Block>, n: nat): Block
    requires FirstFit(bs, n) < |bs|
  {
    Carve(bs[FirstFit(bs, n)], n)[0]
  }

  lemma {:induction false} AllocateWithout(bs: seq<Block>, n: nat)
    requires FirstFit(bs, n) == |bs|
    ensures Allocate(bs, n) == bs
  {
    if bs != [] {
      AllocateWithout(bs[1..], n);
      assert bs == [bs[0]] + bs[1..];
    }
  }

  lemma {:induction false} AllocateSpans(bs: seq<Block>, n: nat, lo: nat, hi: nat)
    requires Spans(bs, lo, hi)
    ensures Spans(Allocate(bs, n), lo, hi)
  {
    if bs != [] {
      if Fits(bs[0], n) {
        var c := Carve(bs[0], n);
        assert Spans(c, lo, bs[0].End()) by {
          assert c[1..] == if |c| == 2 then [c[1]] else [];
          if |c| == 2 { assert c[1..][1..] == []; }
        }
        SpansConcat(c, bs[1..], lo, bs[0].End(), hi);
      } else {
        AllocateSpans(bs[1..], n, bs[0].End(), hi);
        assert Allocate(bs, n)[1..] == Allocate(bs[1..], n);
      }
    }
  }

  lemma {:induction false} AllocateNeighbours(bs: seq<Block>, n: nat)
    requires NoFreeNeighbours(bs)
    ensures NoFreeNeighbours(Allocate(bs, n))
    ensures bs != [] ==> Allocate(bs, n) != [] && (Allocate(bs, n)[0].free ==> bs[0].free)
  {
    if bs != [] {
      var r := Allocate(bs, n);
      if Fits(bs[0], n) {
        var c := Carve(bs[0], n);
        if |c| == 2 {
          assert r[1..] == [c[1]] + bs[1..];
          assert r[1..][1..] == bs[1..];
        } else {
          assert r[1..] == bs[1..];
        }
      } else {
        AllocateNeighbours(bs[1..], n);
        assert r[1..] == Allocate(bs[1..], n);
      }
    }
  }

  lemma CarvedLive(b: Block, n: nat)
    requires Fits(b, n)
    ensures Live([b]) == {} && Live(Carve(b, n)) == {Carve(b, n)[0].Extent()}
  {
    var c := Carve(b, n);
    assert c[0] in c;
  }

  lemma {:induction false} AllocateLive(bs: seq<Block>, n: nat)
    requires FirstFit(bs, n) < |bs|
    ensures Live(Allocate(bs, n)) == Live(bs) + {Granted(bs, n).Extent()}
  {
    hide Live, Carve;
    assert bs == [bs[0]] + bs[1..];
    LiveConcat([bs[0]], bs[1..]);
    if Fits(bs[0], n) {
      CarvedLive(bs[0], n);
      LiveConcat(Carve(bs[0], n), bs[1..]);
    } else {
      AllocateLive(bs[1..], n);
      LiveConcat([bs[0]], Allocate(bs[1..], n));
    }
  }

  lemma GrantedIsNew(bs: seq<Block>, n: nat)
    requires Tiles(bs) && FirstFit(bs, n) < |bs|
    ensures Granted(bs, n).Extent() !in Live(bs)
  {
    var i := FirstFit(bs, n);
    if Granted(bs, n).Extent() in Live(bs) {
      var c :| c in bs && !c.free && c.Extent() == Granted(bs, n).Extent();
      SameOffsetSameBlock(bs, bs[i], c);
    }
  }

  /** Allocation keeps the heap well formed and adds exactly the granted block to the live set. */
  lemma AllocateEffect(bs: seq<Block>, n: nat)
    requires WellFormed(bs) && FirstFit(bs, n) < |bs|
    ensures WellFormed(Allocate(bs, n))
    ensures Granted(bs, n).Extent() !in Live(bs)
    ensures Live(Allocate(bs, n)) == Live(bs) + {Granted(bs, n).Extent()}
  {
    AllocateSpans(bs, n, 0, ARENA);
    AllocateNeighbours(bs, n);
    AllocateLive(bs, n);
    GrantedIsNew(bs, n);
  }

  lemma LiveMiddle(a: seq<Block>, b: seq<Block>, c: seq<Block>)
    ensures Live(a + b + c) == Live(a) + Live(b) + Live(c)
  {
    LiveConcat(a, b);
    LiveConcat(a + b, c);
  }

  lemma LiveConcat(a: seq<Block>, b: seq<Block>)
    ensures Live(a + b) == Live(a) + Live(b)
  {
  }

  /** The byte count malloc looks for: 32-bit arithmetic, rounded up to whole units of 32. */
  function Rounded(request: u32): (n: u32)
    ensures n % ALIGN == 0
  {
    var sum := (request + ALIGN - 1) % TWO32;
    sum - sum % ALIGN
  }

  /** What a request does to the block list. */
  function Serve(bs: seq<Block>, request: u32): seq<Block> {
    if request == 0 then bs else Allocate(bs, Rounded(request))
  }

  lemma ServeWellFormed(bs: seq<Block>, request: u32)
    requires WellFormed(bs)
    ensures WellFormed(Serve(bs, request))
    ensures Live(bs) <= Live(Serve(bs, request))
  {
    var n := Rounded(request);
    if FirstFit(bs, n) < |bs| { AllocateEffect(bs, n); } else { AllocateWithout(bs, n); }
  }

  /** The addition wraps for the 31 largest requests; every other request is rounded to the
      least multiple of 32 that is not below it. */
  lemma RoundedCovers(request: u32)
    ensures request <= Rounded(request) <==> request <= 0xFFFF_FFE0
    ensures request <= 0xFFFF_FFE0 ==> Rounded(request) < request + ALIGN
    ensures request > 0xFFFF_FFE0 ==> Rounded(request) == 0
  {
  }

  /** malloc fails exactly when no free block is large enough; otherwise it uses the free block
      with the lowest address that is, and wastes at most 44 bytes beyond rounding. */
  lemma MallocIsFirstFit(bs: seq<Block>, request: u32)
    requires WellFormed(bs) && 0 < request <= 0xFFFF_FFE0
    ensures FirstFit(bs, Rounded(request)) == |bs| <==> forall b | b in bs :: b.free ==> b.size < Rounded(request)
    ensures FirstFit(bs, Rounded(request)) < |bs| ==>
              var g := Granted(bs, Rounded(request));
              && request <= Rounded(request) <= g.size <= Rounded(request) + HEADER + ALIGN
              && (exists b | b in bs :: b.free && b.at == g.at)
              && forall b | b in bs && b.free && b.size >= Rounded(request) :: g.at <= b.at
  {
    RoundedCovers(request);
    NoneFits(bs, Rounded(request));
    if FirstFit(bs, Rounded(request)) < |bs| { LowestFits(bs, Rounded(request)); }
    hide FirstFit, Rounded, Granted;
  }

  lemma NoneFits(bs: seq<Block>, n: nat)
    ensures FirstFit(bs, n) == |bs| <==> forall b | b in bs :: b.free ==> b.size < n
  {
    var i := FirstFit(bs, n);
    if i < |bs| { assert bs[i] in bs; }
    hide FirstFit;
  }

  lemma LowestFits(bs: seq<Block>, n: nat)
    requires Tiles(bs) && FirstFit(bs, n) < |bs|
    ensures var g := Granted(bs, n);
            && n <= g.size <= n + HEADER + ALIGN && (exists b | b in bs :: b.free && b.at == g.at)
            && forall b | b in bs && b.free && b.size >= n :: g.at <= b.at
  {
    SpansOrdered(bs, 0, ARENA);
    var i := FirstFit(bs, n);
    hide FirstFit, Tiles;
    assert bs[i] in bs && bs[i].free && bs[i].at == Granted(bs, n).at;
  }

  // ----- block sizes

  ghost predicate GoodSizes(bs: seq<Block>) {
    forall i | 0 <= i < |bs| :: bs[i].size >= ALIGN && bs[i].size % 4 == 0
  }

  lemma {:induction false} AllocateGoodSizes(bs: seq<Block>, n: nat)
    requires GoodSizes(bs) && n > 0 && n % ALIGN == 0
    ensures GoodSizes(Allocate(bs, n))
  {
    if bs != [] {
      assert bs[0] in bs;
      if Fits(bs[0], n) {
        var c := Carve(bs[0], n);
        assert GoodSizes(c);
        GoodSizesConcat(c, bs[1..]);
      } else {
        AllocateGoodSizes(bs[1..], n);
        GoodSizesConcat([bs[0]], Allocate(bs[1..], n));
      }
    }
  }

  lemma GoodSizesConcat(a: seq<Block>, b: seq<Block>)
    requires GoodSizes(a) && GoodSizes(b)
    ensures GoodSizes(a + b)
  {
  }

  lemma GoodSizesTail(b: Block, bs: seq<Block>)
    requires GoodSizes([b])
    ensures GoodSizes([b] + bs) <==> GoodSizes(bs)
  {
    if GoodSizes([b] + bs) {
      assert forall i | 0 <= i < |bs| :: ([b] + bs)[i + 1] == bs[i];
    } else {
      assert [b][0] == b;
    }
  }

  /** Asking for no bytes at all splits the first free block right at its start, unless that is
      too small to be split. */
  lemma {:induction false} AllocateNothing(bs: seq<Block>)
    requires GoodSizes(bs)
    ensures GoodSizes(Allocate(bs, 0)) <==> FirstFit(bs, 0) == |bs| || bs[FirstFit(bs, 0)].size <= HEADER + ALIGN
  {
    if bs != [] {
      if Fits(bs[0], 0) {
        var c := Carve(bs[0], 0);
        if |c| == 2 {
          assert Allocate(bs, 0)[0] == c[0];
        } else {
          GoodSizesConcat(c, bs[1..]);
        }
      } else {
        assert GoodSizes([bs[0]]) && GoodSizes(bs[1..]);
        AllocateNothing(bs[1..]);
        GoodSizesTail(bs[0], Allocate(bs[1..], 0));
      }
    }
  }

  /** The request is served without an empty block: it does not wrap, or there is no free block,
      or the first one is too small to be split. */
  predicate KeepsSizes(bs: seq<Block>, request: u32) {
    request <= 0xFFFF_FFE0 || FirstFit(bs, 0) == |bs| || bs[FirstFit(bs, 0)].size <= HEADER + ALIGN
  }

  /** Exactly those requests keep every block at 32 bytes or more. */
  lemma ServeGoodSizes(bs: seq<Block>, request: u32)
    requires GoodSizes(bs)
    ensures GoodSizes(Serve(bs, request)) <==> KeepsSizes(bs, request)
  {
    RoundedCovers(request);
    if request > 0xFFFF_FFE0 {
      AllocateNothing(bs);
    } else if request > 0 {
      AllocateGoodSizes(bs, Rounded(request));
    }
  }

  /** On the heap as it is at boot a request in the wrapping range is given a block of no bytes. */
  lemma WrappedRequestIsEmpty(request: u32)
    requires request > 0xFFFF_FFE0
    ensures Granted(INITIAL_BLOCKS, Rounded(request)) == Block(0, 0, false)
    ensures GoodSizes(INITIAL_BLOCKS) && !GoodSizes(Serve(INITIAL_BLOCKS, request))
  {
    RoundedCovers(request);
    ServeGoodSizes(INITIAL_BLOCKS, request);
  }

  // ----- free

  function MarkFree(bs: seq<Block>, at: nat): (r: seq<Block>)
    ensures |r| == |bs|
    ensures forall i | 0 <= i < |bs| :: r[i] == if bs[i].at == at then bs[i].(free := true) else bs[i]
  {
    if bs == [] then []
    else [if bs[0].at == at then bs[0].(free := true) else bs[0]] + MarkFree(bs[1..], at)
  }

  function Join(a: Block, b: Block): Block {
    Block(a.at, a.size + b.size + HEADER, true, a.slack + b.slack)
  }

  /** One pass over the list that absorbs every free block into a free predecessor. */
  function Coalesce(bs: seq<Block>): seq<Block>
    decreases |bs|
  {
    if |bs| < 2 then bs
    else if bs[0].free && bs[1].free then Coalesce([Join(bs[0], bs[1])] + bs[2..])
    else [bs[0]] + Coalesce(bs[1..])
  }

  function Release(bs: seq<Block>, at: nat): seq<Block> {
    Coalesce(MarkFree(bs, at))
  }

  /** Coalescing covers the same range with the same live blocks and leaves no free neighbours. */
  lemma {:induction false} CoalesceEffect(bs: seq<Block>, lo: nat, hi: nat)
    requires Spans(bs, lo, hi)
    ensures Spans(Coalesce(bs), lo, hi)
    ensures Live(Coalesce(bs)) == Live(bs)
    ensures NoFreeNeighbours(Coalesce(bs))
    ensures bs != [] ==> Coalesce(bs) != [] && (Coalesce(bs)[0].free <==> bs[0].free)
    decreases |bs|
  {
    if |bs| >= 2 {
      if bs[0].free && bs[1].free {
        var cs := [Join(bs[0], bs[1])] + bs[2..];
        assert bs[1..][1..] == bs[2..] == cs[1..];
        CoalesceEffect(cs, lo, hi);
        LiveConcat([Join(bs[0], bs[1])], bs[2..]);
        assert bs == [bs[0], bs[1]] + bs[2..];
        LiveConcat([bs[0], bs[1]], bs[2..]);
      } else {
        var t := Coalesce(bs[1..]);
        CoalesceEffect(bs[1..], bs[0].End(), hi);
        assert ([bs[0]] + t)[1..] == t;
        LiveConcat([bs[0]], t);
        assert bs == [bs[0]] + bs[1..];
        LiveConcat([bs[0]], bs[1..]);
      }
    }
  }

  lemma {:induction false} CoalesceGoodSizes(bs: seq<Block>)
    requires GoodSizes(bs)
    ensures GoodSizes(Coalesce(bs))
    decreases |bs|
  {
    if |bs| >= 2 {
      if bs[0].free && bs[1].free {
        GoodSizesConcat([Join(bs[0], bs[1])], bs[2..]);
        CoalesceGoodSizes([Join(bs[0], bs[1])] + bs[2..]);
      } else {
        CoalesceGoodSizes(bs[1..]);
        GoodSizesConcat([bs[0]], Coalesce(bs[1..]));
      }
    }
  }

  lemma {:induction false} MarkFreeGoodSizes(bs: seq<Block>, at: nat)
    requires GoodSizes(bs)
    ensures GoodSizes(MarkFree(bs, at))
  {
    if bs != [] {
      assert bs[0] in bs;
      MarkFreeGoodSizes(bs[1..], at);
      GoodSizesConcat([MarkFree(bs, at)[0]], MarkFree(bs[1..], at));
    }
  }

  lemma {:induction false} MarkFreeSpans(bs: seq<Block>, at: nat, lo: nat, hi: nat)
    requires Spans(bs, lo, hi)
    ensures Spans(MarkFree(bs, at), lo, hi)
  {
    if bs != [] {
      MarkFreeSpans(bs[1..], at, bs[0].End(), hi);
      assert MarkFree(bs, at)[1..] == MarkFree(bs[1..], at);
    }
  }

  lemma {:induction false} MarkFreeLive(bs: seq<Block>, at: nat)
    ensures Live(MarkFree(bs, at)) == set c | c in Live(bs) && c.at != at
  {
    if bs != [] {
      var h := MarkFree(bs, at)[0];
      MarkFreeLive(bs[1..], at);
      LiveConcat([h], MarkFree(bs[1..], at));
      LiveConcat([bs[0]], bs[1..]);
      assert bs == [bs[0]] + bs[1..];
    }
  }

  lemma SameOffsetSameBlock(bs: seq<Block>, b: Block, c: Block)
    requires Tiles(bs) && b in bs && c in bs && b.at == c.at
    ensures b == c
  {
    SpansOrdered(bs, 0, ARENA);
    var i :| 0 <= i < |bs| && bs[i] == b;
    var j :| 0 <= j < |bs| && bs[j] == c;
  }

  /** Freeing a live block removes exactly that block from the live set. */
  lemma ReleaseEffect(bs: seq<Block>, b: Block)
    requires WellFormed(bs) && b in Live(bs)
    ensures WellFormed(Release(bs, b.at))
    ensures Live(Release(bs, b.at)) == Live(bs) - {b}
  {
    MarkFreeSpans(bs, b.at, 0, ARENA);
    CoalesceEffect(MarkFree(bs, b.at), 0, ARENA);
    MarkFreeLive(bs, b.at);
    forall c | c in Live(bs) && c.at == b.at ensures c == b {
      SameLive(bs, b, c);
    }
  }

  lemma SameLive(bs: seq<Block>, b: Block, c: Block)
    requires Tiles(bs) && b in Live(bs) && c in Live(bs) && b.at == c.at
    ensures b == c
  {
    var x :| x in bs && !x.free && x.Extent() == b;
    var y :| y in bs && !y.free && y.Extent() == c;
    SameOffsetSameBlock(bs, x, y);
  }

  // ----- bytes that are lost

  /** All bytes that no size field covers. */
  ghost function Lost(bs: seq<Block>): nat {
    if bs == [] then 0 else bs[0].slack + Lost(bs[1..])
  }

  lemma {:induction false} LostTight(bs: seq<Block>)
    ensures Lost(bs) == 0 <==> Tight(bs)
  {
    if bs != [] {
      LostTight(bs[1..]);
      assert Tight(bs) <==> bs[0].slack == 0 && Tight(bs[1..]) by {
        assert forall i | 0 <= i < |bs| - 1 :: bs[1..][i] == bs[i + 1];
      }
    }
  }

  lemma {:induction false} LostConcat(a: seq<Block>, b: seq<Block>)
    ensures Lost(a + b) == Lost(a) + Lost(b)
  {
    if a == [] {
      assert a + b == b;
    } else {
      assert (a + b)[1..] == a[1..] + b;
      LostConcat(a[1..], b);
    }
  }

  /** malloc neither loses bytes nor finds any again. */
  lemma {:induction false} LostAllocate(bs: seq<Block>, n: nat)
    ensures Lost(Allocate(bs, n)) == Lost(bs)
  {
    if bs != [] {
      if Fits(bs[0], n) {
        var c := Carve(bs[0], n);
        LostConcat(c, bs[1..]);
        assert c[1..] == if |c| == 2 then [c[1]] else [];
        assert |c| == 2 ==> c[1..][1..] == [];
      } else {
        LostAllocate(bs[1..], n);
        assert Allocate(bs, n)[1..] == Allocate(bs[1..], n);
      }
    }
  }

  lemma {:induction false} LostCoalesce(bs: seq<Block>)
    ensures Lost(Coalesce(bs)) == Lost(bs)
    decreases |bs|
  {
    if |bs| >= 2 {
      if bs[0].free && bs[1].free {
        var j := Join(bs[0], bs[1]);
        LostCoalesce([j] + bs[2..]);
        assert ([j] + bs[2..])[1..] == bs[1..][1..] == bs[2..];
      } else {
        LostCoalesce(bs[1..]);
        assert ([bs[0]] + Coalesce(bs[1..]))[1..] == Coalesce(bs[1..]);
      }
    }
  }

  lemma {:induction false} LostMarkFree(bs: seq<Block>, at: nat)
    ensures Lost(MarkFree(bs, at)) == Lost(bs)
  {
    if bs != [] {
      LostMarkFree(bs[1..], at);
      assert MarkFree(bs, at)[1..] == MarkFree(bs[1..], at);
    }
  }

  /** Neither does free. */
  lemma LostRelease(bs: seq<Block>, at: nat)
    ensures Lost(Release(bs, at)) == Lost(bs)
  {
    LostMarkFree(bs, at);
    LostCoalesce(MarkFree(bs, at));
  }

  /** The block list after a zero byte has been stored where the header at offset at begins: the
      low byte of its size is gone. */
  function Nicked(bs: seq<Block>, at: nat): (r: seq<Block>)
    ensures |r| == |bs|
    ensures forall i | 0 <= i < |bs| :: r[i] == if bs[i].at == at then Nick(bs[i]) else bs[i]
  {
    if bs == [] then []
    else [if bs[0].at == at then Nick(bs[0]) else bs[0]] + Nicked(bs[1..], at)
  }

  function Nick(b: Block): (r: Block)
    ensures r.End() == b.End() && r.Extent() == b.Extent()
  {
    b.(size := b.size - b.size % 0x100, slack := b.slack + b.size % 0x100)
  }

  lemma {:induction false} NickedSpans(bs: seq<Block>, at: nat, lo: nat, hi: nat)
    requires Spans(bs, lo, hi)
    ensures Spans(Nicked(bs, at), lo, hi)
  {
    if bs != [] {
      NickedSpans(bs[1..], at, bs[0].End(), hi);
      assert Nicked(bs, at)[1..] == Nicked(bs[1..], at);
    }
  }

  lemma {:induction false} NickedNeighbours(bs: seq<Block>, at: nat)
    requires NoFreeNeighbours(bs)
    ensures NoFreeNeighbours(Nicked(bs, at))
  {
    if |bs| >= 2 {
      NickedNeighbours(bs[1..], at);
      assert Nicked(bs, at)[1..] == Nicked(bs[1..], at);
    }
  }

  /** Nobody's block is touched; only bytes are lost, as many as the low byte said. */
  lemma NickedEffect(bs: seq<Block>, at: nat)
    requires WellFormed(bs)
    ensures WellFormed(Nicked(bs, at)) && Extents(Nicked(bs, at)) == Extents(bs) && Live(Nicked(bs, at)) == Live(bs)
    ensures Nicked(bs, at) == bs <==> forall b | b in bs && b.at == at :: b.size % 0x100 == 0
    ensures Lost(Nicked(bs, at)) >= Lost(bs)
    ensures forall b | b in bs && b.at == at :: Lost(Nicked(bs, at)) == Lost(bs) + b.size % 0x100
  {
    NickedExtents(bs, at);
    NickedSame(bs, at);
    hide Nicked, Live, Extents, Lost;
    NickedSpans(bs, at, 0, ARENA);
    NickedNeighbours(bs, at);
    LiveExtents(bs);
    LiveExtents(Nicked(bs, at));
    NickedLost(bs, at, 0, ARENA);
  }

  lemma NickedExtents(bs: seq<Block>, at: nat)
    ensures Extents(Nicked(bs, at)) == Extents(bs)
  {
  }

  lemma NickSame(b: Block)
    ensures Nick(b) == b <==> b.size % 0x100 == 0
  {
  }

  lemma NickedSame(bs: seq<Block>, at: nat)
    ensures Nicked(bs, at) == bs <==> forall b | b in bs && b.at == at :: b.size % 0x100 == 0
  {
    hide Nick;
    var cs := Nicked(bs, at);
    if cs == bs {
      forall b | b in bs && b.at == at ensures b.size % 0x100 == 0 {
        var i :| 0 <= i < |bs| && bs[i] == b;
        assert cs[i] == Nick(b);
        NickSame(b);
      }
    } else {
      var i :| 0 <= i < |bs| && cs[i] != bs[i];
      assert bs[i] in bs && bs[i].at == at;
      NickSame(bs[i]);
    }
  }

  lemma {:induction false} NickedLost(bs: seq<Block>, at: nat, lo: nat, hi: nat)
    requires Spans(bs, lo, hi)
    ensures Lost(Nicked(bs, at)) >= Lost(bs) && (at < lo ==> Lost(Nicked(bs, at)) == Lost(bs))
    ensures forall b | b in bs && b.at == at :: Lost(Nicked(bs, at)) == Lost(bs) + b.size % 0x100
  {
    if bs != [] {
      NickedLost(bs[1..], at, bs[0].End(), hi);
      assert Nicked(bs, at)[1..] == Nicked(bs[1..], at);
      SpansLe(bs[1..], bs[0].End(), hi);
    }
  }

  // ----- what this says about whole runs

  const INITIAL_BLOCKS: seq<Block> := [Block(0, ARENA - HEADER, true)]

  lemma InitialWellFormed()
    ensures WellFormed(INITIAL_BLOCKS) && Live(INITIAL_BLOCKS) == {}
  {
    assert INITIAL_BLOCKS[1..] == [];
  }

  /** free undoes malloc. */
  lemma FreeUndoesMalloc(bs: seq<Block>, n: nat)
    requires WellFormed(bs) && FirstFit(bs, n) < |bs|
    ensures var r := Release(Allocate(bs, n), Granted(bs, n).at);
            Extents(r) == Extents(bs) && Lost(r) == Lost(bs) && (Tight(bs) ==> r == bs)
  {
    AllocateEffect(bs, n);
    var r := Release(Allocate(bs, n), Granted(bs, n).at);
    ReleaseEffect(Allocate(bs, n), Granted(bs, n).Extent());
    LostAllocate(bs, n);
    LostRelease(Allocate(bs, n), Granted(bs, n).at);
    LostTight(bs);
    LostTight(r);
    Canonical(r, bs, 0, ARENA);
  }

  /** The order of two frees does not matter. */
  lemma FreesCommute(bs: seq<Block>, a: Block, b: Block)
    requires WellFormed(bs) && a in Live(bs) && b in Live(bs) && a != b
    ensures var r, t := Release(Release(bs, a.at), b.at), Release(Release(bs, b.at), a.at);
            Extents(r) == Extents(t) && Lost(r) == Lost(t) && (Tight(bs) ==> r == t)
  {
    ReleaseEffect(bs, a);
    ReleaseEffect(bs, b);
    ReleaseEffect(Release(bs, a.at), b);
    ReleaseEffect(Release(bs, b.at), a);
    LostRelease(bs, a.at);
    LostRelease(bs, b.at);
    LostRelease(Release(bs, a.at), b.at);
    LostRelease(Release(bs, b.at), a.at);
    LostTight(bs);
    LostTight(Release(Release(bs, a.at), b.at));
    LostTight(Release(Release(bs, b.at), a.at));
    Canonical(Release(Release(bs, a.at), b.at), Release(Release(bs, b.at), a.at), 0, ARENA);
  }

  datatype Op = Malloc(request: u32) | Free(b: Block)

  function Step(bs: seq<Block>, op: Op): seq<Block> {
    match op
    case Malloc(request) => Serve(bs, request)
    case Free(b) => Release(bs, b.at)
  }

  function Run(bs: seq<Block>, ops: seq<Op>): seq<Block>
    decreases ops
  {
    if ops == [] then bs else Run(Step(bs, ops[0]), ops[1..])
  }

  /** Every free in the run is given a block that is live at that moment. */
  ghost predicate FreesLive(bs: seq<Block>, ops: seq<Op>)
    decreases ops
  {
    ops != [] ==>
      && (ops[0].Free? ==> ops[0].b in Live(bs))
      && FreesLive(Step(bs, ops[0]), ops[1..])
  }

  lemma {:induction false} RunWellFormed(bs: seq<Block>, ops: seq<Op>)
    requires WellFormed(bs) && FreesLive(bs, ops)
    ensures WellFormed(Run(bs, ops))
    decreases ops
  {
    if ops != [] {
      match ops[0] {
        case Malloc(request) => ServeWellFormed(bs, request);
        case Free(b) => ReleaseEffect(bs, b);
      }
      RunWellFormed(Step(bs, ops[0]), ops[1..]);
    }
  }

  /** No run of mallocs and frees loses bytes or finds lost ones again. */
  lemma {:induction false} LostForGood(bs: seq<Block>, ops: seq<Op>)
    ensures Lost(Run(bs, ops)) == Lost(bs)
    decreases ops
  {
    if ops != [] {
      match ops[0] {
        case Malloc(request) => LostAllocate(bs, Rounded(request));
        case Free(b) => LostRelease(bs, b.at);
      }
      LostForGood(Step(bs, ops[0]), ops[1..]);
    }
  }

  /** So when everything has been freed, they are missing from the one block that is left. */
  lemma AllFreed(bs: seq<Block>, ops: seq<Op>)
    requires WellFormed(bs) && FreesLive(bs, ops) && Live(Run(bs, ops)) == {}
    ensures Lost(bs) <= ARENA - HEADER && Run(bs, ops) == [Block(0, ARENA - HEADER - Lost(bs), true, Lost(bs))]
  {
    var r := Run(bs, ops);
    RunWellFormed(bs, ops);
    LostForGood(bs, ops);
    InitialWellFormed();
    Canonical(r, INITIAL_BLOCKS, 0, ARENA);
    assert Extents(r)[0] == r[0].Extent() && INITIAL_BLOCKS[0].Extent() == INITIAL_BLOCKS[0];
    assert r[1..] == [] && Lost(r) == r[0].slack;
  }

  /** Whatever the history, two heaps with the same live blocks have the same block list. */
  lemma HistoryDoesNotMatter(ops: seq<Op>, ops': seq<Op>)
    requires FreesLive(INITIAL_BLOCKS, ops) && FreesLive(INITIAL_BLOCKS, ops')
    requires Live(Run(INITIAL_BLOCKS, ops)) == Live(Run(INITIAL_BLOCKS, ops'))
    ensures Run(INITIAL_BLOCKS, ops) == Run(INITIAL_BLOCKS, ops')
  {
    InitialWellFormed();
    RunWellFormed(INITIAL_BLOCKS, ops);
    RunWellFormed(INITIAL_BLOCKS, ops');
    LostForGood(INITIAL_BLOCKS, ops);
    LostForGood(INITIAL_BLOCKS, ops');
    LostTight(INITIAL_BLOCKS);
    LostTight(Run(INITIAL_BLOCKS, ops));
    LostTight(Run(INITIAL_BLOCKS, ops'));
    Canonical(Run(INITIAL_BLOCKS, ops), Run(INITIAL_BLOCKS, ops'), 0, ARENA);
  }

  /** A run that has freed everything is back at the single initial block. */
  lemma AllFreedIsInitial(ops: seq<Op>)
    requires FreesLive(INITIAL_BLOCKS, ops) && Live(Run(INITIAL_BLOCKS, ops)) == {}
    ensures Run(INITIAL_BLOCKS, ops) == INITIAL_BLOCKS
  {
    InitialWellFormed();
    HistoryDoesNotMatter(ops, []);
  }

  /** After each step of the run every block has at least 32 bytes and a size that is a multiple
      of 4. */
  ghost predicate AlwaysGood(bs: seq<Block>, ops: seq<Op>)
    decreases ops
  {
    ops != [] ==> GoodSizes(Step(bs, ops[0])) && AlwaysGood(Step(bs, ops[0]), ops[1..])
  }

  /** No request of the run is in the wrapping range at a moment when it would be given an empty
      block. */
  ghost predicate NoEmptyBlocks(bs: seq<Block>, ops: seq<Op>)
    decreases ops
  {
    ops != [] ==>
      && (ops[0].Malloc? ==> KeepsSizes(bs, ops[0].request))
      && NoEmptyBlocks(Step(bs, ops[0]), ops[1..])
  }

  /** Block sizes stay good through a run exactly when no request is given an empty block. */
  lemma {:induction false} RunGoodSizes(bs: seq<Block>, ops: seq<Op>)
    requires GoodSizes(bs)
    ensures AlwaysGood(bs, ops) <==> NoEmptyBlocks(bs, ops)
    ensures NoEmptyBlocks(bs, ops) ==> GoodSizes(Run(bs, ops))
    decreases ops
  {
    if ops != [] {
      var t := Step(bs, ops[0]);
      match ops[0] {
        case Malloc(request) =>
          ServeGoodSizes(bs, request);
        case Free(b) =>
          MarkFreeGoodSizes(bs, b.at);
          CoalesceGoodSizes(MarkFree(bs, b.at));
      }
      if GoodSizes(t) { RunGoodSizes(t, ops[1..]); }
    }
  }

  /** So they do in every run whose requests do not wrap. */
  lemma {:induction false} SmallRequests(bs: seq<Block>, ops: seq<Op>)
    requires forall op | op in ops && op.Malloc? :: op.request <= 0xFFFF_FFE0
    ensures NoEmptyBlocks(bs, ops)
    decreases ops
  {
    if ops != [] {
      assert ops[0] in ops;
      SmallRequests(Step(bs, ops[0]), ops[1..]);
    }
  }
}

/** Whole runs of malloc and free on the heap itself. */
module HeapRuns {
  import opened Bytes
  import opened BlockList
  import opened KernelHeap

  /** The blocks that a run gives back. */
  ghost function Freed(ops: seq<Op>): set<Block> {
    if ops == [] then {} else (if ops[0].Free? then {ops[0].b} else {}) + Freed(ops[1..])
  }

  /** What is left of a run and of the blocks it has spared so far. */
  ghost predicate Spared(m0: seq<byte>, m: seq<byte>, spared: set<Block>, bs: seq<Block>, ops: seq<Op>) {
    FreesLive(bs, ops) && spared <= Live(bs) && PayloadsKept(m0, m, spared)
  }

  lemma StepSpares(m0: seq<byte>, m: seq<byte>, m': seq<byte>, spared: set<Block>, bs: seq<Block>, ops: seq<Op>)
    requires Represents(m, bs) && Spared(m0, m, spared, bs, ops) && ops != []
    requires PayloadsKept(m, m', if ops[0].Free? then Live(bs) - {ops[0].b} else Live(bs))
    ensures Spared(m0, m', spared - (if ops[0].Free? then {ops[0].b} else {}), Step(bs, ops[0]), ops[1..])
  {
    var spared' := spared - if ops[0].Free? then {ops[0].b} else {};
    assert PayloadsKept(m0, m', spared');
    match ops[0] {
      case Malloc(request) => MallocKeepsLive(m, bs, request);
      case Free(b) => ReleaseEffect(bs, b);
    }
    hide PayloadsKept, Represents;
  }

  lemma MallocKeepsLive(m: seq<byte>, bs: seq<Block>, request: u32)
    requires Represents(m, bs)
    ensures Live(bs) <= Live(Serve(bs, request))
  {
    if request > 0 {
      hide Live;
      if FirstFit(bs, Rounded(request)) < |bs| {
        AllocateEffect(bs, Rounded(request));
      } else {
        AllocateWithout(bs, Rounded(request));
      }
    }
  }

  lemma Starts(m: seq<byte>, bs: seq<Block>, ops: seq<Op>)
    requires Represents(m, bs) && FreesLive(bs, ops)
    ensures Spared(m, m, Live(bs), bs, ops)
  {
    KeptReflexive(m, bs, Live(bs));
    hide PayloadsKept, Represents, Live;
  }

  /** The next operation: what it needs, and what comes after it. */
  lemma NextOp(m0: seq<byte>, m: seq<byte>, spared: set<Block>, bs: seq<Block>, ops: seq<Op>)
    requires Represents(m, bs) && Spared(m0, m, spared, bs, ops) && ops != []
    ensures ops[0].Free? ==> ops[0].b in Live(bs) && 0 < PayloadAddress(ops[0].b) < TWO32
    ensures Run(bs, ops) == Run(Step(bs, ops[0]), ops[1..])
    ensures Freed(ops) == (if ops[0].Free? then {ops[0].b} else {}) + Freed(ops[1..])
  {
    if ops[0].Free? {
      SpansLe(bs, 0, ARENA);
      hide PayloadsKept, HeaderOk;
    }
  }

  lemma Ends(m0: seq<byte>, m: seq<byte>, spared: set<Block>, bs: seq<Block>, ops: seq<Op>)
    requires Spared(m0, m, spared, bs, ops) && ops == []
    ensures PayloadsKept(m0, m, spared) && Run(bs, ops) == bs && Freed(ops) == {}
  {
    hide PayloadsKept, Live;
  }

  /** One operation on memory. */
  method Perform(heap: Heap, op: Op)
    requires heap.Valid() && heap.initialized
    requires op.Free? ==> op.b in Live(heap.blocks) && 0 < PayloadAddress(op.b) < TWO32
    modifies heap, heap.arena
    ensures heap.Valid() && heap.initialized && heap.blocks == Step(old(heap.blocks), op)
    ensures PayloadsKept(old(heap.mem), heap.mem,
                         if op.Free? then Live(old(heap.blocks)) - {op.b} else Live(old(heap.blocks)))
  {
    hide Represents, PayloadsKept, Serve, Release, Live;
    match op {
      case Malloc(request) => var ptr := heap.Malloc(request);
      case Free(b) => var code := heap.Free(PayloadAddress(b), b);
    }
  }

  /** A run on memory does to the block list what the run on lists does, and no byte of a block
      that it does not give back has changed at its end. */
  method Replay(heap: Heap, ops: seq<Op>)
    requires heap.Valid() && heap.initialized && FreesLive(heap.blocks, ops)
    modifies heap, heap.arena
    ensures heap.Valid() && heap.blocks == Run(old(heap.blocks), ops)
    ensures PayloadsKept(old(heap.mem), heap.mem, Live(old(heap.blocks)) - Freed(ops))
  {
    hide Represents, PayloadsKept, Serve, Release, Live, Spared, Freed, Run, Step, FreesLive;
    ghost var bs0, m0 := heap.blocks, heap.mem;
    ghost var spared := Live(bs0);
    Starts(m0, bs0, ops);
    var i := 0;
    assert ops[0..] == ops;
    while i < |ops|
      invariant i <= |ops| && heap.Valid() && heap.initialized
      invariant Run(heap.blocks, ops[i..]) == Run(bs0, ops)
      invariant Spared(m0, heap.mem, spared, heap.blocks, ops[i..])
      invariant spared - Freed(ops[i..]) == Live(bs0) - Freed(ops)
    {
      ghost var m, bs := heap.mem, heap.blocks;
      NextOp(m0, m, spared, bs, ops[i..]);
      Perform(heap, ops[i]);
      StepSpares(m0, m, heap.mem, spared, bs, ops[i..]);
      assert ops[i..][1..] == ops[i + 1..];
      spared := spared - if ops[i].Free? then {ops[i].b} else {};
      i := i + 1;
    }
    Ends(m0, heap.mem, spared, heap.blocks, ops[i..]);
    assert spared == Live(bs0) - Freed(ops);
  }
}

/** Whole sessions with the FAT driver: files are opened, read and closed in any order, on handles
    that are used again and again. */
module FatSessions {
  import opened Bytes
  import opened FatVolume
  import opened FatFile
  import opened FatLookups
  import opened FatHandle
  import opened FatReader
  import opened FatRuns

  // ----- sessions on values

  /** A handle: closed, or a file that is being read. */
  datatype Slot = Shut | Held(stream: Stream, extent: Extent)

  datatype Call = Open(e: DirEntry) | Read(handle: nat, count: u32) | Close(handle: nat)

  datatype Answer = Handle(h: nat) | NoHandle | Data(bytes: seq<byte>) | Done

  function FirstShut(t: seq<Slot>): (h: nat)
    ensures h <= |t| && (forall i | 0 <= i < h :: t[i].Held?) && (h < |t| ==> t[h].Shut?)
  {
    if t == [] || t[0].Shut? then 0 else 1 + FirstShut(t[1..])
  }

  predicate Reading(t: seq<Slot>, h: nat) {
    h < |t| && t[h].Held? && t[h].stream.position <= |t[h].stream.data|
  }

  /** A handle is closed, and the first sector of the entry is on the disk. */
  ghost predicate Opens(v: Volume, t: seq<Slot>, e: DirEntry, chain: seq<u32>)
    requires Formatted(v)
  {
    EntryOk(v, e, chain) && FirstShut(t) < |t| && SectorLba(v, FirstCluster(e), 0) < |v.disk|
  }

  /** The handles after a call; chain is that of the file if the call opens one. */
  ghost function After(v: Volume, t: seq<Slot>, c: Call, chain: seq<u32>): (t': seq<Slot>)
    requires Formatted(v)
    ensures |t'| == |t|
  {
    match c
    case Open(e) =>
      if Opens(v, t, e, chain)
      then t[FirstShut(t) := Held(Stream(EntryData(v, e, chain), 0), EntryExtent(v, e, chain))] else t
    case Read(h, n) => if Reading(t, h) then t[h := t[h].(stream := Skip(t[h].stream, n))] else t
    case Close(h) => if h < |t| then t[h := Shut] else t
  }

  ghost function AnswerTo(v: Volume, t: seq<Slot>, c: Call, chain: seq<u32>): Answer
    requires Formatted(v)
  {
    match c
    case Open(e) => if Opens(v, t, e, chain) then Handle(FirstShut(t)) else NoHandle
    case Read(h, n) => if Reading(t, h) then Data(Take(t[h].stream, n)) else Done
    case Close(h) => Done
  }

  ghost function WindowBy(v: Volume, t: seq<Slot>, c: Call, window: u32): u32
    requires Formatted(v)
  {
    if c.Read? && Reading(t, c.handle) then
      var s := t[c.handle].stream;
      WindowOver(v, t[c.handle].extent, LookupsTo(v, s.position), LookupsTo(v, Skip(s, c.count).position), window)
    else window
  }

  /** What the driver demands of a call: only open handles are read, what is opened is on good
      clusters, and the lookups that a read makes find the file's chain. */
  ghost predicate CallOk(v: Volume, t: seq<Slot>, c: Call, chain: seq<u32>, window: u32)
    requires Formatted(v)
  {
    match c
    case Open(e) => EntryOk(v, e, chain)
    case Read(h, n) =>
      && Reading(t, h)
      && var s := t[h].stream;
         Seen(v, t[h].extent, LookupsTo(v, s.position), LookupsTo(v, Skip(s, n).position), window)
    case Close(h) => h < |t|
  }

  ghost predicate Legal(v: Volume, t: seq<Slot>, calls: seq<Call>, chains: seq<seq<u32>>, window: u32)
    requires Formatted(v)
    decreases |calls|
  {
    && |chains| == |calls|
    && (calls != [] ==>
          && CallOk(v, t, calls[0], chains[0], window)
          && Legal(v, After(v, t, calls[0], chains[0]), calls[1..], chains[1..], WindowBy(v, t, calls[0], window)))
  }

  ghost predicate Sound(v: Volume, x: Extent)
    requires Formatted(v)
  {
    OnTable(v, x) && Steady(v, x)
  }

  /** The same without the lookups, for files whose chain is on the table and whose lookups cannot
      straddle. */
  ghost predicate Proper(v: Volume, t: seq<Slot>, calls: seq<Call>, chains: seq<seq<u32>>)
    requires Formatted(v)
    decreases |calls|
  {
    && |chains| == |calls|
    && (calls != [] ==>
          && (match calls[0]
              case Open(e) => EntryOk(v, e, chains[0]) && Sound(v, EntryExtent(v, e, chains[0]))
              case Read(h, n) => Reading(t, h)
              case Close(h) => h < |t|)
          && Proper(v, After(v, t, calls[0], chains[0]), calls[1..], chains[1..]))
  }

  /** Such sessions are legal wherever the window is. */
  lemma {:induction false} ProperIsLegal(v: Volume, t: seq<Slot>, calls: seq<Call>, chains: seq<seq<u32>>, window: u32)
    requires Formatted(v) && Proper(v, t, calls, chains)
    requires forall h | 0 <= h < |t| && t[h].Held? :: Sound(v, t[h].extent)
    ensures Legal(v, t, calls, chains, window)
    decreases |calls|
  {
    if calls != [] {
      var c := calls[0];
      if c.Read? {
        var s := t[c.handle].stream;
        var a, b := LookupsTo(v, s.position), LookupsTo(v, Skip(s, c.count).position);
        SteadyIsSeen(v, t[c.handle].extent, a, b, window);
      }
      hide OnTable, Steady, Seen, WindowOver, LookupsTo, EntryOk, EntryData, EntryExtent, Skip;
      ProperIsLegal(v, After(v, t, c, chains[0]), calls[1..], chains[1..], WindowBy(v, t, c, window));
    }
  }

  ghost function Answers(v: Volume, t: seq<Slot>, calls: seq<Call>, chains: seq<seq<u32>>): seq<Answer>
    requires Formatted(v) && |chains| == |calls|
    decreases |calls|
  {
    if calls == [] then []
    else [AnswerTo(v, t, calls[0], chains[0])] + Answers(v, After(v, t, calls[0], chains[0]), calls[1..], chains[1..])
  }

  ghost function AfterAll(v: Volume, t: seq<Slot>, calls: seq<Call>, chains: seq<seq<u32>>): (t': seq<Slot>)
    requires Formatted(v) && |chains| == |calls|
    ensures |t'| == |t|
    decreases |calls|
  {
    if calls == [] then t else AfterAll(v, After(v, t, calls[0], chains[0]), calls[1..], chains[1..])
  }

  /** All bytes that reads of handle h are answered with. */
  function BytesOf(answers: seq<Answer>, calls: seq<Call>, h: nat): seq<byte>
    requires |answers| == |calls|
  {
    if calls == [] then []
    else
      (if calls[0].Read? && calls[0].handle == h && answers[0].Data? then answers[0].bytes else []) +
      BytesOf(answers[1..], calls[1..], h)
  }

  function AskedOf(calls: seq<Call>, h: nat): nat {
    if calls == [] then 0
    else (if calls[0].Read? && calls[0].handle == h then calls[0].count else 0) + AskedOf(calls[1..], h)
  }

  lemma {:induction false} OneAnswerEach(v: Volume, t: seq<Slot>, calls: seq<Call>, chains: seq<seq<u32>>)
    requires Formatted(v) && |chains| == |calls|
    ensures |Answers(v, t, calls, chains)| == |calls|
    decreases |calls|
  {
    if calls != [] { OneAnswerEach(v, After(v, t, calls[0], chains[0]), calls[1..], chains[1..]); }
  }

  /** Until it is closed, a handle delivers its own file from its own position on, whatever is
      opened, read and closed on other handles meanwhile. */
  lemma {:induction false} OwnBytes(v: Volume, t: seq<Slot>, calls: seq<Call>, chains: seq<seq<u32>>, h: nat)
    requires Formatted(v) && |chains| == |calls| && Reading(t, h) && Close(h) !in calls
    ensures |Answers(v, t, calls, chains)| == |calls|
    ensures BytesOf(Answers(v, t, calls, chains), calls, h) == Take(t[h].stream, AskedOf(calls, h))
    ensures AfterAll(v, t, calls, chains)[h] == t[h].(stream := Skip(t[h].stream, AskedOf(calls, h)))
    decreases |calls|
  {
    OneAnswerEach(v, t, calls, chains);
    if calls != [] {
      var c, s := calls[0], t[h].stream;
      var t' := After(v, t, c, chains[0]);
      var rest := Answers(v, t', calls[1..], chains[1..]);
      assert c in calls && forall d | d in calls[1..] :: d in calls;
      OneKept(v, t, c, chains[0], h);
      OwnBytes(v, t', calls[1..], chains[1..], h);
      assert Answers(v, t, calls, chains)[1..] == rest;
      hide After, Opens, Take, Skip, Reading;
      if c.Read? && c.handle == h { TakeTwice(s, c.count, AskedOf(calls[1..], h)); }
    }
  }

  lemma OneKept(v: Volume, t: seq<Slot>, c: Call, chain: seq<u32>, h: nat)
    requires Formatted(v) && Reading(t, h) && c != Close(h)
    ensures var t' := After(v, t, c, chain);
            && Reading(t', h)
            && t'[h] == (if c.Read? && c.handle == h then t[h].(stream := Skip(t[h].stream, c.count)) else t[h])
    ensures c.Read? && c.handle == h ==> AnswerTo(v, t, c, chain) == Data(Take(t[h].stream, c.count))
  {
    hide EntryOk, EntryData, EntryExtent;
  }

  /** So a file that is opened and then read, in any pieces and among any other calls, is
      delivered from its start. */
  lemma FromOpenOn(v: Volume, t: seq<Slot>, e: DirEntry, chain: seq<u32>, calls: seq<Call>, chains: seq<seq<u32>>)
    requires Formatted(v) && |chains| == |calls| && Opens(v, t, e, chain) && Close(FirstShut(t)) !in calls
    ensures var h, t' := FirstShut(t), After(v, t, Open(e), chain);
            && AnswerTo(v, t, Open(e), chain) == Handle(h) && t[h].Shut?
            && |Answers(v, t', calls, chains)| == |calls|
            && var data := EntryData(v, e, chain);
               BytesOf(Answers(v, t', calls, chains), calls, h) == data[..Min(AskedOf(calls, h), |data|)]
  {
    OwnBytes(v, After(v, t, Open(e), chain), calls, chains, FirstShut(t));
    hide EntryOk, EntryData, EntryExtent, Answers, BytesOf;
  }

  // ----- sessions with the driver

  ghost function SlotIn(t: HandleTable, h: nat): Slot
    requires h < |t.files| == |t.extents|
  {
    if t.files[h].inUse then Held(StreamIn(t, h), t.extents[h]) else Shut
  }

  ghost function Slots(t: HandleTable): (s: seq<Slot>)
    requires |t.files| == |t.extents|
    ensures |s| == |t.files|
  {
    seq(|t.files|, h requires 0 <= h < |t.files| => SlotIn(t, h))
  }

  ghost function SlotsOf(fat: Driver): (s: seq<Slot>)
    requires fat.Valid()
    reads fat
    ensures |s| == MAX_FILE_HANDLES
  {
    Slots(fat.Handles())
  }

  lemma SlotIs(fat: Driver, h: nat)
    requires fat.Valid() && h < MAX_FILE_HANDLES
    ensures SlotsOf(fat)[h] == if fat.files[h].inUse then Held(fat.StreamAt(h), fat.extents[h]) else Shut
    ensures fat.files[h].inUse ==> Reading(SlotsOf(fat), h) && fat.Ready(h)
  {
    if fat.files[h].inUse { OpenStream(fat, h); }
    hide Buffered, StreamOf;
  }

  /** Handles that are not touched stay what they are. */
  lemma OthersStay(t: HandleTable, t': HandleTable, h: nat)
    requires |t.files| == |t.extents| == |t'.files| == |t'.extents| && t'.vol == t.vol && h < |t.files|
    requires forall i | 0 <= i < |t.files| && i != h :: t'.files[i] == t.files[i] && t'.extents[i] == t.extents[i]
    ensures Slots(t') == Slots(t)[h := SlotIn(t', h)]
  {
    hide Buffered, StreamOf;
    forall i | 0 <= i < |t.files| && i != h ensures SlotIn(t', i) == SlotIn(t, i) {
    }
  }

  /** Nor does it matter what closed handles hold. */
  lemma AllStay(t: HandleTable, t': HandleTable)
    requires |t.files| == |t.extents| == |t'.files| == |t'.extents| && t'.vol == t.vol
    requires forall i | 0 <= i < |t.files| :: t'.files[i].inUse == t.files[i].inUse
    requires forall i | 0 <= i < |t.files| && t.files[i].inUse ::
               t'.files[i] == t.files[i] && t'.extents[i] == t.extents[i]
    ensures Slots(t') == Slots(t)
  {
    hide Buffered, StreamOf;
    forall i | 0 <= i < |t.files| ensures SlotIn(t', i) == SlotIn(t, i) {
    }
  }

  lemma FirstShutIs(t: HandleTable, h: nat)
    requires |t.files| == |t.extents| && h < |t.files| && !t.files[h].inUse
    requires forall i | 0 <= i < h :: t.files[i].inUse
    ensures FirstShut(Slots(t)) == h
  {
    var s := Slots(t);
    assert s[h] == SlotIn(t, h) && forall i | 0 <= i < h :: s[i] == SlotIn(t, i);
    LowestShut(s, h);
  }

  lemma {:induction false} LowestShut(s: seq<Slot>, h: nat)
    requires h < |s| && s[h].Shut? && forall i | 0 <= i < h :: s[i].Held?
    ensures FirstShut(s) == h
  {
    if h > 0 { LowestShut(s[1..], h - 1); }
  }

  lemma NoneShut(t: HandleTable)
    requires |t.files| == |t.extents| && AllInUse(t.files)
    ensures FirstShut(Slots(t)) == |t.files|
  {
    var s := Slots(t);
    assert forall i | 0 <= i < |s| :: s[i] == SlotIn(t, i);
    hide Slots;
  }

  method Perform(fat: Driver, c: Call, ghost chain: seq<u32>) returns (a: Answer)
    requires fat.Valid() && CallOk(fat.vol, SlotsOf(fat), c, chain, fat.cachePosition)
    modifies fat`root, fat`files, fat`extents, fat`cache, fat`cachePosition
    ensures fat.Valid() && a == AnswerTo(fat.vol, old(SlotsOf(fat)), c, chain)
    ensures SlotsOf(fat) == After(fat.vol, old(SlotsOf(fat)), c, chain)
    ensures fat.cachePosition == WindowBy(fat.vol, old(SlotsOf(fat)), c, old(fat.cachePosition))
  {
    match c {
      case Open(e) => a := PerformOpen(fat, e, chain);
      case Read(h, n) => a := PerformRead(fat, h, n);
      case Close(h) =>
        ghost var t := fat.Handles();
        hide FileOk, CacheOk, StreamOf, Buffered;
        fat.Close(h);
        OthersStay(t, fat.Handles(), h);
        a := Done;
    }
  }

  method PerformOpen(fat: Driver, e: DirEntry, ghost chain: seq<u32>) returns (a: Answer)
    requires fat.Valid() && EntryOk(fat.vol, e, chain)
    modifies fat`files, fat`extents
    ensures fat.Valid() && a == AnswerTo(fat.vol, old(SlotsOf(fat)), Open(e), chain)
    ensures SlotsOf(fat) == After(fat.vol, old(SlotsOf(fat)), Open(e), chain)
  {
    ghost var t := fat.Handles();
    assert Formatted(fat.vol);
    hide FileOk, CacheOk, StreamOf, Buffered, EntryOk, EntryData, EntryExtent, SectorLba, StreamIn, Slots, FirstShut;
    var h := fat.OpenEntry(e, chain);
    if h < 0 {
      if AllInUse(t.files) { NoneShut(t); }
      AllStay(t, fat.Handles());
      return NoHandle;
    }
    FirstShutIs(t, h);
    OthersStay(t, fat.Handles(), h);
    SlotIs(fat, h);
    return Handle(h);
  }

  method PerformRead(fat: Driver, h: nat, n: u32) returns (a: Answer)
    requires fat.Valid() && CallOk(fat.vol, SlotsOf(fat), Read(h, n), [], fat.cachePosition)
    modifies fat`root, fat`files, fat`cache, fat`cachePosition
    ensures fat.Valid() && a == AnswerTo(fat.vol, old(SlotsOf(fat)), Read(h, n), [])
    ensures SlotsOf(fat) == After(fat.vol, old(SlotsOf(fat)), Read(h, n), [])
    ensures fat.cachePosition == WindowBy(fat.vol, old(SlotsOf(fat)), Read(h, n), old(fat.cachePosition))
  {
    ghost var t := fat.Handles();
    SlotIs(fat, h);
    hide FileOk, RootOk, CacheOk, StreamOf, Buffered, Seen, WindowOver, LookupsTo, StreamIn, Slots;
    var data := fat.Read(h, n);
    OthersStay(t, fat.Handles(), h);
    SlotIs(fat, h);
    return Data(data);
  }

  /** The driver in a whole session: every answer, and what is open at the end, are those of the
      session on values. */
  method Session(fat: Driver, calls: seq<Call>, ghost chains: seq<seq<u32>>) returns (answers: seq<Answer>)
    requires fat.Valid() && Legal(fat.vol, SlotsOf(fat), calls, chains, fat.cachePosition)
    modifies fat`root, fat`files, fat`extents, fat`cache, fat`cachePosition
    ensures fat.Valid() && |chains| == |calls|
    ensures answers == Answers(fat.vol, old(SlotsOf(fat)), calls, chains)
    ensures SlotsOf(fat) == AfterAll(fat.vol, old(SlotsOf(fat)), calls, chains)
  {
    ghost var v, t0 := fat.vol, SlotsOf(fat);
    assert Formatted(v) && |chains| == |calls|;
    hide Driver.Valid, SlotsOf, After, AnswerTo, WindowBy, CallOk, Legal, Answers, AfterAll;
    answers := [];
    assert calls[0..] == calls && chains[0..] == chains;
    for i := 0 to |calls|
      invariant fat.Valid() && fat.vol == v
      invariant Legal(v, SlotsOf(fat), calls[i..], chains[i..], fat.cachePosition)
      invariant answers + Answers(v, SlotsOf(fat), calls[i..], chains[i..]) == Answers(v, t0, calls, chains)
      invariant AfterAll(v, SlotsOf(fat), calls[i..], chains[i..]) == AfterAll(v, t0, calls, chains)
    {
      ghost var t := SlotsOf(fat);
      OneCall(v, t, calls, chains, i, fat.cachePosition);
      var a := Perform(fat, calls[i], chains[i]);
      Regroup(answers, [a], Answers(v, SlotsOf(fat), calls[i + 1..], chains[i + 1..]));
      answers := answers + [a];
    }
    NoCalls(v, SlotsOf(fat), calls[|calls|..], chains[|calls|..]);
  }

  lemma {:induction false} OneCall(v: Volume, t: seq<Slot>, calls: seq<Call>, chains: seq<seq<u32>>, i: nat,
        window: u32)
    requires Formatted(v) && |chains| == |calls| && i < |calls| && Legal(v, t, calls[i..], chains[i..], window)
    ensures CallOk(v, t, calls[i], chains[i], window)
    ensures var t' := After(v, t, calls[i], chains[i]);
            && Legal(v, t', calls[i + 1..], chains[i + 1..], WindowBy(v, t, calls[i], window))
            && Answers(v, t, calls[i..], chains[i..])
               == [AnswerTo(v, t, calls[i], chains[i])] + Answers(v, t', calls[i + 1..], chains[i + 1..])
            && AfterAll(v, t, calls[i..], chains[i..]) == AfterAll(v, t', calls[i + 1..], chains[i + 1..])
  {
    assert calls[i..][0] == calls[i] && calls[i..][1..] == calls[i + 1..];
    assert chains[i..][0] == chains[i] && chains[i..][1..] == chains[i + 1..];
    hide After, AnswerTo, WindowBy, CallOk;
  }

  lemma NoCalls(v: Volume, t: seq<Slot>, calls: seq<Call>, chains: seq<seq<u32>>)
    requires Formatted(v) && calls == [] && chains == []
    ensures Answers(v, t, calls, chains) == [] && AfterAll(v, t, calls, chains) == t
  {
  }
}

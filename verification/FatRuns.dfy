/** Whole runs of reads on several open files that share one driver. */
module FatRuns {
  import opened Bytes
  import opened FatVolume
  import opened FatLookups
  import opened FatHandle
  import opened FatReader

  /** The file behind handle h, or nothing when it is closed. */
  ghost function StreamIn(t: HandleTable, h: nat): (s: Stream)
    ensures s.position <= |s.data|
  {
    if h < |t.files| == |t.extents| && t.files[h].inUse && Formatted(t.vol)
        && Buffered(t.vol, t.files[h], t.extents[h].lbas)
    then StreamOf(t.vol, t.files[h], t.extents[h].lbas)
    else Stream([], 0)
  }

  ghost function Streams(t: HandleTable): (s: seq<Stream>)
    ensures |s| == |t.files| && Inside(s)
  {
    seq(|t.files|, h requires 0 <= h < |t.files| => StreamIn(t, h))
  }

  /** Every request is for an open file. */
  ghost predicate Requests(t: HandleTable, requests: seq<Request>) {
    forall i | 0 <= i < |requests| ::
      requests[i].count < TWO32 && requests[i].handle < |t.files| && t.files[requests[i].handle].inUse
  }

  /** The lookups that the requests make one after the other, all through the same window, find
      the chains of the files. */
  ghost predicate SeenRun(v: Volume, xs: seq<Extent>, s: seq<Stream>, requests: seq<Request>, window: u32)
    requires Formatted(v) && |xs| == |s| && Inside(s) && FatHandle.Valid(requests, |s|)
    decreases requests
  {
    requests != [] ==>
      var h, n := requests[0].handle, requests[0].count;
      var a, b := LookupsTo(v, s[h].position), LookupsTo(v, Skip(s[h], n).position);
      && Seen(v, xs[h], a, b, window)
      && SeenRun(v, xs, s[h := Skip(s[h], n)], requests[1..], WindowOver(v, xs[h], a, b, window))
  }

  /** So they do in every run over files whose chain is on the table and whose lookups cannot
      straddle, as on every volume that is not FAT12. */
  lemma {:induction false} SteadyRun(v: Volume, xs: seq<Extent>, s: seq<Stream>, requests: seq<Request>, window: u32)
    requires Formatted(v) && |xs| == |s| && Inside(s) && FatHandle.Valid(requests, |s|)
    requires forall i | 0 <= i < |requests| :: var x := xs[requests[i].handle]; OnTable(v, x) && Steady(v, x)
    ensures SeenRun(v, xs, s, requests, window)
    decreases requests
  {
    hide OnTable, Steady, Seen, WindowOver, LookupsTo, Skip;
    if requests != [] {
      var h, n := requests[0].handle, requests[0].count;
      var a, b := LookupsTo(v, s[h].position), LookupsTo(v, Skip(s[h], n).position);
      SteadyIsSeen(v, xs[h], a, b, window);
      SteadyRun(v, xs, s[h := Skip(s[h], n)], requests[1..], WindowOver(v, xs[h], a, b, window));
    }
  }

  lemma {:induction false} FirstSeen(v: Volume, xs: seq<Extent>, s: seq<Stream>, q: Request, rest: seq<Request>,
        window: u32)
    requires Formatted(v) && |xs| == |s| && Inside(s) && FatHandle.Valid([q] + rest, |s|)
    requires SeenRun(v, xs, s, [q] + rest, window)
    ensures q.handle < |s|
    ensures var h, t := q.handle, Skip(s[q.handle], q.count);
            var a, b := LookupsTo(v, s[h].position), LookupsTo(v, t.position);
            && Seen(v, xs[h], a, b, window)
            && Inside(s[h := t]) && FatHandle.Valid(rest, |s|)
            && SeenRun(v, xs, s[h := t], rest, WindowOver(v, xs[h], a, b, window))
  {
    assert ([q] + rest)[0] == q && ([q] + rest)[1..] == rest;
    assert forall i | 0 <= i < |rest| :: ([q] + rest)[i + 1] == rest[i];
    hide Seen, WindowOver, LookupsTo;
  }

  /** The driver's own handles and window see the requests through. */
  ghost predicate Sees(fat: Driver, requests: seq<Request>)
    reads fat
  {
    && fat.Valid() && Requests(fat.Handles(), requests)
    && FatHandle.Valid(requests, |Streams(fat.Handles())|)
    && SeenRun(fat.vol, fat.extents, Streams(fat.Handles()), requests, fat.cachePosition)
  }

  /** Open files whose chain is on the table and whose lookups cannot straddle can be read in
      any order. */
  lemma SteadySees(fat: Driver, requests: seq<Request>)
    requires fat.Valid() && Requests(fat.Handles(), requests)
    requires forall h | 0 <= h < MAX_FILE_HANDLES && fat.files[h].inUse ::
               OnTable(fat.vol, fat.extents[h]) && Steady(fat.vol, fat.extents[h])
    ensures Sees(fat, requests)
  {
    hide OnTable, Steady, SeenRun, FileOk, StreamOf, Buffered;
    SteadyRun(fat.vol, fat.extents, Streams(fat.Handles()), requests, fat.cachePosition);
  }

  lemma OpenStream(fat: Driver, h: nat)
    requires fat.Valid() && h < MAX_FILE_HANDLES && fat.files[h].inUse
    ensures fat.Ready(h) && StreamIn(fat.Handles(), h) == fat.StreamAt(h)
  {
    fat.HandleIsOk(h);
    hide Buffered, StreamOf;
  }

  /** A read moves the stream of its own handle only. */
  lemma OneMoves(h: nat, a: HandleTable, b: HandleTable, requests: seq<Request>)
    requires h < |a.files| && OnlyMoved(h, a, b) && Requests(a, requests)
    ensures Streams(b) == Streams(a)[h := StreamIn(b, h)] && Requests(b, requests)
  {
    hide Buffered, StreamOf;
    forall k | 0 <= k < |a.files| && k != h ensures StreamIn(b, k) == StreamIn(a, k) {
    }
  }

  /** One read, and what it means for the run. */
  method ReadOnce(fat: Driver, q: Request, ghost rest: seq<Request>) returns (data: seq<byte>)
    requires Sees(fat, [q] + rest)
    modifies fat`root, fat`files, fat`cache, fat`cachePosition
    ensures Sees(fat, rest) && q.handle < |old(Streams(fat.Handles()))|
    ensures var s := old(Streams(fat.Handles()));
            && data == Take(s[q.handle], q.count)
            && Streams(fat.Handles()) == s[q.handle := Skip(s[q.handle], q.count)]
  {
    ghost var t := fat.Handles();
    assert ([q] + rest)[0] == q;
    assert Requests(t, rest) by {
      assert forall i | 0 <= i < |rest| :: ([q] + rest)[i + 1] == rest[i];
    }
    FirstSeen(fat.vol, fat.extents, Streams(t), q, rest, fat.cachePosition);
    OpenStream(fat, q.handle);
    hide SeenRun, Seen, WindowOver, LookupsTo, FileOk, RootOk, CacheOk, Buffered, StreamOf, OnlyMoved;
    data := fat.Read(q.handle, q.count);
    OneMoves(q.handle, t, fat.Handles(), rest);
    OpenStream(fat, q.handle);
  }

  /** In the course of a run: what has been delivered, and what is still to come. */
  ghost predicate Underway(s0: seq<Stream>, requests: seq<Request>, out: seq<seq<byte>>, s: seq<Stream>,
                           rest: seq<Request>) {
    && |s0| == |s| == |out| && Inside(s0) && Inside(s)
    && FatHandle.Valid(requests, |s0|) && FatHandle.Valid(rest, |s|)
    && Run(s, rest) == Run(s0, requests)
    && forall h: nat | h < |s| :: out[h] + Delivered(s, rest, h) == Delivered(s0, requests, h)
  }

  lemma Starts(s: seq<Stream>, requests: seq<Request>, out: seq<seq<byte>>)
    requires |out| == |s| && (forall h: nat | h < |out| :: out[h] == []) && Inside(s) && FatHandle.Valid(requests, |s|)
    ensures Underway(s, requests, out, s, requests)
  {
    hide Run, Delivered, Inside;
  }

  lemma GoesOn(s0: seq<Stream>, requests: seq<Request>, out: seq<seq<byte>>, s: seq<Stream>, q: Request,
               rest: seq<Request>,
               data: seq<byte>)
    requires Underway(s0, requests, out, s, [q] + rest) && q.handle < |s| && data == Take(s[q.handle], q.count)
    ensures var s', out' := s[q.handle := Skip(s[q.handle], q.count)], out[q.handle := out[q.handle] + data];
            Underway(s0, requests, out', s', rest)
  {
    var s', out' := s[q.handle := Skip(s[q.handle], q.count)], out[q.handle := out[q.handle] + data];
    FirstRun(s, q, rest);
    forall h: nat | h < |s| ensures out'[h] + Delivered(s', rest, h) == Delivered(s0, requests, h) {
      FirstDelivered(s, q, rest, h);
      hide Delivered, Run, Take, Skip;
      if h == q.handle {
        assert (out[h] + data) + Delivered(s', rest, h) == out[h] + (data + Delivered(s', rest, h));
      } else {
        assert [] + Delivered(s', rest, h) == Delivered(s', rest, h);
      }
    }
    hide Delivered, Run, Take, Skip;
  }

  lemma {:induction false} FirstRun(s: seq<Stream>, q: Request, rest: seq<Request>)
    requires Inside(s) && FatHandle.Valid([q] + rest, |s|) && q.handle < |s|
    ensures var s' := s[q.handle := Skip(s[q.handle], q.count)];
            Inside(s') && FatHandle.Valid(rest, |s'|) && Run(s, [q] + rest) == Run(s', rest)
  {
    assert ([q] + rest)[1..] == rest && ([q] + rest)[0] == q;
    assert forall i | 0 <= i < |rest| :: ([q] + rest)[i + 1] == rest[i];
  }

  lemma {:induction false} FirstDelivered(s: seq<Stream>, q: Request, rest: seq<Request>, h: nat)
    requires Inside(s) && FatHandle.Valid([q] + rest, |s|) && FatHandle.Valid(rest, |s|) && q.handle < |s| && h < |s|
    ensures var s' := s[q.handle := Skip(s[q.handle], q.count)];
            && Inside(s')
            && Delivered(s, [q] + rest, h)
               == (if h == q.handle then Take(s[h], q.count) else []) + Delivered(s', rest, h)
  {
    assert ([q] + rest)[1..] == rest && ([q] + rest)[0] == q;
  }

  lemma AllDelivered(s0: seq<Stream>, requests: seq<Request>, out: seq<seq<byte>>, s: seq<Stream>)
    requires Underway(s0, requests, out, s, [])
    ensures forall h: nat | h < |s0| ::
              out[h] == Take(s0[h], Asked(requests, h)) && s[h] == Skip(s0[h], Asked(requests, h))
  {
    forall h: nat | h < |s0|
      ensures out[h] == Take(s0[h], Asked(requests, h)) && s[h] == Skip(s0[h], Asked(requests, h))
    {
      InterleavedReads(s0, requests, h);
      assert out[h] + [] == out[h];
    }
  }

  /** However reads on the open files interleave and however they are chunked, each file is
      delivered from its position on: as many bytes as were asked for in all, or all it has. */
  method Schedule(fat: Driver, requests: seq<Request>) returns (out: seq<seq<byte>>)
    requires Sees(fat, requests)
    modifies fat`root, fat`files, fat`cache, fat`cachePosition
    ensures fat.Valid() && |out| == |old(Streams(fat.Handles()))| == |Streams(fat.Handles())|
    ensures forall h: nat | h < |out| ::
              var s := old(Streams(fat.Handles()))[h];
              out[h] == Take(s, Asked(requests, h)) && Streams(fat.Handles())[h] == Skip(s, Asked(requests, h))
  {
    hide Sees, Streams, Requests, Driver.Valid, Underway, Driver.Handles, Inside;
    ghost var s0 := Streams(fat.Handles());
    SeesValid(fat, requests);
    out := seq(MAX_FILE_HANDLES, _ => []);
    Starts(s0, requests, out);
    var i := 0;
    assert requests[0..] == requests;
    while i < |requests|
      invariant i <= |requests| && Sees(fat, requests[i..])
      invariant Underway(s0, requests, out, Streams(fat.Handles()), requests[i..])
      invariant |out| == |s0| == |Streams(fat.Handles())|
    {
      ghost var s, rest := Streams(fat.Handles()), requests[i + 1..];
      var q := requests[i];
      assert requests[i..] == [q] + rest;
      var data := ReadOnce(fat, q, rest);
      GoesOn(s0, requests, out, s, q, rest, data);
      out := out[q.handle := out[q.handle] + data];
      i := i + 1;
    }
    assert requests[i..] == [];
    AllDelivered(s0, requests, out, Streams(fat.Handles()));
    SeesValid(fat, []);
  }

  lemma SeesValid(fat: Driver, requests: seq<Request>)
    requires Sees(fat, requests)
    ensures fat.Valid() && |Streams(fat.Handles())| == MAX_FILE_HANDLES
    ensures Inside(Streams(fat.Handles())) && FatHandle.Valid(requests, MAX_FILE_HANDLES)
  {
  }
}

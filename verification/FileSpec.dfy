/** The syscall files as a map from names to byte sequences, and what any sequence of
    open, write, read and close calls means on that map. */
module FileSpec {
  import opened Bytes

  const MAX_OPEN_FILES: nat := 32
  const FIRST_FD: nat := 3       // 0, 1 and 2 are the standard streams
  const MEMCPY_LIMIT: nat := 0x1_0000

  const OPEN_WRITE: nat := 0x02
  const OPEN_CREATE: nat := 0x04
  const OPEN_TRUNCATE: nat := 0x08
  const OPEN_APPEND: nat := 0x10

  predicate Has(flags: u32, flag: nat)
    requires flag > 0
  {
    flags / flag % 2 == 1
  }

  datatype Handle = Closed | Opened(name: string, position: nat, flags: u32)

  datatype State = State(disk: map<string, seq<byte>>, fds: seq<Handle>)

  /** Every descriptor names a file. */
  ghost predicate WellFormed(s: State) {
    && |s.fds| == MAX_OPEN_FILES
    && forall fd | 0 <= fd < MAX_OPEN_FILES && s.fds[fd].Opened? :: s.fds[fd].name in s.disk
  }

  /** No descriptor is past the end of its file. */
  ghost predicate PositionsInside(s: State)
    requires WellFormed(s)
  {
    forall fd | 0 <= fd < MAX_OPEN_FILES && s.fds[fd].Opened? :: s.fds[fd].position <= |s.disk[s.fds[fd].name]|
  }

  predicate IsOpen(s: State, fd: nat) {
    fd < |s.fds| && s.fds[fd].Opened?
  }

  /** fd is open at a position inside its file. */
  predicate InFile(s: State, fd: nat) {
    IsOpen(s, fd) && s.fds[fd].name in s.disk && s.fds[fd].position <= |s.disk[s.fds[fd].name]|
  }

  // ----- the four calls

  /** c with d written at position p, extended when d ends past the end of c. */
  function Splice(c: seq<byte>, p: nat, d: seq<byte>): (r: seq<byte>)
    requires p <= |c|
    ensures |r| == if p + |d| > |c| then p + |d| else |c|
  {
    c[..p] + d + (if p + |d| < |c| then c[p + |d|..] else [])
  }

  /** Index of the lowest closed descriptor from fd on, or MAX_OPEN_FILES. */
  function FreeFd(fds: seq<Handle>, fd: nat): (r: nat)
    requires |fds| == MAX_OPEN_FILES && fd <= MAX_OPEN_FILES
    ensures fd <= r <= MAX_OPEN_FILES
    ensures forall k | fd <= k < r :: fds[k].Opened?
    ensures r < MAX_OPEN_FILES ==> fds[r].Closed?
    decreases MAX_OPEN_FILES - fd
  {
    if fd == MAX_OPEN_FILES || fds[fd].Closed? then fd else FreeFd(fds, fd + 1)
  }

  /** Opens an existing file on descriptor fd. */
  function OpenOn(s: State, fd: nat, name: string, flags: u32): State
    requires fd < |s.fds| && name in s.disk
  {
    var disk := if Has(flags, OPEN_TRUNCATE) then s.disk[name := []] else s.disk;
    var position := if Has(flags, OPEN_APPEND) then |disk[name]| else 0;
    State(disk, s.fds[fd := Opened(name, position, flags)])
  }

  function Created(s: State, name: string): State {
    s.(disk := s.disk[name := []])
  }

  function CloseFd(s: State, fd: nat): State
    requires fd < |s.fds|
  {
    s.(fds := s.fds[fd := Closed])
  }

  function Taken(s: State, fd: nat, count: nat): seq<byte>
    requires InFile(s, fd)
  {
    var c, p := s.disk[s.fds[fd].name], s.fds[fd].position;
    c[p..Min(p + count, |c|)]
  }

  function MoveTo(s: State, fd: nat, position: nat): State
    requires IsOpen(s, fd)
  {
    s.(fds := s.fds[fd := s.fds[fd].(position := position)])
  }

  function Advance(s: State, fd: nat, count: nat): State
    requires IsOpen(s, fd)
  {
    MoveTo(s, fd, s.fds[fd].position + count)
  }

  function ReadFrom(s: State, fd: nat, count: nat): State
    requires InFile(s, fd)
  {
    Advance(s, fd, |Taken(s, fd, count)|)
  }

  /** fd stands at the end of its file. */
  function AtEnd(s: State, fd: nat): State
    requires IsOpen(s, fd) && s.fds[fd].name in s.disk
  {
    MoveTo(s, fd, |s.disk[s.fds[fd].name]|)
  }

  function WriteTo(s: State, fd: nat, d: seq<byte>): State
    requires InFile(s, fd)
  {
    var h := s.fds[fd];
    Advance(s.(disk := s.disk[h.name := Splice(s.disk[h.name], h.position, d)]), fd, |d|)
  }

  // ----- what the 16-bit length of memcpy lets through

  /** How many of n bytes one memcpy call copies. */
  function Copied(n: nat): (r: nat)
    ensures r <= n && (n < MEMCPY_LIMIT ==> r == n)
  {
    n % MEMCPY_LIMIT
  }

  /** The buffer that a write goes to, as it is before: the file's own, or a fresh one, to which
      the file is then moved. */
  datatype Place = Same(bytes: seq<byte>) | Fresh(bytes: seq<byte>)

  /** How many bytes of a file c are in that buffer: all, unless memcpy had to move them there. */
  function Kept(c: seq<byte>, to: Place): (n: nat)
    ensures n <= |c|
  {
    if to.Fresh? then Copied(|c|) else |c|
  }

  /** r is what a file c holds after d is written at p to a buffer: memcpy copies bytes of
      d and, when the file is moved, bytes of c. Where no copy reaches, the file
      has what the buffer held. */
  ghost predicate Written(c: seq<byte>, p: nat, d: seq<byte>, to: Place, r: seq<byte>) {
    && |r| == (if p + |d| > |c| then p + |d| else |c|) <= |to.bytes|
    && forall k | 0 <= k < |r| ::
         r[k] == if p <= k < p + Copied(|d|) then d[k - p] else if k < Kept(c, to) then c[k] else to.bytes[k]
  }

  /** t is s after d was written to the open descriptor fd, as far as memcpy copied it. */
  ghost predicate WroteSome(s: State, t: State, fd: nat, d: seq<byte>, to: Place) {
    && IsOpen(s, fd)
    && var h := s.fds[fd];
    && h.name in s.disk && h.name in t.disk
    && t.disk == s.disk[h.name := t.disk[h.name]]
    && t.fds == s.fds[fd := h.(position := h.position + |d|)]
    && Written(s.disk[h.name], h.position, d, to, t.disk[h.name])
  }

  /** Below 64 KB and inside the file, that is the write of the map. */
  lemma ShortWriteIsWriteTo(s: State, t: State, fd: nat, d: seq<byte>, to: Place)
    requires InFile(s, fd) && WroteSome(s, t, fd, d, to)
    requires |d| < MEMCPY_LIMIT && (to.Fresh? ==> |s.disk[s.fds[fd].name]| < MEMCPY_LIMIT)
    ensures t == WriteTo(s, fd, d)
  {
    var h := s.fds[fd];
    ShortWriteIsSplice(s.disk[h.name], h.position, d, to, t.disk[h.name]);
  }

  /** Below 64 KB, a write is a splice. */
  lemma ShortWriteIsSplice(c: seq<byte>, p: nat, d: seq<byte>, to: Place, r: seq<byte>)
    requires p <= |c| && |d| < MEMCPY_LIMIT && (to.Fresh? ==> |c| < MEMCPY_LIMIT)
    requires Written(c, p, d, to, r)
    ensures r == Splice(c, p, d)
  {
  }

  /** What the file would have at k if nothing of d were copied. */
  ghost function Beneath(c: seq<byte>, to: Place, k: nat): byte
    requires k < |to.bytes|
  {
    if k < Kept(c, to) then c[k] else to.bytes[k]
  }

  /** Any write is a splice exactly when what memcpy did not copy was there already: the end of
      the data, and the end of a file that was moved. */
  lemma WriteExact(c: seq<byte>, p: nat, d: seq<byte>, to: Place, r: seq<byte>)
    requires p <= |c| && Written(c, p, d, to, r)
    ensures r == Splice(c, p, d) <==>
            && (forall k | Copied(|d|) <= k < |d| :: Beneath(c, to, p + k) == d[k])
            && (forall k | Kept(c, to) <= k < |c| && !(p <= k < p + |d|) :: to.bytes[k] == c[k])
  {
  }

  /** An overwrite inside the file, which never moves it: exactly when the bytes not copied
      repeat those of the file. */
  lemma OverwriteExact(c: seq<byte>, p: nat, d: seq<byte>, to: Place, r: seq<byte>)
    requires p + |d| <= |c| && to.Same? && Written(c, p, d, to, r)
    ensures r == Splice(c, p, d) <==> forall k | Copied(|d|) <= k < |d| :: c[p + k] == d[k]
  {
  }

  /** An append is a splice whatever the buffer held before exactly when the data, and a file
      that is moved, are below 64 KB. */
  lemma AppendExact(c: seq<byte>, d: seq<byte>, moved: bool)
    requires d != []
    ensures (forall to: Place, r | to.Fresh? == moved && Written(c, |c|, d, to, r) :: r == Splice(c, |c|, d)) <==>
            |d| < MEMCPY_LIMIT && (moved ==> |c| < MEMCPY_LIMIT)
  {
    if |d| < MEMCPY_LIMIT && (moved ==> |c| < MEMCPY_LIMIT) {
      forall to: Place, r | to.Fresh? == moved && Written(c, |c|, d, to, r) ensures r == Splice(c, |c|, d) {
        ShortWriteIsSplice(c, |c|, d, to, r);
      }
    } else {
      var s := Splice(c, |c|, d);
      var k := if |d| >= MEMCPY_LIMIT then |c| + |d| - 1 else |c| - 1;
      var buf := s[k := if s[k] == 0 then 1 else 0];
      var to := if moved then Fresh(buf) else Same(buf);
      var r := seq<byte>(|s|, i requires 0 <= i < |s| =>
        if |c| <= i < |c| + Copied(|d|) then d[i - |c|] else Beneath(c, to, i));
      assert r[k] == buf[k] != s[k];
      assert Written(c, |c|, d, to, r);
    }
  }

  /** 64 KB written to an empty file are lost: the file is what its buffer held before. */
  lemma ChunkIsLost(d: seq<byte>, to: Place, r: seq<byte>)
    requires |d| == MEMCPY_LIMIT && Written([], 0, d, to, r)
    ensures r == to.bytes[..MEMCPY_LIMIT]
  {
  }

  // ----- positions past the end

  /** Writing and reading keep every descriptor inside its file. */
  lemma WriteKeepsPositions(s: State, fd: nat, d: seq<byte>)
    requires WellFormed(s) && PositionsInside(s) && IsOpen(s, fd)
    ensures WellFormed(WriteTo(s, fd, d)) && PositionsInside(WriteTo(s, fd, d))
  {
  }

  lemma ReadKeepsPositions(s: State, fd: nat, count: nat)
    requires WellFormed(s) && PositionsInside(s) && IsOpen(s, fd)
    ensures WellFormed(ReadFrom(s, fd, count)) && PositionsInside(ReadFrom(s, fd, count))
  {
  }

  /** An open leaves some descriptor past the end of its file exactly when it truncates a
      file on which another descriptor has already advanced. */
  lemma OpenKeepsPositions(s: State, fd: nat, name: string, flags: u32)
    requires WellFormed(s) && PositionsInside(s) && fd < MAX_OPEN_FILES && s.fds[fd].Closed? && name in s.disk
    ensures WellFormed(OpenOn(s, fd, name, flags))
    ensures PositionsInside(OpenOn(s, fd, name, flags)) <==>
            !(Has(flags, OPEN_TRUNCATE) &&
              exists k | 0 <= k < MAX_OPEN_FILES :: s.fds[k].Opened? && s.fds[k].name == name && s.fds[k].position > 0)
  {
    var t := OpenOn(s, fd, name, flags);
    if Has(flags, OPEN_TRUNCATE) {
      if k :| 0 <= k < MAX_OPEN_FILES && s.fds[k].Opened? && s.fds[k].name == name && s.fds[k].position > 0 {
        assert t.fds[k] == s.fds[k];
      }
    }
  }

  // ----- writes, reopen, reads

  function WriteAll(s: State, fd: nat, chunks: seq<seq<byte>>): (t: State)
    requires InFile(s, fd)
    ensures InFile(t, fd) && t.disk.Keys == s.disk.Keys
    decreases chunks
  {
    if chunks == [] then s else WriteAll(WriteTo(s, fd, chunks[0]), fd, chunks[1..])
  }

  /** What the reads deliver, one after the other. */
  function ReadAll(s: State, fd: nat, counts: seq<nat>): seq<byte>
    requires InFile(s, fd)
    decreases counts
  {
    if counts == [] then [] else Taken(s, fd, counts[0]) + ReadAll(ReadFrom(s, fd, counts[0]), fd, counts[1..])
  }

  function Concat(chunks: seq<seq<byte>>): seq<byte> {
    if chunks == [] then [] else chunks[0] + Concat(chunks[1..])
  }

  function Sum(counts: seq<nat>): nat {
    if counts == [] then 0 else counts[0] + Sum(counts[1..])
  }

  lemma AppendOnce(s: State, fd: nat, d: seq<byte>)
    requires InFile(s, fd) && s.fds[fd].position == |s.disk[s.fds[fd].name]|
    ensures var h := s.fds[fd];
            WriteTo(s, fd, d) == State(s.disk[h.name := s.disk[h.name] + d],
                s.fds[fd := h.(position := h.position + |d|)])
  {
    SpliceAtEnd(s.disk[s.fds[fd].name], d);
  }

  lemma SpliceTwice(c: seq<byte>, p: nat, d: seq<byte>, e: seq<byte>)
    requires p <= |c|
    ensures Splice(Splice(c, p, d), p + |d|, e) == Splice(c, p, d + e)
  {
    var l, r := Splice(Splice(c, p, d), p + |d|, e), Splice(c, p, d + e);
    forall k | 0 <= k < |l| ensures l[k] == r[k] {
      SpliceAt(c, p, d, k);
      SpliceAt(Splice(c, p, d), p + |d|, e, k);
      SpliceAt(c, p, d + e, k);
    }
  }

  /** What a splice has at k. */
  lemma SpliceAt(c: seq<byte>, p: nat, d: seq<byte>, k: nat)
    requires p <= |c|
    ensures k < |Splice(c, p, d)| ==> Splice(c, p, d)[k] == if p <= k < p + |d| then d[k - p] else c[k]
  {
  }

  lemma SpliceNone(c: seq<byte>, p: nat)
    requires p <= |c|
    ensures Splice(c, p, []) == c
  {
  }

  /** Writes in any pieces are one splice of what they write, and touch no other file or
      descriptor. */
  lemma {:induction false} WriteAllSplices(s: State, fd: nat, chunks: seq<seq<byte>>)
    requires InFile(s, fd)
    ensures var h, d := s.fds[fd], Concat(chunks);
            WriteAll(s, fd, chunks) == State(s.disk[h.name := Splice(s.disk[h.name], h.position, d)],
                s.fds[fd := h.(position := h.position + |d|)])
    decreases chunks
  {
    var h := s.fds[fd];
    var c := s.disk[h.name];
    if chunks == [] {
      SpliceNone(c, h.position);
      assert s.disk[h.name := c] == s.disk;
    } else {
      WriteAllSplices(WriteTo(s, fd, chunks[0]), fd, chunks[1..]);
      SpliceTwice(c, h.position, chunks[0], Concat(chunks[1..]));
      hide Splice, WriteAll;
    }
  }

  /** Writes from the end of a file append. */
  lemma WriteAllAppends(s: State, fd: nat, chunks: seq<seq<byte>>)
    requires InFile(s, fd) && s.fds[fd].position == |s.disk[s.fds[fd].name]|
    ensures var t, h := WriteAll(s, fd, chunks), s.fds[fd];
            && t.disk == s.disk[h.name := s.disk[h.name] + Concat(chunks)]
            && t.fds == s.fds[fd := h.(position := h.position + |Concat(chunks)|)]
  {
    WriteAllSplices(s, fd, chunks);
    SpliceAtEnd(s.disk[s.fds[fd].name], Concat(chunks));
    hide WriteAll, Splice, Concat;
  }

  lemma SpliceAtEnd(c: seq<byte>, d: seq<byte>)
    ensures Splice(c, |c|, d) == c + d
  {
  }

  /** What an existing file of contents c holds after it was opened with these flags, written with d
      in any pieces, and closed: the flags are OPEN_TRUNCATE, 0x08, and OPEN_APPEND, 0x10. */
  function Rewritten(c: seq<byte>, flags: u32, d: seq<byte>): seq<byte> {
    if flags / 8 % 2 == 1 then d
    else if flags / 16 % 2 == 1 then c + d
    else if |d| < |c| then d + c[|d|..] else d
  }

  /** Opening an existing file and writing it: a truncating open leaves what is written, an appending
      one puts it behind the old contents, and any other replaces the front of the file. */
  lemma OpenWriteClose(s: State, name: string, fd: nat, flags: u32, chunks: seq<seq<byte>>)
    requires name in s.disk && fd < |s.fds| && s.fds[fd].Closed?
    ensures InFile(OpenOn(s, fd, name, flags), fd)
    ensures var t := WriteAll(OpenOn(s, fd, name, flags), fd, chunks);
            CloseFd(t, fd) == s.(disk := s.disk[name := Rewritten(s.disk[name], flags, Concat(chunks))])
  {
    var u, c, d := OpenOn(s, fd, name, flags), s.disk[name], Concat(chunks);
    WriteAllSplices(u, fd, chunks);
    OpenedAt(c, flags, d);
    assert u.disk[name := Rewritten(c, flags, d)] == s.disk[name := Rewritten(c, flags, d)];
    hide WriteAll, Splice, Rewritten, Concat;
    assert CloseFd(WriteAll(u, fd, chunks), fd).fds == s.fds;
  }

  lemma OpenedAt(c: seq<byte>, flags: u32, d: seq<byte>)
    ensures var c' := if Has(flags, OPEN_TRUNCATE) then [] else c;
            Splice(c', if Has(flags, OPEN_APPEND) then |c'| else 0, d) == Rewritten(c, flags, d)
  {
  }

  /** However a file is read in pieces, the pieces together are the file from the current position. */
  lemma {:induction false} ReadAllDelivers(s: State, fd: nat, counts: seq<nat>)
    requires InFile(s, fd)
    ensures ReadAll(s, fd, counts) == Taken(s, fd, Sum(counts))
    decreases counts
  {
    if counts != [] {
      ReadAllDelivers(ReadFrom(s, fd, counts[0]), fd, counts[1..]);
    }
  }

  /** Creating a file, writing it in any pieces and closing it adds exactly that file. */
  lemma CreateWriteClose(s: State, name: string, fd: nat, flags: u32, chunks: seq<seq<byte>>)
    requires name !in s.disk && fd < |s.fds| && s.fds[fd].Closed?
    ensures var first := OpenOn(Created(s, name), fd, name, flags);
            InFile(first, fd)
            && CloseFd(WriteAll(first, fd, chunks), fd) == s.(disk := s.disk[name := Concat(chunks)])
  {
    hide WriteAll, Concat, Has;
    var first := OpenOn(Created(s, name), fd, name, flags);
    assert first == State(s.disk[name := []], s.fds[fd := Opened(name, 0, flags)]) by {
      assert s.disk[name := []][name := []] == s.disk[name := []];
    }
    WriteAllAppends(first, fd, chunks);
    assert [] + Concat(chunks) == Concat(chunks);
    assert CloseFd(WriteAll(first, fd, chunks), fd).fds == s.fds;
  }

  /** Reading a freshly opened file in any pieces that are long enough delivers the whole file. */
  lemma OpenReadAll(s: State, name: string, fd: nat, flags: u32, counts: seq<nat>)
    requires name in s.disk && fd < |s.fds| && s.fds[fd].Closed?
    requires !Has(flags, OPEN_TRUNCATE) && !Has(flags, OPEN_APPEND)
    requires Sum(counts) >= |s.disk[name]|
    ensures var second := OpenOn(s, fd, name, flags);
            InFile(second, fd) && ReadAll(second, fd, counts) == s.disk[name]
  {
    ReadAllDelivers(OpenOn(s, fd, name, flags), fd, counts);
  }

  /** Create a file, write it in any pieces, close it, open it again and read it in any
      pieces that are long enough: the bytes read are the bytes written, and no other
      file has changed. */
  lemma WriteReopenRead(s: State, name: string, fd: nat, fd': nat, flags: u32, flags': u32,
                        chunks: seq<seq<byte>>, counts: seq<nat>)
    requires name !in s.disk && fd < |s.fds| && s.fds[fd].Closed? && fd' < |s.fds| && s.fds[fd'].Closed?
    requires !Has(flags', OPEN_TRUNCATE) && !Has(flags', OPEN_APPEND)
    requires Sum(counts) >= |Concat(chunks)|
    ensures var first := OpenOn(Created(s, name), fd, name, flags);
            && InFile(first, fd)
            && var closed := CloseFd(WriteAll(first, fd, chunks), fd);
            && closed.disk == s.disk[name := Concat(chunks)] && closed.fds == s.fds
            && var second := OpenOn(closed, fd', name, flags');
            && InFile(second, fd') && ReadAll(second, fd', counts) == Concat(chunks)
  {
    CreateWriteClose(s, name, fd, flags, chunks);
    OpenReadAll(s.(disk := s.disk[name := Concat(chunks)]), name, fd', flags', counts);
  }
}

/** ELF program headers, and the memory image that the loader makes of a segment. The layout
    follows chapters 4 and 5 of the System V ABI. */
module ElfImage {
  import opened Bytes

  const HEADER_BUFFER: nat := 0x3_0000
  const LOAD_BUFFER: nat := 0x4_0000
  const LOAD_SIZE: nat := 0x1_0000
  const RESERVED_START: nat := 0x2_0000
  const RESERVED_END: nat := 0x5_0000
  const ELF_HEADER_SIZE: nat := 52
  const PROGRAM_HEADER_SIZE: nat := 32
  const PT_LOAD: u32 := 1
  const OFFSET_FIELD: nat := 4
  const FILE_SIZE_FIELD: nat := 16

  datatype Segment = Segment(kind: u32, offset: u32, vaddr: u32, fileSize: u32, memSize: u32)

  /** The program header stored at offset o. */
  function SegmentAt(m: seq<byte>, o: nat): Segment
    requires o + PROGRAM_HEADER_SIZE <= |m|
  {
    Segment(Word(m, o), Word(m, o + OFFSET_FIELD), Word(m, o + 8), Word(m, o + FILE_SIZE_FIELD), Word(m, o + 20))
  }

  // ----- the file

  function TableOffset(data: seq<byte>): u32
    requires |data| >= ELF_HEADER_SIZE
  {
    Word(data, 28)
  }

  function EntrySize(data: seq<byte>): u16
    requires |data| >= ELF_HEADER_SIZE
  {
    Half(data, 42)
  }

  function EntryCount(data: seq<byte>): u16
    requires |data| >= ELF_HEADER_SIZE
  {
    Half(data, 44)
  }

  function Distance(offset: u32): u32 {
    (offset - ELF_HEADER_SIZE) % TWO32
  }

  /** How many bytes the loader skips, in 32-bit arithmetic, to get from the end of the ELF
      header to the program header table; the file may end before. */
  function Skipped(data: seq<byte>): nat
    requires |data| >= ELF_HEADER_SIZE
  {
    Min(Distance(TableOffset(data)), |data| - ELF_HEADER_SIZE)
  }

  function TableSize(data: seq<byte>): nat
    requires |data| >= ELF_HEADER_SIZE
  {
    EntrySize(data) * EntryCount(data)
  }

  /** The program header table can be read completely. */
  predicate HasTable(data: seq<byte>) {
    |data| >= ELF_HEADER_SIZE && ELF_HEADER_SIZE + Skipped(data) + TableSize(data) <= |data|
  }

  function Segments(data: seq<byte>): (s: seq<Segment>)
    requires HasTable(data) && (EntryCount(data) > 0 ==> EntrySize(data) >= PROGRAM_HEADER_SIZE)
    ensures |s| == EntryCount(data)
  {
    seq(EntryCount(data), i requires 0 <= i < EntryCount(data) =>
      EntryFits(i, EntryCount(data), EntrySize(data));
      SegmentAt(data, ELF_HEADER_SIZE + Skipped(data) + EntryOffset(i, EntrySize(data))))
  }

  /** Where entry i is in the table. */
  function EntryOffset(i: nat, size: nat): nat {
    i * size
  }

  lemma Regrouped(i: nat, k: nat, size: nat)
    ensures size * (i + k + 1) == i * size + k * size + size && k * size >= 0
  {
  }

  lemma EntryFits(i: nat, n: nat, size: nat)
    requires i < n && size >= PROGRAM_HEADER_SIZE
    ensures EntryOffset(i, size) + PROGRAM_HEADER_SIZE <= size * n
  {
    Regrouped(i, n - i - 1, size);
    assert i + (n - i - 1) + 1 == n;
  }

  lemma EntriesApart(i: nat, j: nat, size: nat)
    requires i != j && size >= PROGRAM_HEADER_SIZE
    ensures EntryOffset(i, size) + PROGRAM_HEADER_SIZE <= EntryOffset(j, size)
            || EntryOffset(j, size) + PROGRAM_HEADER_SIZE <= EntryOffset(i, size)
  {
    if i < j { EntryFits(i, j, size); } else { EntryFits(j, i, size); }
  }

  /** A program header table behind the ELF header is found at its offset; one that overlaps
      the ELF header is not found at all, unless it is empty. */
  lemma TableIsAtOffset(data: seq<byte>)
    requires ELF_HEADER_SIZE <= |data| < TWO32
    ensures TableSize(data) > 0 ==>
              (HasTable(data) <==>
                 ELF_HEADER_SIZE <= TableOffset(data) && TableOffset(data) + TableSize(data) <= |data|)
    ensures TableSize(data) > 0 && HasTable(data) ==> ELF_HEADER_SIZE + Skipped(data) == TableOffset(data)
  {
    hide TableSize;
    if TableOffset(data) < ELF_HEADER_SIZE {
      assert (TableOffset(data) - ELF_HEADER_SIZE) % TWO32 == TableOffset(data) - ELF_HEADER_SIZE + TWO32;
    }
  }

  // ----- the memory image

  predicate InFile(data: seq<byte>, s: Segment) {
    s.offset + s.fileSize <= |data|
  }

  /** Loadable segments lie in the file. */
  predicate AllInFile(data: seq<byte>, segments: seq<Segment>) {
    forall i | 0 <= i < |segments| && segments[i].kind == PT_LOAD :: InFile(data, segments[i])
  }

  predicate Inside(s: Segment, a: nat) {
    s.kind == PT_LOAD && s.vaddr <= a < s.vaddr + s.memSize
  }

  /** The segment lies in memory, away from what the loader itself uses. */
  predicate SegmentOk(s: Segment, memory: nat) {
    && s.fileSize <= s.memSize && s.vaddr + s.memSize <= memory
    && (s.vaddr + s.memSize <= RESERVED_START || RESERVED_END <= s.vaddr)
  }

  predicate Apart(s: Segment, t: Segment) {
    s.vaddr + s.memSize <= t.vaddr || t.vaddr + t.memSize <= s.vaddr
  }

  /** What the loader demands of a file: its headers fit their buffer, and its loadable
      segments do not overlap. */
  ghost predicate Loadable(data: seq<byte>, memory: nat) {
    && RESERVED_END <= memory <= TWO32
    && (|data| >= ELF_HEADER_SIZE ==> Skipped(data) <= LOAD_SIZE && TableSize(data) <= LOAD_SIZE)
    && (HasTable(data) ==>
          && (EntryCount(data) > 0 ==> EntrySize(data) >= PROGRAM_HEADER_SIZE)
          && SegmentsOk(Segments(data), memory))
  }

  ghost predicate SegmentsOk(segments: seq<Segment>, memory: nat) {
    && (forall i | 0 <= i < |segments| && segments[i].kind == PT_LOAD :: SegmentOk(segments[i], memory))
    && forall i, j | 0 <= i < j < |segments| && segments[i].kind == segments[j].kind == PT_LOAD ::
         Apart(segments[i], segments[j])
  }

  /** The first byte that is copied: memcpy takes a 16-bit length, so a chunk of 0x10000 bytes
      copies nothing, and only what is left over after such chunks arrives. */
  function Whole(fileSize: nat): (w: nat)
    ensures w <= fileSize
  {
    fileSize - fileSize % LOAD_SIZE
  }

  /** Memory at the segment after its first done bytes have been dealt with. */
  ghost predicate Partly(m: seq<byte>, data: seq<byte>, s: Segment, done: nat)
    requires s.vaddr + s.memSize <= |m| && done <= s.fileSize <= s.memSize && s.offset + done <= |data|
  {
    forall a | s.vaddr <= a < s.vaddr + s.memSize ::
      m[a] == if Whole(s.fileSize) <= a - s.vaddr < done then data[s.offset + (a - s.vaddr)] else 0
  }

  /** The segment as the loader leaves it: the last FileSize % 0x10000 bytes are in their
      place, all others are zero. */
  ghost predicate Placed(m: seq<byte>, data: seq<byte>, s: Segment) {
    && s.vaddr + s.memSize <= |m| && s.fileSize <= s.memSize && InFile(data, s)
    && Partly(m, data, s, s.fileSize)
  }

  /** The segment as the ABI wants it: its bytes of the file, then zeros. */
  ghost predicate Faithful(m: seq<byte>, data: seq<byte>, s: Segment) {
    && s.vaddr + s.memSize <= |m| && s.fileSize <= s.memSize && InFile(data, s)
    && m[s.vaddr..s.vaddr + s.memSize]
        == data[s.offset..s.offset + s.fileSize] + seq<byte>(s.memSize - s.fileSize, _ => 0)
  }

  predicate ZeroFrom(data: seq<byte>, o: nat, n: nat)
    requires o + n <= |data|
  {
    forall k | o <= k < o + n :: data[k] == 0
  }

  /** The loader's image is right exactly when the file has only zeros in the part that whole
      64 KB chunks make up; there is no such part in a segment of less than 64 KB. */
  lemma PlacedFaithful(m: seq<byte>, data: seq<byte>, s: Segment)
    requires Placed(m, data, s)
    ensures Faithful(m, data, s) <==> ZeroFrom(data, s.offset, Whole(s.fileSize))
    ensures s.fileSize < LOAD_SIZE ==> Faithful(m, data, s)
  {
    var w, l := Whole(s.fileSize), m[s.vaddr..s.vaddr + s.memSize];
    var r := data[s.offset..s.offset + s.fileSize] + seq<byte>(s.memSize - s.fileSize, _ => 0);
    assert forall k | 0 <= k < s.memSize :: l[k] == m[s.vaddr + k];
    assert forall k | 0 <= k < s.fileSize :: r[k] == data[s.offset + k];
    if ZeroFrom(data, s.offset, w) {
      assert l == r;
    }
    if l == r {
      forall k | s.offset <= k < s.offset + w ensures data[k] == 0 {
        assert l[k - s.offset] == r[k - s.offset];
      }
    }
  }

  /** A segment of exactly 64 KB is lost altogether unless it is zero. */
  lemma WholeChunkIsLost(m: seq<byte>, data: seq<byte>, s: Segment)
    requires Placed(m, data, s) && s.fileSize == s.memSize == LOAD_SIZE
    ensures m[s.vaddr..s.vaddr + LOAD_SIZE] == seq<byte>(LOAD_SIZE, _ => 0)
  {
  }

  // ----- what each step leaves alone

  ghost predicate Free(a: nat, f: nat, lo: nat, hi: nat) {
    !(LOAD_BUFFER <= a < LOAD_BUFFER + LOAD_SIZE) && !(f <= a < f + 4) && !(lo <= a < hi)
  }

  /** Only the load buffer, the header field at f and the addresses from lo to hi changed. */
  ghost predicate Frame(m: seq<byte>, m': seq<byte>, f: nat, lo: nat, hi: nat) {
    |m'| == |m| && forall a | 0 <= a < |m| && Free(a, f, lo, hi) :: m'[a] == m[a]
  }

  lemma FrameTransitive(m0: seq<byte>, m1: seq<byte>, m2: seq<byte>, f: nat, lo: nat, hi: nat)
    requires Frame(m0, m1, f, lo, hi) && Frame(m1, m2, f, lo, hi)
    ensures Frame(m0, m2, f, lo, hi)
  {
    hide Free;
  }

  /** Whole words outside the frame keep their values. */
  lemma WordKept(m: seq<byte>, m': seq<byte>, f: nat, lo: nat, hi: nat, j: nat)
    requires Frame(m, m', f, lo, hi) && j + 4 <= |m|
    requires j + 4 <= LOAD_BUFFER || LOAD_BUFFER + LOAD_SIZE <= j
    requires j + 4 <= f || f + 4 <= j
    requires j + 4 <= lo || hi <= j
    ensures Word(m', j) == Word(m, j)
  {
    assert m'[j..j + 4] == m[j..j + 4];
  }

  /** The bytes d have been written from address o on, and nothing else. */
  ghost predicate Landed(m: seq<byte>, m': seq<byte>, o: nat, d: seq<byte>) {
    o + |d| <= |m| && m' == Overlay(m, o, d)
  }

  function Slice(m: seq<byte>, o: nat, n: nat): seq<byte>
    requires o + n <= |m|
  {
    m[o..o + n]
  }

  /** Reading into the load buffer and lowering a header field. */
  lemma StepFrame(m: seq<byte>, m1: seq<byte>, m2: seq<byte>, chunk: seq<byte>, f: nat, left: u32)
    requires |chunk| <= LOAD_SIZE && f + 4 <= LOAD_BUFFER
    requires Landed(m, m1, LOAD_BUFFER, chunk) && Landed(m1, m2, f, ToLE(left, 4))
    ensures Frame(m, m2, f, 0, 0) && Word(m2, f) == left
    ensures LOAD_BUFFER + |chunk| <= |m2| == |m| && m2[LOAD_BUFFER..LOAD_BUFFER + |chunk|] == chunk
  {
    OverlayWrote(m1, f, left);
    hide ToLE, Word;
    assert m2[LOAD_BUFFER..LOAD_BUFFER + |chunk|] == chunk;
  }

  lemma ReadFrame(m: seq<byte>, m1: seq<byte>, chunk: seq<byte>, f: nat)
    requires |chunk| <= LOAD_SIZE && Landed(m, m1, LOAD_BUFFER, chunk)
    ensures Frame(m, m1, f, 0, 0)
  {
  }

  // ----- one pass of the copying loop

  predicate Chunked(done: nat, fileSize: nat) {
    done <= fileSize && (done == fileSize || done % LOAD_SIZE == 0)
  }

  /** The length memcpy sees. */
  function CopyLength(n: nat): (r: u16)
    ensures r <= n
  {
    n % 0x1_0000
  }

  /** What one pass makes of memory: m1 has the next n bytes of the segment in its load buffer. */
  function Copied(m1: seq<byte>, s: Segment, done: nat, n: nat): seq<byte>
    requires n <= LOAD_SIZE && LOAD_BUFFER + LOAD_SIZE <= |m1| && s.vaddr + done + n <= |m1|
  {
    Overlay(m1, s.vaddr + done, Slice(m1, LOAD_BUFFER, CopyLength(n)))
  }

  lemma PassChunked(done: nat, fileSize: nat)
    requires Chunked(done, fileSize) && done < fileSize
    ensures var n := Min(fileSize - done, LOAD_SIZE);
            && Chunked(done + n, fileSize)
            && (if n == LOAD_SIZE then done + n <= Whole(fileSize)
                else done == Whole(fileSize) && done + n == fileSize && CopyLength(n) == n)
  {
  }

  lemma PartlyKept(m: seq<byte>, m1: seq<byte>, data: seq<byte>, s: Segment, done: nat, f: nat)
    requires SegmentOk(s, |m|) && done <= s.fileSize && s.offset + done <= |data|
    requires Partly(m, data, s, done) && Frame(m, m1, f, 0, 0) && HEADER_BUFFER <= f <= LOAD_BUFFER - 4
    ensures Partly(m1, data, s, done)
  {
    forall a | s.vaddr <= a < s.vaddr + s.memSize ensures m1[a] == m[a] {
      assert Free(a, f, 0, 0);
    }
  }

  lemma PassPartly(m1: seq<byte>, data: seq<byte>, s: Segment, done: nat, n: nat)
    requires SegmentOk(s, |m1|) && LOAD_BUFFER + LOAD_SIZE <= |m1|
    requires Chunked(done, s.fileSize) && done < s.fileSize && n == Min(s.fileSize - done, LOAD_SIZE)
    requires s.offset + done + n <= |data| && Partly(m1, data, s, done)
    requires m1[LOAD_BUFFER..LOAD_BUFFER + n] == data[s.offset + done..s.offset + done + n]
    ensures Partly(Copied(m1, s, done, n), data, s, done + n)
  {
    PassChunked(done, s.fileSize);
    if n == LOAD_SIZE {
      hide Whole, Chunked;
      assert Copied(m1, s, done, n) == m1;
    } else {
      TailPartly(m1, data, s, done, n);
    }
  }

  /** The last pass copies everything that is left over. */
  lemma TailPartly(m1: seq<byte>, data: seq<byte>, s: Segment, done: nat, n: nat)
    requires SegmentOk(s, |m1|) && LOAD_BUFFER + LOAD_SIZE <= |m1| && n < LOAD_SIZE
    requires done == Whole(s.fileSize) && done + n == s.fileSize && CopyLength(n) == n
    requires s.offset + done + n <= |data| && Partly(m1, data, s, done)
    requires m1[LOAD_BUFFER..LOAD_BUFFER + n] == data[s.offset + done..s.offset + done + n]
    ensures Partly(Copied(m1, s, done, n), data, s, done + n)
  {
    hide Whole, Copied, Overlay, Partly;
    var part := data[s.offset + done..s.offset + done + n];
    CopiedTail(m1, s, done, n, part);
    ZerosBefore(m1, data, s, done);
    OverZeros(m1, s.vaddr + done, part, s.vaddr, s.vaddr + s.memSize);
    PartlyOverlaid(Overlay(m1, s.vaddr + done, part), data, s, done, n);
  }

  lemma CopiedTail(m1: seq<byte>, s: Segment, done: nat, n: nat, part: seq<byte>)
    requires n <= LOAD_SIZE && CopyLength(n) == n && LOAD_BUFFER + LOAD_SIZE <= |m1| && s.vaddr + done + n <= |m1|
    requires m1[LOAD_BUFFER..LOAD_BUFFER + n] == part
    ensures Copied(m1, s, done, n) == Overlay(m1, s.vaddr + done, part)
  {
    hide Overlay;
  }

  lemma ZerosBefore(m: seq<byte>, data: seq<byte>, s: Segment, done: nat)
    requires SegmentOk(s, |m|) && done == Whole(s.fileSize) && s.offset + done <= |data| && Partly(m, data, s, done)
    ensures forall a | s.vaddr <= a < s.vaddr + s.memSize :: m[a] == 0
  {
    hide Whole;
  }

  lemma PartlyOverlaid(m: seq<byte>, data: seq<byte>, s: Segment, done: nat, n: nat)
    requires SegmentOk(s, |m|) && done == Whole(s.fileSize) && done + n == s.fileSize && s.offset + s.fileSize <= |data|
    requires var lo, part := s.vaddr + done, data[s.offset + done..s.offset + done + n];
             forall a | s.vaddr <= a < s.vaddr + s.memSize :: m[a] == if lo <= a < lo + n then part[a - lo] else 0
    ensures Partly(m, data, s, done + n)
  {
    hide Whole;
    var lo, part := s.vaddr + done, data[s.offset + done..s.offset + done + n];
    forall a | s.vaddr <= a < s.vaddr + s.memSize
      ensures m[a] == if done <= a - s.vaddr < done + n then data[s.offset + (a - s.vaddr)] else 0
    {
      if lo <= a < lo + n { SliceAt(data, s.offset + done, n, a - lo); }
    }
  }

  lemma OverZeros(m: seq<byte>, lo: nat, part: seq<byte>, from: nat, to: nat)
    requires from <= lo && lo + |part| <= to <= |m| && forall a | from <= a < to :: m[a] == 0
    ensures forall a | from <= a < to :: Overlay(m, lo, part)[a] == if lo <= a < lo + |part| then part[a - lo] else 0
  {
  }

  lemma SliceAt(data: seq<byte>, o: nat, n: nat, k: nat)
    requires o + n <= |data| && k < n
    ensures data[o..o + n][k] == data[o + k]
  {
  }

  /** The copy stays inside the segment. */
  lemma PassFrame(m: seq<byte>, m1: seq<byte>, s: Segment, done: nat, n: nat, f: nat)
    requires SegmentOk(s, |m|) && LOAD_BUFFER + LOAD_SIZE <= |m| && n <= LOAD_SIZE && done + n <= s.fileSize
    requires Frame(m, m1, f, 0, 0) && HEADER_BUFFER <= f <= LOAD_BUFFER - 4
    ensures Frame(m, Copied(m1, s, done, n), f, s.vaddr, s.vaddr + s.memSize)
    ensures Word(Copied(m1, s, done, n), f) == Word(m1, f)
  {
    var m2 := Copied(m1, s, done, n);
    forall a | 0 <= a < |m| && Free(a, f, s.vaddr, s.vaddr + s.memSize) ensures m2[a] == m[a] {
      assert Free(a, f, 0, 0);
    }
    assert m2[f..f + 4] == m1[f..f + 4];
  }

  lemma FrameWidens(m: seq<byte>, m': seq<byte>, f: nat, lo: nat, hi: nat)
    requires Frame(m, m', f, 0, 0)
    ensures Frame(m, m', f, lo, hi)
  {
    assert forall a | Free(a, f, lo, hi) :: Free(a, f, 0, 0);
  }

  // ----- the whole file

  /** Where the loader keeps program header j. */
  function EntryAddress(j: nat, size: nat): nat {
    HEADER_BUFFER + EntryOffset(j, size)
  }

  /** Neither a buffer of the loader nor part of a loadable segment. */
  predicate Elsewhere(segments: seq<Segment>, a: nat) {
    !(HEADER_BUFFER <= a < RESERVED_END) && forall j | 0 <= j < |segments| :: !Inside(segments[j], a)
  }

  ghost predicate KeptElsewhere(m: seq<byte>, m': seq<byte>, segments: seq<Segment>) {
    |m'| == |m| && forall a | 0 <= a < |m| && Elsewhere(segments, a) :: m'[a] == m[a]
  }

  ghost predicate AllPlaced(m: seq<byte>, data: seq<byte>, segments: seq<Segment>, n: nat)
    requires n <= |segments|
  {
    forall j | 0 <= j < n && segments[j].kind == PT_LOAD :: Placed(m, data, segments[j])
  }

  ghost predicate AllFaithful(m: seq<byte>, data: seq<byte>, segments: seq<Segment>) {
    forall j | 0 <= j < |segments| && segments[j].kind == PT_LOAD :: Faithful(m, data, segments[j])
  }

  /** Every loadable segment has only zeros in its whole 64 KB chunks, as it does when it is
      smaller than that. */
  predicate NothingLost(data: seq<byte>, segments: seq<Segment>)
    requires AllInFile(data, segments)
  {
    forall j | 0 <= j < |segments| && segments[j].kind == PT_LOAD ::
      ZeroFrom(data, segments[j].offset, Whole(segments[j].fileSize))
  }

  /** A loaded file is what the ABI wants exactly when no segment loses a chunk. */
  lemma LoadedFaithfully(m: seq<byte>, data: seq<byte>, segments: seq<Segment>)
    requires AllInFile(data, segments) && AllPlaced(m, data, segments, |segments|)
    ensures AllFaithful(m, data, segments) <==> NothingLost(data, segments)
    ensures (forall j | 0 <= j < |segments| && segments[j].kind == PT_LOAD :: segments[j].fileSize < LOAD_SIZE) ==>
              AllFaithful(m, data, segments)
  {
    forall j | 0 <= j < |segments| && segments[j].kind == PT_LOAD
      ensures Faithful(m, data, segments[j]) <==> ZeroFrom(data, segments[j].offset, Whole(segments[j].fileSize))
      ensures segments[j].fileSize < LOAD_SIZE ==> Faithful(m, data, segments[j])
    {
      PlacedFaithful(m, data, segments[j]);
    }
    hide Faithful, ZeroFrom, Whole;
  }

  // ----- the loop over the program headers

  /** Only the load buffer, the program header at p and the segment itself changed. */
  ghost predicate Untouched(m: seq<byte>, m': seq<byte>, p: nat, s: Segment) {
    && |m'| == |m|
    && forall a | 0 <= a < |m| && !(LOAD_BUFFER <= a < RESERVED_END)
                  && !(p <= a < p + PROGRAM_HEADER_SIZE) && !(s.vaddr <= a < s.vaddr + s.memSize) :: m'[a] == m[a]
  }

  /** The headers from i on are still as they were read. */
  ghost predicate HeadersFrom(m: seq<byte>, segments: seq<Segment>, size: nat, i: nat) {
    && RESERVED_END <= |m|
    && forall j | i <= j < |segments| ::
         && EntryAddress(j, size) + PROGRAM_HEADER_SIZE <= LOAD_BUFFER
         && SegmentAt(m, EntryAddress(j, size)) == segments[j]
  }

  lemma HeadersKept(m: seq<byte>, m': seq<byte>, segments: seq<Segment>, size: nat, i: nat)
    requires i < |segments| && size >= PROGRAM_HEADER_SIZE && HeadersFrom(m, segments, size, i)
    requires SegmentOk(segments[i], |m|) && Untouched(m, m', EntryAddress(i, size), segments[i])
    ensures HeadersFrom(m', segments, size, i + 1)
  {
    forall j | i + 1 <= j < |segments|
      ensures EntryAddress(j, size) + PROGRAM_HEADER_SIZE <= LOAD_BUFFER
      ensures SegmentAt(m', EntryAddress(j, size)) == segments[j]
    {
      EntriesApart(i, j, size);
      HeaderKept(m, m', EntryAddress(i, size), segments[i], EntryAddress(j, size));
    }
  }

  lemma HeaderKept(m: seq<byte>, m': seq<byte>, p: nat, s: Segment, q: nat)
    requires SegmentOk(s, |m|) && Untouched(m, m', p, s)
    requires HEADER_BUFFER <= q && q + PROGRAM_HEADER_SIZE <= LOAD_BUFFER <= |m|
    requires p + PROGRAM_HEADER_SIZE <= q || q + PROGRAM_HEADER_SIZE <= p
    ensures SegmentAt(m', q) == SegmentAt(m, q)
  {
    assert m'[q..q + 4] == m[q..q + 4];
    assert m'[q + 4..q + 8] == m[q + 4..q + 8];
    assert m'[q + 8..q + 12] == m[q + 8..q + 12];
    assert m'[q + 16..q + 20] == m[q + 16..q + 20];
    assert m'[q + 20..q + 24] == m[q + 20..q + 24];
  }

  lemma StillPlaced(m: seq<byte>, m': seq<byte>, data: seq<byte>, p: nat, s: Segment, t: Segment)
    requires Placed(m, data, t) && SegmentOk(t, |m|) && Untouched(m, m', p, s) && Apart(t, s)
    requires HEADER_BUFFER <= p && p + PROGRAM_HEADER_SIZE <= LOAD_BUFFER
    ensures Placed(m', data, t)
  {
    hide Whole;
  }

  lemma AllStillPlaced(m: seq<byte>, m': seq<byte>, data: seq<byte>, segments: seq<Segment>, p: nat, i: nat)
    requires i < |segments| && segments[i].kind == PT_LOAD && SegmentsOk(segments, |m|)
    requires AllPlaced(m, data, segments, i) && Placed(m', data, segments[i])
    requires Untouched(m, m', p, segments[i]) && HEADER_BUFFER <= p && p + PROGRAM_HEADER_SIZE <= LOAD_BUFFER
    ensures AllPlaced(m', data, segments, i + 1)
  {
    hide Placed, Untouched, SegmentOk, Apart;
    forall j | 0 <= j < i && segments[j].kind == PT_LOAD ensures Placed(m', data, segments[j]) {
      StillPlaced(m, m', data, p, segments[i], segments[j]);
    }
  }

  lemma KeptWhenUntouched(m0: seq<byte>, m: seq<byte>, m': seq<byte>, segments: seq<Segment>, p: nat, i: nat)
    requires i < |segments| && segments[i].kind == PT_LOAD && KeptElsewhere(m0, m, segments)
    requires Untouched(m, m', p, segments[i]) && HEADER_BUFFER <= p && p + PROGRAM_HEADER_SIZE <= LOAD_BUFFER
    ensures KeptElsewhere(m0, m', segments)
  {
    forall a | 0 <= a < |m| && Elsewhere(segments, a) ensures m'[a] == m0[a] {
      assert !Inside(segments[i], a);
    }
  }

  /** Memory before program header i is looked at. */
  ghost predicate Loading(m0: seq<byte>, m: seq<byte>, data: seq<byte>, segments: seq<Segment>, size: nat, i: nat) {
    && i <= |segments| && (|segments| > 0 ==> size >= PROGRAM_HEADER_SIZE) && SegmentsOk(segments, |m|)
    && HeadersFrom(m, segments, size, i) && AllPlaced(m, data, segments, i) && KeptElsewhere(m0, m, segments)
    && InFileTo(data, segments, i)
  }

  predicate InFileTo(data: seq<byte>, segments: seq<Segment>, n: nat)
    requires n <= |segments|
  {
    forall j | 0 <= j < n && segments[j].kind == PT_LOAD :: InFile(data, segments[j])
  }

  lemma LoadingNext(m0: seq<byte>, m: seq<byte>, m': seq<byte>, data: seq<byte>, segments: seq<Segment>, size: nat,
                    i: nat)
    requires Loading(m0, m, data, segments, size, i) && i < |segments| && segments[i].kind == PT_LOAD
    requires Untouched(m, m', EntryAddress(i, size), segments[i]) && Placed(m', data, segments[i])
    ensures Loading(m0, m', data, segments, size, i + 1)
  {
    hide SegmentsOk, HeadersFrom, AllPlaced, KeptElsewhere, InFileTo, Untouched, Placed, EntryAddress;
    var p := EntryAddress(i, size);
    HeaderAddress(m, segments, size, i);
    SegmentFacts(segments, |m|, i);
    InFileNext(m', data, segments, i);
    SameLength(m, m', p, segments[i]);
    HeadersKept(m, m', segments, size, i);
    AllStillPlaced(m, m', data, segments, p, i);
    KeptWhenUntouched(m0, m, m', segments, p, i);
  }

  lemma HeaderAddress(m: seq<byte>, segments: seq<Segment>, size: nat, i: nat)
    requires HeadersFrom(m, segments, size, i) && i < |segments|
    ensures HEADER_BUFFER <= EntryAddress(i, size) && EntryAddress(i, size) + PROGRAM_HEADER_SIZE <= LOAD_BUFFER < |m|
    ensures SegmentAt(m, EntryAddress(i, size)) == segments[i]
  {
    hide SegmentAt;
  }

  lemma SegmentFacts(segments: seq<Segment>, memory: nat, i: nat)
    requires SegmentsOk(segments, memory) && i < |segments| && segments[i].kind == PT_LOAD
    ensures SegmentOk(segments[i], memory)
  {
  }

  lemma InFileNext(m: seq<byte>, data: seq<byte>, segments: seq<Segment>, i: nat)
    requires i < |segments| && InFileTo(data, segments, i) && Placed(m, data, segments[i])
    ensures InFileTo(data, segments, i + 1)
  {
    hide Partly;
  }

  lemma SameLength(m: seq<byte>, m': seq<byte>, p: nat, s: Segment)
    requires Untouched(m, m', p, s)
    ensures |m'| == |m|
  {
  }

  lemma LoadingSkips(m0: seq<byte>, m: seq<byte>, data: seq<byte>, segments: seq<Segment>, size: nat, i: nat)
    requires Loading(m0, m, data, segments, size, i) && i < |segments| && segments[i].kind != PT_LOAD
    ensures Loading(m0, m, data, segments, size, i + 1)
  {
    hide InFile, SegmentOk, Placed, SegmentAt;
  }
}

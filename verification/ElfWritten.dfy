/** Executables that were written field by field, in the layout of chapters 4 and 5 of the System V
    ABI, and what loading them leaves in memory. */
module ElfWritten {
  import opened Bytes
  import opened ElfImage
  import opened ElfLoader
  import opened FatHandle
  import opened FatLookups
  import opened FatReader
  import opened FatVolume

  // ----- writing an executable

  datatype Header = Header(ident: seq<byte>, kind: u16, machine: u16, version: u32, entry: u32, phoff: u32, shoff: u32,
                           flags: u32, ehsize: u16, phentsize: u16, phnum: u16, shentsize: u16, shnum: u16,
                           shstrndx: u16)

  datatype Program = Program(kind: u32, offset: u32, vaddr: u32, paddr: u32, fileSize: u32, memSize: u32, flags: u32,
                             align: u32)

  function HeaderBytes(h: Header): (b: seq<byte>)
    requires |h.ident| == 16
    ensures |b| == 52
  {
    h.ident + HalfBytes([h.kind, h.machine]) + WordBytes([h.version, h.entry, h.phoff, h.shoff, h.flags])
    + HalfBytes([h.ehsize, h.phentsize, h.phnum, h.shentsize, h.shnum, h.shstrndx])
  }

  function ProgramBytes(p: Program): (b: seq<byte>)
    ensures |b| == 32
  {
    WordBytes([p.kind, p.offset, p.vaddr, p.paddr, p.fileSize, p.memSize, p.flags, p.align])
  }

  function TableBytes(programs: seq<Program>): (b: seq<byte>)
    ensures |b| == 32 * |programs|
  {
    if programs == [] then [] else ProgramBytes(programs[0]) + TableBytes(programs[1..])
  }

  /** The file starts with this header, and the table of these programs is where the header says,
      behind it. */
  ghost predicate Written(data: seq<byte>, h: Header, programs: seq<Program>) {
    && |h.ident| == 16 && 52 <= |data| < TWO32 && data[..52] == HeaderBytes(h)
    && h.phentsize == 32 && h.phnum == |programs| && 52 <= h.phoff && h.phoff + 32 * |programs| <= |data|
    && data[h.phoff..h.phoff + 32 * |programs|] == TableBytes(programs)
  }

  // ----- reading it

  lemma HeaderFields(data: seq<byte>, h: Header)
    requires |h.ident| == 16 && 52 <= |data| && data[..52] == HeaderBytes(h)
    ensures Word(data, 24) == h.entry && Word(data, 28) == h.phoff
    ensures Half(data, 42) == h.phentsize && Half(data, 44) == h.phnum
  {
    var a, b := HalfBytes([h.kind, h.machine]), WordBytes([h.version, h.entry, h.phoff, h.shoff, h.flags]);
    var c := HalfBytes([h.ehsize, h.phentsize, h.phnum, h.shentsize, h.shnum, h.shstrndx]);
    hide HalfBytes, WordBytes, Word, Half;
    Pieces(data, h.ident, a, b, c);
    WordWritten(data, 20, [h.version, h.entry, h.phoff, h.shoff, h.flags], 1);
    WordWritten(data, 20, [h.version, h.entry, h.phoff, h.shoff, h.flags], 2);
    HalfWritten(data, 40, [h.ehsize, h.phentsize, h.phnum, h.shentsize, h.shnum, h.shstrndx], 1);
    HalfWritten(data, 40, [h.ehsize, h.phentsize, h.phnum, h.shentsize, h.shnum, h.shstrndx], 2);
  }

  lemma Pieces(data: seq<byte>, i: seq<byte>, a: seq<byte>, b: seq<byte>, c: seq<byte>)
    requires |i| == 16 && |a| == 4 && |b| == 20 && |c| == 12 && 52 <= |data| && data[..52] == i + a + b + c
    ensures data[20..40] == b && data[40..52] == c
  {
    assert data[20..40] == data[..52][20..40] && data[40..52] == data[..52][40..52];
  }

  lemma {:induction false} ProgramInTable(programs: seq<Program>, i: nat)
    requires i < |programs|
    ensures TableBytes(programs)[32 * i..32 * i + 32] == ProgramBytes(programs[i])
  {
    hide ProgramBytes;
    if i > 0 {
      ProgramInTable(programs[1..], i - 1);
      SliceBehind(ProgramBytes(programs[0]), TableBytes(programs[1..]), 32 * (i - 1), 32 * i);
    }
  }

  /** What the loader takes from a program header. */
  lemma SegmentWritten(m: seq<byte>, o: nat, p: Program)
    requires o + 32 <= |m| && m[o..o + 32] == ProgramBytes(p)
    ensures SegmentAt(m, o) == Segment(p.kind, p.offset, p.vaddr, p.fileSize, p.memSize)
  {
    var words := [p.kind, p.offset, p.vaddr, p.paddr, p.fileSize, p.memSize, p.flags, p.align];
    hide WordBytes, Word;
    WordWritten(m, o, words, 0);
    WordWritten(m, o, words, 1);
    WordWritten(m, o, words, 2);
    WordWritten(m, o, words, 4);
    WordWritten(m, o, words, 5);
  }

  function SegmentOf(p: Program): Segment {
    Segment(p.kind, p.offset, p.vaddr, p.fileSize, p.memSize)
  }

  /** The segments are those of the programs. */
  predicate Same(segments: seq<Segment>, programs: seq<Program>) {
    && |segments| == |programs|
    && forall i | 0 <= i < |programs| :: segments[i] == SegmentOf(programs[i])
  }

  /** The loader finds exactly the programs that were written. */
  lemma SegmentsWritten(data: seq<byte>, h: Header, programs: seq<Program>)
    requires Written(data, h, programs)
    ensures HasTable(data) && EntrySize(data) == 32 && Same(Segments(data), programs)
  {
    hide HeaderBytes, TableBytes, Word, Half, HasTable, Segments, SegmentAt, SegmentOf, EntrySize, EntryCount;
    HeaderFields(data, h);
    TableFound(data, h.phoff, |programs|);
    forall i | 0 <= i < |programs| ensures Segments(data)[i] == SegmentOf(programs[i]) {
      ProgramWritten(data, h, programs, i);
    }
  }

  lemma ProgramWritten(data: seq<byte>, h: Header, programs: seq<Program>, i: nat)
    requires Written(data, h, programs) && i < |programs|
    ensures SegmentAt(data, h.phoff + 32 * i) == SegmentOf(programs[i])
  {
    hide HeaderBytes, ProgramBytes, SegmentAt;
    ProgramInTable(programs, i);
    SliceOfSlice(data, h.phoff, h.phoff + 32 * |programs|, 32 * i, 32 * i + 32);
    SegmentWritten(data, h.phoff + 32 * i, programs[i]);
  }

  lemma TableFound(data: seq<byte>, phoff: nat, n: nat)
    requires 52 <= |data| < TWO32 && 52 <= phoff && phoff + 32 * n <= |data|
    requires Word(data, 28) == phoff && Half(data, 42) == 32 && Half(data, 44) == n
    ensures HasTable(data) && EntrySize(data) == 32 && |Segments(data)| == n
    ensures forall i | 0 <= i < n ::
              phoff + 32 * i + 32 <= |data| && Segments(data)[i] == SegmentAt(data, phoff + 32 * i)
  {
    hide Word, Half, SegmentAt;
    assert Distance(phoff) == phoff - 52;
  }

  // ----- what is in memory afterwards

  /** Byte k of a program as it is loaded: its bytes of the file, except whole 64 KB chunks, which
      memcpy does not copy; zeros from the end of these on. */
  function Image(data: seq<byte>, p: Program, k: nat): byte
    requires p.offset + p.fileSize <= |data|
  {
    if p.fileSize - p.fileSize % 0x1_0000 <= k < p.fileSize then data[p.offset + k] else 0
  }

  /** Every loadable program is in the file. */
  predicate AllThere(data: seq<byte>, programs: seq<Program>) {
    forall i | 0 <= i < |programs| && programs[i].kind == 1 :: programs[i].offset + programs[i].fileSize <= |data|
  }

  /** Every loadable program is in memory. */
  ghost predicate InMemory(m: seq<byte>, data: seq<byte>, programs: seq<Program>)
    requires AllThere(data, programs)
  {
    forall i | 0 <= i < |programs| && programs[i].kind == 1 ::
      var p := programs[i];
      && p.vaddr + p.memSize <= |m| && p.fileSize <= p.memSize
      && forall k: nat | k < p.memSize :: m[p.vaddr + k] == Image(data, p, k)
  }

  /** An address is in no loadable program, and not in the loader's buffers. */
  predicate Outside(programs: seq<Program>, a: nat) {
    && !(0x3_0000 <= a < 0x5_0000)
    && forall i | 0 <= i < |programs| && programs[i].kind == 1 ::
         !(programs[i].vaddr <= a < programs[i].vaddr + programs[i].memSize)
  }

  lemma PlacedIsInMemory(m: seq<byte>, data: seq<byte>, segments: seq<Segment>, programs: seq<Program>)
    requires Same(segments, programs) && AllPlaced(m, data, segments, |segments|)
    ensures AllThere(data, programs) && InMemory(m, data, programs)
  {
    forall i | 0 <= i < |programs| && programs[i].kind == 1
      ensures var p := programs[i];
              && p.offset + p.fileSize <= |data| && p.vaddr + p.memSize <= |m| && p.fileSize <= p.memSize
              && forall k: nat | k < p.memSize :: m[p.vaddr + k] == Image(data, p, k)
    {
      assert segments[i].kind == PT_LOAD;
      ImageOfPlaced(m, data, programs[i]);
    }
    hide Image;
  }

  lemma ImageOfPlaced(m: seq<byte>, data: seq<byte>, p: Program)
    requires Placed(m, data, SegmentOf(p))
    ensures p.offset + p.fileSize <= |data| && p.vaddr + p.memSize <= |m| && p.fileSize <= p.memSize
    ensures forall k: nat | k < p.memSize :: m[p.vaddr + k] == Image(data, p, k)
  {
    forall k: nat | k < p.memSize ensures m[p.vaddr + k] == Image(data, p, k) {
      var a := p.vaddr + k;
      assert p.vaddr <= a < p.vaddr + p.memSize;
    }
  }

  /** The part of a program behind its bytes of the file is zero, whatever memory held; and a program
      of less than 64 KB is all there. */
  lemma ZeroBehind(m: seq<byte>, data: seq<byte>, programs: seq<Program>, i: nat)
    requires AllThere(data, programs) && InMemory(m, data, programs) && i < |programs| && programs[i].kind == 1
    ensures var p := programs[i];
            && p.vaddr + p.memSize <= |m|
            && (forall a | p.vaddr + p.fileSize <= a < p.vaddr + p.memSize :: m[a] == 0)
            && (p.fileSize < 0x1_0000 ==>
                  m[p.vaddr..p.vaddr + p.fileSize] == data[p.offset..p.offset + p.fileSize])
  {
    var p := programs[i];
    forall a | p.vaddr + p.fileSize <= a < p.vaddr + p.memSize ensures m[a] == 0 {
      var k: nat := a - p.vaddr;
      assert m[p.vaddr + k] == Image(data, p, k);
    }
    if p.fileSize < 0x1_0000 {
      var l, r := m[p.vaddr..p.vaddr + p.fileSize], data[p.offset..p.offset + p.fileSize];
      forall k: nat | k < p.fileSize ensures l[k] == r[k] {
        assert m[p.vaddr + k] == Image(data, p, k);
      }
    }
  }

  // ----- loading it

  /** What the loader demands, of the values that were written: the header table and the way to it
      take at most 64 KB, and loadable programs lie in memory, away from the loader and each other. */
  predicate Suitable(h: Header, programs: seq<Program>, memory: nat) {
    && 0x5_0000 <= memory <= TWO32 && h.phoff <= 52 + 0x1_0000 && 32 * |programs| <= 0x1_0000
    && (forall i | 0 <= i < |programs| && programs[i].kind == 1 ::
          && programs[i].fileSize <= programs[i].memSize && programs[i].vaddr + programs[i].memSize <= memory
          && (programs[i].vaddr + programs[i].memSize <= 0x2_0000 || 0x5_0000 <= programs[i].vaddr))
    && forall i, j | 0 <= i < j < |programs| && programs[i].kind == programs[j].kind == 1 ::
         || programs[i].vaddr + programs[i].memSize <= programs[j].vaddr
         || programs[j].vaddr + programs[j].memSize <= programs[i].vaddr
  }

  lemma SuitableIsLoadable(data: seq<byte>, h: Header, programs: seq<Program>, memory: nat)
    requires Written(data, h, programs) && Suitable(h, programs, memory)
    ensures Loadable(data, memory)
  {
    hide HeaderBytes, TableBytes, Word, Half, Segments, SegmentsOk, Suitable, HasTable, EntrySize, EntryCount,
      TableSize, Skipped, Same;
    SegmentsWritten(data, h, programs);
    HeaderFields(data, h);
    SuitableSizes(h, programs, memory);
    SizesWritten(data, h.phoff, |programs|);
    SuitableSegments(Segments(data), h, programs, memory);
  }

  lemma SizesWritten(data: seq<byte>, phoff: nat, n: nat)
    requires 52 <= |data| && 52 <= phoff < TWO32
    requires Word(data, 28) == phoff && Half(data, 42) == 32 && Half(data, 44) == n
    ensures Skipped(data) <= phoff - 52 && TableSize(data) == 32 * n
  {
    hide Word, Half;
    assert Distance(phoff) == phoff - 52;
  }

  lemma SuitableSizes(h: Header, programs: seq<Program>, memory: nat)
    requires Suitable(h, programs, memory)
    ensures h.phoff <= 52 + 0x1_0000 && 32 * |programs| <= 0x1_0000 && 0x5_0000 <= memory <= TWO32
  {
  }

  lemma SuitableSegments(segments: seq<Segment>, h: Header, programs: seq<Program>, memory: nat)
    requires Suitable(h, programs, memory) && Same(segments, programs)
    ensures SegmentsOk(segments, memory)
  {
  }

  lemma AllThereAgrees(data: seq<byte>, segments: seq<Segment>, programs: seq<Program>)
    requires Same(segments, programs)
    ensures AllInFile(data, segments) <==> AllThere(data, programs)
  {
    if AllInFile(data, segments) {
      forall i | 0 <= i < |programs| && programs[i].kind == 1
        ensures programs[i].offset + programs[i].fileSize <= |data|
      {
        assert InFile(data, segments[i]);
      }
    }
  }

  lemma OutsideIsElsewhere(segments: seq<Segment>, programs: seq<Program>, a: nat)
    requires Same(segments, programs) && Outside(programs, a)
    ensures Elsewhere(segments, a)
  {
  }

  lemma OutsideIsKept(m0: seq<byte>, m: seq<byte>, segments: seq<Segment>, programs: seq<Program>)
    requires Same(segments, programs) && KeptElsewhere(m0, m, segments)
    ensures |m| == |m0| && forall a | 0 <= a < |m| && Outside(programs, a) :: m[a] == m0[a]
  {
    hide Outside, Same, Elsewhere;
    forall a | 0 <= a < |m| && Outside(programs, a) ensures m[a] == m0[a] {
      OutsideIsElsewhere(segments, programs, a);
    }
  }

  /** ELF_Read of an executable that was written like this: it succeeds exactly when all loadable
      programs are in the file, and then they are in memory; nothing else has changed. */
  method LoadWritten(fat: Driver, mem: array<byte>, e: DirEntry, ghost chain: seq<u32>, ghost x: Extent,
                     ghost data: seq<byte>, ghost h: Header, ghost programs: seq<Program>)
      returns (ok: bool, entryPoint: u32)
    requires CanOpen(fat, fat.Handles(), e, chain, x, data) && LoadSeen(fat.vol, x, data, fat.cachePosition)
    requires Written(data, h, programs) && Suitable(h, programs, mem.Length)
    modifies mem, fat`root, fat`files, fat`extents, fat`cache, fat`cachePosition
    ensures ok == AllThere(data, programs) && entryPoint == h.entry
    ensures forall a | 0 <= a < mem.Length && Outside(programs, a) :: mem[a] == old(mem[a])
    ensures ok ==> InMemory(mem[..], data, programs)
  {
    ghost var m0 := mem[..];
    SegmentsWritten(data, h, programs);
    HeaderFields(data, h);
    SuitableIsLoadable(data, h, programs, mem.Length);
    AllThereAgrees(data, Segments(data), programs);
    hide Loadable, LoadSeen, HasTable, AllInFile, AllPlaced, AllThere, KeptElsewhere, OnlyHeaders, Segments, Word,
      CanOpen, Driver.Valid, Driver.Handles, HeaderBytes, TableBytes, Suitable, Same, InMemory, SameHandles,
      Leaks, Outside;
    ok, entryPoint := Load(fat, mem, e, chain, x, data);
    OutsideIsKept(m0, mem[..], Segments(data), programs);
    if ok { PlacedIsInMemory(mem[..], data, Segments(data), programs); }
  }
}

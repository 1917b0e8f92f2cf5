/** Short names and directory search. */
module FatDirectory {
  import opened Bytes
  import opened FatVolume
  import opened FatHandle
  import opened FatReader
  import opened FatBoot

  const SPACE: byte := 0x20
  const DOT: byte := 0x2E

  // ----- 8.3 names

  function ToUpper(c: byte): byte {
    if 0x61 <= c <= 0x7A then c - 0x20 else c
  }

  function Upper(s: seq<byte>): (r: seq<byte>)
    ensures |r| == |s| && forall i | 0 <= i < |s| :: r[i] == ToUpper(s[i])
  {
    seq<byte>(|s|, i requires 0 <= i < |s| => ToUpper(s[i]))
  }

  /** Index of the first dot from k on, or the length. */
  function DotFrom(s: seq<byte>, k: nat): (r: nat)
    requires k <= |s|
    ensures k <= r <= |s| && (r < |s| ==> s[r] == DOT) && forall i | k <= i < r :: s[i] != DOT
    decreases |s| - k
  {
    if k == |s| || s[k] == DOT then k else DotFrom(s, k + 1)
  }

  function Pad(s: seq<byte>, n: nat): (r: seq<byte>)
    requires |s| <= n
    ensures |r| == n && r[..|s|] == s
    ensures forall i | |s| <= i < n :: r[i] == SPACE
  {
    s + seq<byte>(n - |s|, _ => SPACE)
  }

  function Front(s: seq<byte>, n: nat): (r: seq<byte>)
    ensures |r| <= n
  {
    if |s| <= n then s else s[..n]
  }

  /** The part before the dot; a name without one is cut after eight characters. */
  function Base(name: seq<byte>): (r: seq<byte>)
    ensures |r| <= 8
  {
    Front(name[..DotFrom(name, 0)], 8)
  }

  /** The part after the first dot. A dot at index 11 is not seen, because that is where a
      missing extension is taken to start. */
  function Extension(name: seq<byte>): (r: seq<byte>)
    ensures |r| <= 3
  {
    var d := DotFrom(name, 0);
    if d == |name| || d == 11 then [] else Front(name[d + 1..], 3)
  }

  function ShortName(name: seq<byte>): (r: seq<byte>)
    ensures |r| == 11
  {
    Pad(Upper(Base(name)), 8) + Pad(Upper(Extension(name)), 3)
  }

  /** FAT_GetShortName. The name has no zero byte; its end stands for the terminator. */
  method GetShortName(name: seq<byte>) returns (shortName: array<byte>)
    ensures fresh(shortName) && shortName.Length == 12
    ensures shortName[..11] == ShortName(name) && shortName[11] == 0
  {
    shortName := new byte[12](_ => SPACE);
    shortName[11] := 0;
    var d := 0;
    while d < |name| && name[d] != DOT
      invariant d <= |name| && DotFrom(name, d) == DotFrom(name, 0)
    {
      d := d + 1;
    }
    var ext := if d < |name| then d else 11;
    CopyField(shortName, 0, 8, name[..Min(ext, |name|)]);
    if ext != 11 {
      CopyField(shortName, 8, 3, name[ext + 1..]);
    } else {
      assert shortName[8..11] == Pad(Upper([]), 3);
    }
    hide Pad, Upper;
    assert Front(name[..Min(ext, |name|)], 8) == Base(name);
    assert shortName[..11] == shortName[..8] + shortName[8..11];
  }

  /** Copies up to n characters of src, in upper case, into the n blanks at offset o. */
  method CopyField(dst: array<byte>, o: nat, n: nat, src: seq<byte>)
    requires o + n <= dst.Length && forall k | o <= k < o + n :: dst[k] == SPACE
    modifies dst
    ensures dst[o..o + n] == Pad(Upper(Front(src, n)), n)
    ensures forall k | 0 <= k < dst.Length && !(o <= k < o + n) :: dst[k] == old(dst[k])
  {
    var i := 0;
    while i < n && i < |src|
      invariant i <= n && i <= |src|
      invariant forall k | 0 <= k < dst.Length ::
                  dst[k] == if o <= k < o + i then ToUpper(src[k - o]) else old(dst[k])
    {
      dst[o + i] := ToUpper(src[i]);
      i := i + 1;
    }
    var f := Front(src, n);
    assert |f| == i && forall k | 0 <= k < i :: f[k] == src[k];
  }

  /** Small letters become the same capital letters, and nothing else changes. */
  predicate Capital(c: byte, u: byte) {
    if 'a' as int <= c <= 'z' as int then u - 'A' as int == c - 'a' as int else u == c
  }

  /** The eight bytes of the base and the three of the extension, letter by letter. */
  lemma ShortNameSpelled(base: seq<byte>, ext: seq<byte>)
    requires |base| <= 8 && |ext| <= 3 && DOT !in base
    ensures var s := ShortName(if ext == [] then base else base + [DOT] + ext);
            && |s| == 11
            && (forall k | 0 <= k < |base| :: Capital(base[k], s[k]))
            && (forall k | |base| <= k < 8 :: s[k] == ' ' as int)
            && (forall k | 0 <= k < |ext| :: Capital(ext[k], s[8 + k]))
            && (forall k | 8 + |ext| <= k < 11 :: s[k] == ' ' as int)
  {
    var name := if ext == [] then base else base + [DOT] + ext;
    PartsSpelled(base, ext);
    hide Base, Extension;
    var b, e := Pad(Upper(base), 8), Pad(Upper(ext), 3);
    assert ShortName(name) == b + e;
    assert forall k | 0 <= k < |base| :: b[k] == Upper(base)[k];
    assert forall k | 0 <= k < |ext| :: e[k] == Upper(ext)[k];
  }

  lemma PartsSpelled(base: seq<byte>, ext: seq<byte>)
    requires |base| <= 8 && |ext| <= 3 && DOT !in base
    ensures var name := if ext == [] then base else base + [DOT] + ext;
            Base(name) == base && Extension(name) == ext
  {
    var name := if ext == [] then base else base + [DOT] + ext;
    assert forall k | 0 <= k < |base| :: name[k] == base[k];
    if ext == [] {
      assert name[..|base|] == base;
    } else {
      assert name[|base|] == DOT;
      assert DotFrom(name, 0) == |base| && name[..|base|] == base && name[|base| + 1..] == ext;
    }
  }

  predicate PlainPart(s: seq<byte>) {
    forall i | 0 <= i < |s| :: s[i] != DOT && s[i] != SPACE && s[i] != 0
  }

  /** One to eight plain characters, and optionally a dot and one to three more. */
  predicate Valid83(name: seq<byte>) {
    var d := DotFrom(name, 0);
    && 1 <= d <= 8 && PlainPart(name[..d])
    && (d < |name| ==> 1 <= |name[d + 1..]| <= 3 && PlainPart(name[d + 1..]))
  }

  /** Two 8.3 names become the same directory bytes exactly when they are equal up to case. */
  lemma ShortNamesMatch(a: seq<byte>, b: seq<byte>)
    requires Valid83(a) && Valid83(b)
    ensures ShortName(a) == ShortName(b) <==> Upper(a) == Upper(b)
  {
    NameParts(a);
    NameParts(b);
    if ShortName(a) == ShortName(b) {
      assert ShortName(a)[..8] == Pad(Upper(Base(a)), 8) && ShortName(b)[..8] == Pad(Upper(Base(b)), 8);
      assert ShortName(a)[8..] == Pad(Upper(Extension(a)), 3) && ShortName(b)[8..] == Pad(Upper(Extension(b)), 3);
      UpperPlain(Base(a));
      UpperPlain(Base(b));
      UpperPlain(Extension(a));
      UpperPlain(Extension(b));
      PadInjective(Upper(Base(a)), Upper(Base(b)), 8);
      PadInjective(Upper(Extension(a)), Upper(Extension(b)), 3);
      SameParts(a, b);
    }
    if Upper(a) == Upper(b) {
      SameUpper(a, b);
    }
  }

  lemma NameParts(name: seq<byte>)
    requires Valid83(name)
    ensures var d := DotFrom(name, 0);
            && Base(name) == name[..d] && PlainPart(Base(name))
            && Extension(name) == (if d < |name| then name[d + 1..] else []) && PlainPart(Extension(name))
            && (d < |name| <==> Extension(name) != [])
  {
    BaseIs(name);
    ExtensionIs(name);
    hide Base, Extension, DotFrom;
  }

  lemma BaseIs(name: seq<byte>)
    requires DotFrom(name, 0) <= 8
    ensures Base(name) == name[..DotFrom(name, 0)]
  {
    FrontWhole(name[..DotFrom(name, 0)], 8);
    hide DotFrom, Front;
  }

  lemma ExtensionIs(name: seq<byte>)
    requires var d := DotFrom(name, 0); d <= 8 && (d < |name| ==> |name[d + 1..]| <= 3)
    ensures var d := DotFrom(name, 0); Extension(name) == if d < |name| then name[d + 1..] else []
  {
    var d := DotFrom(name, 0);
    if d < |name| { FrontWhole(name[d + 1..], 3); }
    hide DotFrom, Front;
  }

  lemma FrontWhole(s: seq<byte>, n: nat)
    requires |s| <= n
    ensures Front(s, n) == s
  {
  }

  lemma UpperPlain(s: seq<byte>)
    requires PlainPart(s)
    ensures PlainPart(Upper(s))
  {
  }

  lemma PadInjective(s: seq<byte>, t: seq<byte>, n: nat)
    requires |s| <= n && |t| <= n && PlainPart(s) && PlainPart(t) && Pad(s, n) == Pad(t, n)
    ensures s == t
  {
    var r := Pad(s, n);
    assert |s| < n ==> r[|s|] == SPACE;
    assert |t| < n ==> r[|t|] == SPACE;
    assert forall i | 0 <= i < |s| :: r[i] == s[i];
    assert forall i | 0 <= i < |t| :: r[i] == t[i];
  }

  /** A valid name is its base, and a dot and its extension if it has one. */
  lemma UpperOfParts(name: seq<byte>)
    requires Valid83(name)
    ensures var e := Upper(Extension(name));
            Upper(name) == Upper(Base(name)) + if e == [] then [] else [DOT] + e
  {
    UpperParts(name);
    NameParts(name);
    var d := DotFrom(name, 0);
    assert d < |name| ==> Upper(name)[d] == ToUpper(DOT) == DOT;
    hide *;
    SplitAt(Upper(name), d);
  }

  lemma SplitAt(u: seq<byte>, d: nat)
    requires d <= |u|
    ensures u == if d < |u| then u[..d] + ([u[d]] + u[d + 1..]) else u[..d]
  {
  }

  lemma SameParts(a: seq<byte>, b: seq<byte>)
    requires Valid83(a) && Valid83(b)
    requires Upper(Base(a)) == Upper(Base(b)) && Upper(Extension(a)) == Upper(Extension(b))
    ensures Upper(a) == Upper(b)
  {
    UpperOfParts(a);
    UpperOfParts(b);
  }

  lemma SameUpper(a: seq<byte>, b: seq<byte>)
    requires Valid83(a) && Valid83(b) && Upper(a) == Upper(b)
    ensures ShortName(a) == ShortName(b)
  {
    SameDot(a, b);
    UpperParts(a);
    UpperParts(b);
  }

  lemma UpperParts(name: seq<byte>)
    requires Valid83(name)
    ensures var d := DotFrom(name, 0);
            && d <= |Upper(name)|
            && Upper(Base(name)) == Upper(name)[..d]
            && Upper(Extension(name)) == (if d < |name| then Upper(name)[d + 1..] else [])
  {
    NameParts(name);
    hide Valid83, PlainPart, DotFrom, Upper, Base, Extension;
    var d := DotFrom(name, 0);
    UpperSlice(name, 0, d);
    assert name[0..d] == name[..d] && Upper(name)[0..d] == Upper(name)[..d];
    if d < |name| {
      UpperSlice(name, d + 1, |name|);
      assert name[d + 1..|name|] == name[d + 1..];
    } else {
      UpperSlice(name, 0, 0);
    }
  }

  lemma UpperSlice(s: seq<byte>, i: nat, j: nat)
    requires i <= j <= |s|
    ensures Upper(s[i..j]) == Upper(s)[i..j]
  {
    hide Upper, ToUpper;
    var l, r := Upper(s[i..j]), Upper(s)[i..j];
    assert |l| == |r| == j - i;
    forall k | 0 <= k < j - i ensures l[k] == r[k] {
      assert l[k] == ToUpper(s[i..j][k]) && s[i..j][k] == s[i + k];
    }
  }

  lemma SameDot(a: seq<byte>, b: seq<byte>)
    requires Upper(a) == Upper(b)
    ensures |a| == |b| && DotFrom(a, 0) == DotFrom(b, 0)
  {
    var d, e := DotFrom(a, 0), DotFrom(b, 0);
    assert |Upper(a)| == |Upper(b)|;
    forall i | 0 <= i < |a| ensures a[i] == DOT <==> b[i] == DOT {
      assert ToUpper(a[i]) == Upper(a)[i] == Upper(b)[i] == ToUpper(b[i]);
    }
  }

  // ----- searching a directory

  function ParseEntry(b: seq<byte>): DirEntry
    requires |b| == DIR_ENTRY_SIZE
  {
    DirEntry(b[..11], b[11], Half(b, 20), Half(b, 26), Word(b, 28))
  }

  datatype Found = NotFound | FoundAt(offset: nat)

  /** Offset of the first complete entry from the stream's position on with that name. */
  function Search(s: Stream, shortName: seq<byte>): (f: Found)
    requires s.position <= |s.data| && |shortName| == 11
    ensures f.FoundAt? ==> s.position <= f.offset && f.offset + DIR_ENTRY_SIZE <= |s.data|
    ensures f.FoundAt? ==> s.data[f.offset..f.offset + 11] == shortName
    decreases |s.data| - s.position
  {
    if s.position + DIR_ENTRY_SIZE > |s.data| then NotFound
    else if s.data[s.position..s.position + 11] == shortName then FoundAt(s.position)
    else Search(s.(position := s.position + DIR_ENTRY_SIZE), shortName)
  }

  /** Nothing before the entry found, and nothing at all when none is found, has the name. */
  lemma {:induction false} SearchIsFirst(s: Stream, shortName: seq<byte>, k: nat)
    requires s.position <= |s.data| && |shortName| == 11
    requires var o := s.position + k * DIR_ENTRY_SIZE;
             && o + DIR_ENTRY_SIZE <= |s.data|
             && (Search(s, shortName).FoundAt? ==> o < Search(s, shortName).offset)
    ensures var o := s.position + k * DIR_ENTRY_SIZE; s.data[o..o + 11] != shortName
    decreases k
  {
    if k > 0 {
      SearchIsFirst(s.(position := s.position + DIR_ENTRY_SIZE), shortName, k - 1);
    }
  }

  /** Where the search stops reading: behind the entry found, or at the end. */
  function SearchEnd(s: Stream, shortName: seq<byte>): (q: nat)
    requires s.position <= |s.data| && |shortName| == 11
    ensures s.position <= q <= |s.data|
  {
    match Search(s, shortName)
    case FoundAt(o) => o + DIR_ENTRY_SIZE
    case NotFound => |s.data|
  }

  /** FAT_FindFile: reads entry after entry until one has the name or the directory ends,
      provided that the lookups up to there find the directory's chain. */
  method FindFile(fat: Driver, h: int, name: seq<byte>) returns (found: bool, e: DirEntry)
    requires fat.Valid() && fat.Ready(h) && fat.SeesTo(h, SearchEnd(fat.StreamAt(h), ShortName(name)))
    modifies fat`root, fat`files, fat`cache, fat`cachePosition
    ensures fat.Valid() && fat.Ready(h)
    ensures var s := old(fat.StreamAt(h));
            Outcome(s, Search(s, ShortName(name)), fat.StreamAt(h), found, e)
    ensures fat.cachePosition == old(fat.WindowAt(h, SearchEnd(fat.StreamAt(h), ShortName(name))))
    ensures OnlyMoved(h, old(fat.Handles()), fat.Handles())
  {
    var shortName := GetShortName(name);
    hide ShortName, Search, Driver.SeesTo, Driver.WindowAt, Driver.StreamAt, Outcome;
    found, e := FindShort(fat, h, shortName[..11], SearchEnd(fat.StreamAt(h), ShortName(name)),
                          fat.WindowAt(h, SearchEnd(fat.StreamAt(h), ShortName(name))));
  }

  /** What a search reports, and where it leaves the stream. */
  ghost predicate Outcome(s: Stream, f: Found, t: Stream, found: bool, e: DirEntry) {
    match f
    case FoundAt(o) =>
      && o + DIR_ENTRY_SIZE <= |s.data|
      && found && e == ParseEntry(s.data[o..o + DIR_ENTRY_SIZE])
      && t == s.(position := o + DIR_ENTRY_SIZE)
    case NotFound =>
      !found && t == s.(position := |s.data|)
  }

  /** What reading one entry delivers. */
  ghost predicate EntryRead(s: Stream, t: Stream, ok: bool, b: seq<byte>) {
    && s.position <= |s.data| && ok == (s.position + DIR_ENTRY_SIZE <= |s.data|)
    && t == s.(position := Min(s.position + DIR_ENTRY_SIZE, |s.data|))
    && (ok ==> |b| == DIR_ENTRY_SIZE && b == s.data[s.position..s.position + DIR_ENTRY_SIZE])
  }

  /** Searching on from s gives what searching from s0 gives. */
  ghost predicate Searching(s0: Stream, s: Stream, wanted: seq<byte>) {
    && |wanted| == 11 && s0.position <= |s0.data| && s.position <= |s.data| && s.data == s0.data
    && Search(s, wanted) == Search(s0, wanted)
  }

  lemma SearchStep(s0: Stream, s: Stream, wanted: seq<byte>, t: Stream, ok: bool, b: seq<byte>, e: DirEntry)
    requires Searching(s0, s, wanted) && EntryRead(s, t, ok, b)
    ensures !ok ==> Outcome(s0, Search(s0, wanted), t, false, e)
    ensures ok && b[..11] == wanted ==> Outcome(s0, Search(s0, wanted), t, true, ParseEntry(b))
    ensures !ok || b[..11] == wanted ==> t.position == SearchEnd(s0, wanted)
    ensures ok && b[..11] != wanted ==> Searching(s0, t, wanted) && t.position > s.position
  {
    if ok {
      FrontOfEntry(s.data, s.position);
    }
    hide ParseEntry;
  }

  /** The next entry is read on the way to where the search stops. */
  lemma EntryOnTheWay(s0: Stream, s: Stream, wanted: seq<byte>)
    requires Searching(s0, s, wanted)
    ensures Skip(s, DIR_ENTRY_SIZE).position <= SearchEnd(s0, wanted)
  {
  }

  lemma FrontOfEntry(data: seq<byte>, p: nat)
    requires p + DIR_ENTRY_SIZE <= |data|
    ensures data[p..p + DIR_ENTRY_SIZE][..11] == data[p..p + 11]
  {
  }

  /** The loop of FAT_FindFile. */
  method FindShort(fat: Driver, h: int, wanted: seq<byte>, ghost q: nat, ghost w: u32)
        returns (found: bool, e: DirEntry)
    requires fat.Valid() && fat.Ready(h) && |wanted| == 11
    requires q == SearchEnd(fat.StreamAt(h), wanted) && fat.OnCourse(h, q, w)
    modifies fat`root, fat`files, fat`cache, fat`cachePosition
    ensures fat.Valid() && fat.Ready(h) && fat.cachePosition == w
    ensures Outcome(old(fat.StreamAt(h)), Search(old(fat.StreamAt(h)), wanted), fat.StreamAt(h), found, e)
    ensures OnlyMoved(h, old(fat.Handles()), fat.Handles())
  {
    ghost var s0, t0 := fat.StreamAt(h), fat.Handles();
    fat.NothingMoved(h);
    assert Searching(s0, s0, wanted);
    hide OnlyMoved, ParseEntry, Search, Driver.Valid, Driver.Ready, Driver.StreamAt, Driver.Handles, Outcome,
      Searching, EntryRead, SearchEnd, Driver.OnCourse, Skip;
    e := DirEntry([], 0, 0, 0, 0);
    while true
      invariant fat.Valid() && fat.Ready(h) && fat.OnCourse(h, q, w)
      invariant Searching(s0, fat.StreamAt(h), wanted) && OnlyMoved(h, t0, fat.Handles())
      decreases |s0.data| - fat.StreamAt(h).position
    {
      ghost var s, t := fat.StreamAt(h), fat.Handles();
      EntryOnTheWay(s0, s, wanted);
      var ok, b := ReadEntry(fat, h, q, w);
      OnlyMovedTransitive(h, t0, t, fat.Handles());
      SearchStep(s0, s, wanted, fat.StreamAt(h), ok, b, e);
      EntryLength(s0, s, wanted, fat.StreamAt(h), ok, b);
      if !ok {
        fat.Arrived(h, q, w);
        return false, e;
      }
      if b[..11] == wanted {
        fat.Arrived(h, q, w);
        return true, ParseEntry(b);
      }
    }
  }

  lemma EntryLength(s0: Stream, s: Stream, wanted: seq<byte>, t: Stream, ok: bool, b: seq<byte>)
    requires Searching(s0, s, wanted) && EntryRead(s, t, ok, b)
    ensures ok ==> |b| == DIR_ENTRY_SIZE && s.position < |s0.data|
  {
    hide Search;
  }

  /** FAT_ReadEntry: the next 32 bytes, if the directory has that many left. */
  method ReadEntry(fat: Driver, h: int, ghost q: nat, ghost w: u32) returns (ok: bool, b: seq<byte>)
    requires fat.Valid() && fat.Ready(h) && fat.OnCourse(h, q, w)
    requires Skip(fat.StreamAt(h), DIR_ENTRY_SIZE).position <= q
    modifies fat`root, fat`files, fat`cache, fat`cachePosition
    ensures fat.Valid() && fat.Ready(h) && fat.OnCourse(h, q, w)
    ensures EntryRead(old(fat.StreamAt(h)), fat.StreamAt(h), ok, b)
    ensures OnlyMoved(h, old(fat.Handles()), fat.Handles())
  {
    hide FileOk, RootOk, CacheOk, Buffered, StreamOf, OnlyMoved, Driver.OnCourse;
    b := fat.ReadTowards(h, DIR_ENTRY_SIZE, q, w);
    ok := |b| == DIR_ENTRY_SIZE;
  }
}

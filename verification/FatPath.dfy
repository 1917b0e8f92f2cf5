/** FAT_Open: a path is walked component by component, through directories that are opened and
    closed on the way. */
module FatPath {
  import opened Bytes
  import opened FatVolume
  import opened FatFile
  import opened FatLookups
  import opened FatHandle
  import opened FatReader
  import opened FatBoot
  import opened FatDirectory

  const NO_FILE: int := -2      // NULL
  const MAX_PATH_SIZE: nat := 256
  const SLASH: byte := 0x2F

  // ----- the names that are looked up

  /** Index of the first slash from k on, or the length. */
  function SlashFrom(s: seq<byte>, k: nat): (r: nat)
    requires k <= |s|
    ensures k <= r <= |s| && (r < |s| ==> s[r] == SLASH) && forall i | k <= i < r :: s[i] != SLASH
    decreases |s| - k
  {
    if k == |s| || s[k] == SLASH then k else SlashFrom(s, k + 1)
  }

  /** The string in the name buffer after the last component has been copied to it: its end is
      set one byte late, so that the byte in between, unless it is zero, belongs to it. */
  function LastName(buffer: seq<byte>, name: seq<byte>): seq<byte>
    requires |name| < |buffer|
  {
    if buffer[|name|] == 0 then name else name + [buffer[|name|]]
  }

  /** Every component fits the name buffer. */
  predicate Fits(path: seq<byte>)
    decreases |path|
  {
    path != [] ==>
      var d := SlashFrom(path, 0);
      if d < |path| then d < MAX_PATH_SIZE && Fits(path[d + 1..]) else d + 1 < MAX_PATH_SIZE
  }

  /** The buffer after a component that is not the last one. */
  function Copied(buffer: seq<byte>, name: seq<byte>): (r: seq<byte>)
    requires |name| < |buffer|
    ensures |r| == |buffer|
  {
    Overlay(buffer, 0, name + [0])
  }

  /** The names that are looked up, one after the other. */
  function Names(path: seq<byte>, buffer: seq<byte>): seq<seq<byte>>
    requires Fits(path) && |buffer| == MAX_PATH_SIZE
    decreases |path|
  {
    if path == [] then []
    else
      var d := SlashFrom(path, 0);
      if d < |path| then [path[..d]] + Names(path[d + 1..], Copied(buffer, path[..d])) else [LastName(buffer, path)]
  }

  function WithoutSlash(path: seq<byte>): seq<byte> {
    if path != [] && path[0] == SLASH then path[1..] else path
  }

  /** The short form of a name has no place for one more character: its extension has three, or it
      has none and the base has eight, or the dot is one that is not seen. */
  predicate Full(name: seq<byte>) {
    var d := DotFrom(name, 0);
    if d == |name| then |name| >= 8 else d == 11 || |name| - d > 3
  }

  /** The late end makes no difference, whatever byte is there, exactly then. */
  lemma LateEndHarmless(name: seq<byte>)
    ensures (forall c: byte :: ShortName(name + [c]) == ShortName(name)) <==> Full(name)
  {
    hide ShortName, Full;
    if Full(name) {
      forall c: byte ensures ShortName(name + [c]) == ShortName(name) {
        SameFields(name, c);
      }
    } else {
      OtherField(name);
    }
  }

  lemma DotAppended(name: seq<byte>, c: byte)
    ensures var d := DotFrom(name, 0);
            DotFrom(name + [c], 0) == if d < |name| || c == DOT then d else d + 1
  {
    var s := name + [c];
    assert forall i | 0 <= i < |name| :: s[i] == name[i];
    assert s[|name|] == c;
  }

  lemma SameFields(name: seq<byte>, c: byte)
    requires Full(name)
    ensures ShortName(name + [c]) == ShortName(name)
  {
    SameBase(name, c);
    SameExtension(name, c);
    hide Base, Extension, Upper, Pad, DotFrom;
  }

  lemma FrontAppended(s: seq<byte>, c: byte, n: nat)
    requires |s| >= n
    ensures Front(s + [c], n) == Front(s, n)
  {
    assert (s + [c])[..n] == s[..n];
    assert |s| == n ==> s[..n] == s;
  }

  lemma DropAppended(s: seq<byte>, c: byte, k: nat)
    requires k <= |s|
    ensures (s + [c])[k..] == s[k..] + [c]
  {
  }

  lemma TakeAppended(s: seq<byte>, c: byte, k: nat)
    requires k <= |s|
    ensures (s + [c])[..k] == s[..k] && s[..|s|] == s
  {
  }

  lemma SameBase(name: seq<byte>, c: byte)
    requires DotFrom(name, 0) == |name| ==> |name| >= 8
    ensures Base(name + [c]) == Base(name)
  {
    DotAppended(name, c);
    var d, s := DotFrom(name, 0), name + [c];
    FrontAppended(name, c, if d < |name| then 0 else 8);
    hide DotFrom, Front;
    TakeAppended(name, c, d);
    assert s[..|s|] == s;
  }

  lemma SameExtension(name: seq<byte>, c: byte)
    requires var d := DotFrom(name, 0); d == |name| || d == 11 || |name| - d > 3
    ensures Extension(name + [c]) == Extension(name)
  {
    hide DotFrom, Front, Extension;
    var d := DotFrom(name, 0);
    DotAppended(name, c);
    ExtensionAt(name, d);
    ExtensionAt(name + [c], DotFrom(name + [c], 0));
    if d < |name| && d != 11 {
      DropAppended(name, c, d + 1);
      FrontAppended(name[d + 1..], c, 3);
    } else if d == |name| && c == DOT {
      DropAppended(name, c, d);
      NothingBehind(name + [c]);
    }
  }

  lemma ExtensionAt(name: seq<byte>, d: nat)
    requires DotFrom(name, 0) == d
    ensures Extension(name) == if d == |name| || d == 11 then [] else Front(name[d + 1..], 3)
  {
    hide DotFrom, Front;
  }

  lemma NothingBehind(s: seq<byte>)
    ensures s[|s|..] == [] && Front(s[|s|..], 3) == []
  {
  }

  /** Where a character of the name goes. */
  lemma FieldsOf(name: seq<byte>, k: nat)
    ensures k < 8 ==> ShortName(name)[k] == if k < |Base(name)| then ToUpper(Base(name)[k]) else SPACE
    ensures k < 3 ==> ShortName(name)[8 + k] == if k < |Extension(name)| then ToUpper(Extension(name)[k]) else SPACE
  {
    var b, e := Base(name), Extension(name);
    hide Base, Extension, ToUpper;
    assert k < |b| ==> Pad(Upper(b), 8)[k] == Upper(b)[k];
    assert k < |e| ==> Pad(Upper(e), 3)[k] == Upper(e)[k];
  }

  lemma LongerBase(name: seq<byte>, c: byte)
    requires DotFrom(name, 0) == |name| < 8 && c != DOT
    ensures Base(name + [c]) == name + [c] && Base(name) == name
  {
    DotAppended(name, c);
    FrontWhole(name + [c], 8);
    FrontWhole(name, 8);
    hide DotFrom, Front;
    assert (name + [c])[..|name| + 1] == name + [c] && name[..|name|] == name;
  }

  lemma LongerExtension(name: seq<byte>, c: byte)
    requires var d := DotFrom(name, 0); d < |name| && d != 11 && |name| - d <= 3
    ensures var e := name[DotFrom(name, 0) + 1..]; Extension(name + [c]) == e + [c] && Extension(name) == e
  {
    DotAppended(name, c);
    var d := DotFrom(name, 0);
    DropAppended(name, c, d + 1);
    FrontWhole(name[d + 1..] + [c], 3);
    FrontWhole(name[d + 1..], 3);
    hide DotFrom, Front;
  }

  lemma OtherField(name: seq<byte>)
    requires !Full(name)
    ensures ShortName(name + [0x41]) != ShortName(name)
  {
    hide DotFrom, ShortName, Base, Extension;
    var d := DotFrom(name, 0);
    var k: nat := if d < |name| then |name| - d - 1 else |name|;
    FieldsOf(name + [0x41], k);
    FieldsOf(name, k);
    if d < |name| { LongerExtension(name, 0x41); } else { LongerBase(name, 0x41); }
  }

  // ----- where a path leads

  /** A directory or file: its bytes, and where they are. */
  datatype Place = Place(data: seq<byte>, extent: Extent)

  datatype Reach = Nowhere | There(place: Place)

  function EntryAt(data: seq<byte>, o: nat): DirEntry
    requires o + DIR_ENTRY_SIZE <= |data|
  {
    ParseEntry(data[o..o + DIR_ENTRY_SIZE])
  }

  /** What the first entry with that name stands for, if there is one and its first sector can be
      read; chain is its chain of clusters. */
  ghost function Entered(v: Volume, at: Place, name: seq<byte>, chain: seq<u32>): Reach
    requires Formatted(v)
  {
    match Search(Stream(at.data, 0), ShortName(name))
    case NotFound => Nowhere
    case FoundAt(o) =>
      var e := EntryAt(at.data, o);
      if EntryOk(v, e, chain) && SectorLba(v, FirstCluster(e), 0) < |v.disk|
      then There(Place(EntryData(v, e, chain), EntryExtent(v, e, chain))) else Nowhere
  }

  /** How far the search for it reads. */
  function SearchedTo(at: Place, name: seq<byte>): nat {
    SearchEnd(Stream(at.data, 0), ShortName(name))
  }

  /** What the search demands: the lookups up to there find the directory's chain, and the entry
      has the chain that is given. */
  ghost predicate LegOk(v: Volume, at: Place, name: seq<byte>, chain: seq<u32>, window: u32)
    requires Formatted(v)
  {
    && Seen(v, at.extent, 0, LookupsTo(v, SearchedTo(at, name)), window)
    && match Search(Stream(at.data, 0), ShortName(name))
       case NotFound => true
       case FoundAt(o) => EntryOk(v, EntryAt(at.data, o), chain)
  }

  function LegWindow(v: Volume, at: Place, name: seq<byte>, window: u32): u32
    requires v.perCluster > 0
  {
    WindowOver(v, at.extent, 0, LookupsTo(v, SearchedTo(at, name)), window)
  }

  /** Where the names lead, one after the other. */
  ghost function Reached(v: Volume, at: Place, names: seq<seq<byte>>, chains: seq<seq<u32>>): Reach
    requires Formatted(v) && |chains| == |names|
    decreases |names|
  {
    if names == [] then There(at)
    else
      match Entered(v, at, names[0], chains[0])
      case Nowhere => Nowhere
      case There(next) => Reached(v, next, names[1..], chains[1..])
  }

  /** What the walk demands: each search what it does, and that nothing which is found on the way,
      before the last name, fails to open, because the code then goes on with NULL. */
  ghost predicate WalkOk(v: Volume, at: Place, names: seq<seq<byte>>, chains: seq<seq<u32>>, window: u32)
    requires Formatted(v)
    decreases |names|
  {
    && |chains| == |names|
    && (names != [] ==>
          && LegOk(v, at, names[0], chains[0], window)
          && match Entered(v, at, names[0], chains[0])
             case Nowhere => |names| > 1 ==> Search(Stream(at.data, 0), ShortName(names[0])).NotFound?
             case There(next) =>
               WalkOk(v, next, names[1..], chains[1..], LegWindow(v, at, names[0], window)))
  }

  /** Where it leaves the window. */
  ghost function WalkWindow(v: Volume, at: Place, names: seq<seq<byte>>, chains: seq<seq<u32>>, window: u32): u32
    requires Formatted(v) && |chains| == |names|
    decreases |names|
  {
    if names == [] then window
    else
      match Entered(v, at, names[0], chains[0])
      case Nowhere => LegWindow(v, at, names[0], window)
      case There(next) => WalkWindow(v, next, names[1..], chains[1..], LegWindow(v, at, names[0], window))
  }

  /** The same without the lookups, for directories whose chain is on the table and whose lookups
      cannot straddle. */
  ghost predicate ProperWalk(v: Volume, at: Place, names: seq<seq<byte>>, chains: seq<seq<u32>>)
    requires Formatted(v)
    decreases |names|
  {
    && |chains| == |names|
    && (names != [] ==>
          && OnTable(v, at.extent) && Steady(v, at.extent)
          && match Search(Stream(at.data, 0), ShortName(names[0]))
             case NotFound => true
             case FoundAt(o) =>
               && EntryOk(v, EntryAt(at.data, o), chains[0])
               && match Entered(v, at, names[0], chains[0])
                  case Nowhere => |names| == 1
                  case There(next) => ProperWalk(v, next, names[1..], chains[1..]))
  }

  /** Such a walk can be made wherever the window is. */
  lemma {:induction false} ProperIsOk(v: Volume, at: Place, names: seq<seq<byte>>, chains: seq<seq<u32>>, window: u32)
    requires Formatted(v) && ProperWalk(v, at, names, chains)
    ensures WalkOk(v, at, names, chains, window)
    decreases |names|
  {
    if names != [] {
      SteadyIsSeen(v, at.extent, 0, LookupsTo(v, SearchedTo(at, names[0])), window);
      hide OnTable, Steady, Seen, WindowOver, LookupsTo, EntryOk, EntryData, EntryExtent, EntryAt, ShortName, SectorLba;
      match Entered(v, at, names[0], chains[0])
      case Nowhere =>
      case There(next) => ProperIsOk(v, next, names[1..], chains[1..], LegWindow(v, at, names[0], window));
    }
  }

  // ----- paths of names that are spelled out

  /** The path with these components. */
  function Joined(components: seq<seq<byte>>): seq<byte>
    requires components != []
  {
    if |components| == 1 then components[0] else components[0] + [SLASH] + Joined(components[1..])
  }

  /** Components that fit the name buffer; the path does not end in a slash. */
  predicate Spelled(components: seq<seq<byte>>) {
    && components != [] && components[|components| - 1] != []
    && forall c | c in components :: SLASH !in c && |c| + 1 < MAX_PATH_SIZE
  }

  lemma SlashAt(s: seq<byte>, d: nat)
    requires d <= |s| && SLASH !in s[..d] && (d < |s| ==> s[d] == SLASH)
    ensures SlashFrom(s, 0) == d
  {
    assert forall i | 0 <= i < d :: s[i] == s[..d][i] && s[..d][i] != SLASH;
  }

  lemma JoinedFirst(components: seq<seq<byte>>)
    requires Spelled(components) && |components| > 1
    ensures var c, path := components[0], Joined(components);
            && SLASH !in c && |c| + 1 < MAX_PATH_SIZE
            && |c| < |path| && path[..|c|] == c && path[|c|] == SLASH && path[|c| + 1..] == Joined(components[1..])
            && Spelled(components[1..]) && components[1..][|components| - 2] == components[|components| - 1]
  {
    var c, more := components[0], components[1..];
    assert c in components && forall m | m in more :: m in components;
    assert more[|more| - 1] == components[|components| - 1];
  }

  lemma StepNames(components: seq<seq<byte>>, more: seq<seq<byte>>, names: seq<seq<byte>>, tail: seq<seq<byte>>,
                  x: seq<byte>)
    requires |components| > 1 && more == components[1..] && names == [components[0]] + tail
    requires tail == more[..|more| - 1] + [x]
    ensures names == components[..|components| - 1] + [x]
  {
    assert components == [components[0]] + more;
  }

  /** All components but the last are looked up as they are spelled, and the last one with the late
      end of some buffer. */
  lemma {:induction false} NamesOfPath(components: seq<seq<byte>>, buffer: seq<byte>) returns (b: seq<byte>)
    requires Spelled(components) && |buffer| == MAX_PATH_SIZE
    ensures Fits(Joined(components)) && |b| == MAX_PATH_SIZE && |components[|components| - 1]| < |b|
    ensures var n := |components| - 1;
            Names(Joined(components), buffer) == components[..n] + [LastName(b, components[n])]
    decreases |components|, 1
  {
    hide Joined, LastName, Copied, SlashFrom, Names, Fits;
    if |components| == 1 {
      b := OneName(components, buffer);
    } else {
      b := MoreNames(components, buffer);
    }
  }

  lemma OneName(components: seq<seq<byte>>, buffer: seq<byte>) returns (b: seq<byte>)
    requires Spelled(components) && |components| == 1 && |buffer| == MAX_PATH_SIZE
    ensures Fits(Joined(components)) && |b| == MAX_PATH_SIZE && |components[0]| < |b|
    ensures Names(Joined(components), buffer) == components[..0] + [LastName(b, components[0])]
  {
    hide LastName, Copied, Names, Fits;
    JoinedOne(components);
    assert components[0] in components;
    LastOfPath(components[0], buffer);
    b := buffer;
    assert components[..0] + [LastName(b, components[0])] == [LastName(b, components[0])];
  }

  lemma {:induction false} MoreNames(components: seq<seq<byte>>, buffer: seq<byte>) returns (b: seq<byte>)
    requires Spelled(components) && |components| > 1 && |buffer| == MAX_PATH_SIZE
    ensures Fits(Joined(components)) && |b| == MAX_PATH_SIZE && |components[|components| - 1]| < |b|
    ensures var n := |components| - 1;
            Names(Joined(components), buffer) == components[..n] + [LastName(b, components[n])]
    decreases |components|, 0
  {
    hide Joined, LastName, Copied, Spelled, SlashFrom, Names, Fits;
    var c, path, more := components[0], Joined(components), components[1..];
    JoinedFirst(components);
    SlashAt(path, |c|);
    b := NamesOfPath(more, Copied(buffer, c));
    OneMoreName(path, buffer, |c|);
    StepNames(components, more, Names(path, buffer), Names(Joined(more), Copied(buffer, c)),
              LastName(b, more[|more| - 1]));
  }

  lemma OneMoreName(path: seq<byte>, buffer: seq<byte>, d: nat)
    requires d < |path| && d < MAX_PATH_SIZE == |buffer| && SlashFrom(path, 0) == d && Fits(path[d + 1..])
    ensures Fits(path)
    ensures Names(path, buffer) == [path[..d]] + Names(path[d + 1..], Copied(buffer, path[..d]))
  {
    hide LastName, Copied, SlashFrom;
  }

  lemma JoinedOne(components: seq<seq<byte>>)
    requires |components| == 1
    ensures Joined(components) == components[0]
  {
  }

  lemma LastOfPath(name: seq<byte>, buffer: seq<byte>)
    requires name != [] && SLASH !in name && |name| + 1 < MAX_PATH_SIZE == |buffer|
    ensures Fits(name) && Names(name, buffer) == [LastName(buffer, name)]
  {
    assert name[..|name|] == name;
    SlashAt(name, |name|);
  }

  /** Only the short forms of the names matter. */
  lemma {:induction false} SameShortNames(v: Volume, at: Place, names: seq<seq<byte>>, names': seq<seq<byte>>,
                                          chains: seq<seq<u32>>, window: u32)
    requires Formatted(v) && |chains| == |names| == |names'|
    requires forall i | 0 <= i < |names| :: ShortName(names'[i]) == ShortName(names[i])
    ensures Reached(v, at, names', chains) == Reached(v, at, names, chains)
    ensures WalkOk(v, at, names', chains, window) == WalkOk(v, at, names, chains, window)
    decreases |names|
  {
    if names != [] {
      SameLeg(v, at, names[0], names'[0], chains[0], window);
      hide ShortName, Entered, LegOk, LegWindow, Search;
      match Entered(v, at, names[0], chains[0])
      case Nowhere =>
      case There(next) =>
        SameShortNames(v, next, names[1..], names'[1..], chains[1..], LegWindow(v, at, names[0], window));
    }
  }

  lemma SameLeg(v: Volume, at: Place, name: seq<byte>, name': seq<byte>, chain: seq<u32>, window: u32)
    requires Formatted(v) && ShortName(name') == ShortName(name)
    ensures Entered(v, at, name', chain) == Entered(v, at, name, chain)
    ensures LegOk(v, at, name', chain, window) == LegOk(v, at, name, chain, window)
    ensures LegWindow(v, at, name', window) == LegWindow(v, at, name, window)
  {
    hide ShortName, Search, EntryOk, EntryData, EntryExtent, EntryAt, SectorLba;
  }

  /** A path whose last name is full leads where its components lead, whatever the buffer held. */
  lemma PathAsSpelled(v: Volume, at: Place, components: seq<seq<byte>>, buffer: seq<byte>, chains: seq<seq<u32>>,
                      window: u32)
    requires Formatted(v) && Spelled(components) && |buffer| == MAX_PATH_SIZE && |chains| == |components|
    requires Full(components[|components| - 1])
    ensures Fits(Joined(components)) && |Names(Joined(components), buffer)| == |components|
    ensures var names := Names(Joined(components), buffer);
            && Reached(v, at, names, chains) == Reached(v, at, components, chains)
            && WalkOk(v, at, names, chains, window) == WalkOk(v, at, components, chains, window)
  {
    var b := NamesOfPath(components, buffer);
    SameUpToEnd(components, b);
    hide Joined, Names, Fits, Full, ShortName, Spelled, LastName;
    SameShortNames(v, at, components, Names(Joined(components), buffer), chains, window);
  }

  lemma SameUpToEnd(components: seq<seq<byte>>, b: seq<byte>)
    requires components != [] && Full(components[|components| - 1]) && |components[|components| - 1]| < |b|
    ensures var n := |components| - 1;
            var names := components[..n] + [LastName(b, components[n])];
            forall i | 0 <= i < |components| :: ShortName(names[i]) == ShortName(components[i])
  {
    var last := components[|components| - 1];
    SameFields(last, b[|last|]);
    hide ShortName, Full;
  }

  // ----- the handles

  /** Handle h is at the start of that directory or file. */
  ghost predicate At(fat: Driver, h: int, at: Place)
    requires fat.Valid()
    reads fat
  {
    fat.Ready(h) && fat.StreamAt(h) == Stream(at.data, 0) && fat.ExtentOf(h) == at.extent
  }

  /** Handle h may have been opened; otherwise what was open is as it was, and nothing else is open.
      The root directory is on the same sectors. */
  ghost predicate OnlyOpen(t0: HandleTable, t: HandleTable, h: int) {
    && t.vol == t0.vol && t.rootLbas == t0.rootLbas
    && |t.files| == |t.extents| == |t0.files| == |t0.extents| == MAX_FILE_HANDLES
    && SameFile(t0.root, t.root, t0.rootLbas) && (!Unbounded(t0.root) ==> t.root.size == t0.root.size)
    && (forall i | 0 <= i < MAX_FILE_HANDLES && t0.files[i].inUse ::
          t.files[i] == t0.files[i] && t.extents[i] == t0.extents[i])
    && (forall i | 0 <= i < MAX_FILE_HANDLES && !t0.files[i].inUse && i != h :: !t.files[i].inUse)
    && (h >= 0 ==> h < MAX_FILE_HANDLES && !t0.files[h].inUse)
  }

  lemma OpenNothing(t: HandleTable)
    requires |t.files| == |t.extents| == MAX_FILE_HANDLES
    ensures OnlyOpen(t, t, ROOT_DIRECTORY_HANDLE)
  {
  }

  lemma OpenMoved(t0: HandleTable, t: HandleTable, t': HandleTable, h: int)
    requires OnlyOpen(t0, t, h) && OnlyMoved(h, t, t')
    requires h == ROOT_DIRECTORY_HANDLE ==> !Unbounded(t.root) && !Unbounded(t'.root)
    ensures OnlyOpen(t0, t', h)
    ensures if h == ROOT_DIRECTORY_HANDLE then t'.root.size == t.root.size else t'.root == t.root
  {
  }

  lemma OpenClosed(t0: HandleTable, t: HandleTable, t': HandleTable, h: int)
    requires OnlyOpen(t0, t, h) && t' == t.(files := t'.files, root := t'.root)
    requires if h >= 0 then t'.root == t.root && t'.files == t.files[h := t.files[h].(inUse := false)]
             else t'.files == t.files && t'.root == t.root.(position := 0, current := t.root.first)
    ensures OnlyOpen(t0, t', NO_FILE)
  {
  }

  lemma OpenOpened(t0: HandleTable, t: HandleTable, t': HandleTable, h: int)
    requires OnlyOpen(t0, t, NO_FILE) && t' == t.(files := t'.files, extents := t'.extents)
    requires Opens(t.files, t'.files, t.extents, t'.extents)
    requires if h < 0 then forall i | 0 <= i < MAX_FILE_HANDLES :: t'.files[i].inUse == t.files[i].inUse
             else h < MAX_FILE_HANDLES && !t.files[h].inUse
                  && forall i | 0 <= i < MAX_FILE_HANDLES && i != h :: t'.files[i] == t.files[i]
    ensures OnlyOpen(t0, t', if h < 0 then NO_FILE else h)
  {
  }

  lemma NoneFree(t0: HandleTable, t: HandleTable)
    requires OnlyOpen(t0, t, NO_FILE)
    ensures AllInUse(t.files) <==> AllInUse(t0.files)
  {
  }

  lemma AtStart(v: Volume)
    requires v.perCluster > 0
    ensures LookupsTo(v, 0) == 0
  {
  }

  /** The walk stands at handle h. */
  ghost predicate Standing(fat: Driver, h: int, at: Place, t0: HandleTable)
    reads fat
  {
    && fat.Valid() && At(fat, h, at) && OnlyOpen(t0, fat.Handles(), h)
    && (h == ROOT_DIRECTORY_HANDLE ==> fat.root.size > 0)
  }

  /** The root directory has been searched up to q and closed. It can be used again exactly when
      its buffer still is the first sector; so it can if the search did not leave that sector. */
  ghost predicate Rewound(v: Volume, root: FileData, lbas: seq<nat>, at: Place, q: nat) {
    && Formatted(v) && root.position == 0 && lbas != [] && lbas[0] < |v.disk|
    && (RootOk(v, root, lbas) <==> root.buffer == v.disk[lbas[0]])
    && (q < Min(SECTOR_SIZE, |at.data|) ==>
          RootOk(v, root, lbas) && StreamOf(v, root, lbas) == Stream(at.data, 0)
          && at.extent == Extent(lbas, [], false))
  }

  lemma RootStream(v: Volume, fd: FileData, lbas: seq<nat>)
    requires Formatted(v) && RootOk(v, fd, lbas) && fd.size > 0
    ensures !Unbounded(fd) && lbas != [] && lbas[0] < |v.disk|
    ensures var fd', s := fd.(position := 0, current := fd.first), StreamOf(v, fd, lbas);
            && s.position == fd.position && |s.data| == fd.size
            && (RootOk(v, fd', lbas) ==> StreamOf(v, fd', lbas) == Stream(s.data, 0))
  {
  }

  /** FAT_Close on the directory that has been searched. */
  method Leave(fat: Driver, h: int, ghost at: Place, ghost q: nat, ghost t0: HandleTable)
    requires fat.Valid() && fat.Ready(h) && fat.StreamAt(h) == Stream(at.data, q) && fat.ExtentOf(h) == at.extent
    requires OnlyOpen(t0, fat.Handles(), h) && (h == ROOT_DIRECTORY_HANDLE ==> fat.root.size > 0)
    modifies fat`root, fat`files
    ensures fat.Valid() && OnlyOpen(t0, fat.Handles(), NO_FILE)
    ensures if h == ROOT_DIRECTORY_HANDLE then Rewound(fat.vol, fat.root, fat.rootLbas, at, q)
            else fat.root == old(fat.root)
  {
    assert Formatted(fat.vol);
    hide StreamOf, CacheOk, FileOk, RootOk, OnlyOpen;
    ghost var t := fat.Handles();
    if h == ROOT_DIRECTORY_HANDLE {
      RootStream(fat.vol, fat.root, fat.rootLbas);
      fat.CloseRoot();
    } else {
      fat.Close(h);
    }
    OpenClosed(t0, t, fat.Handles(), h);
  }

  /** What a search has found. */
  ghost predicate Sought(at: Place, name: seq<byte>, found: bool, e: DirEntry) {
    match Search(Stream(at.data, 0), ShortName(name))
    case NotFound => !found
    case FoundAt(o) => found && e == EntryAt(at.data, o)
  }

  lemma SoughtIs(at: Place, name: seq<byte>, t: Stream, found: bool, e: DirEntry)
    requires var s := Stream(at.data, 0); Outcome(s, Search(s, ShortName(name)), t, found, e)
    ensures Sought(at, name, found, e) && t == Stream(at.data, SearchedTo(at, name))
  {
    hide Search, ShortName, ParseEntry;
  }

  lemma SoughtEntered(v: Volume, at: Place, name: seq<byte>, chain: seq<u32>, found: bool, e: DirEntry)
    requires Formatted(v) && Sought(at, name, found, e)
    ensures Entered(v, at, name, chain) ==
            if found && EntryOk(v, e, chain) && SectorLba(v, FirstCluster(e), 0) < |v.disk|
            then There(Place(EntryData(v, e, chain), EntryExtent(v, e, chain))) else Nowhere
    ensures forall w: u32 :: LegOk(v, at, name, chain, w) && found ==> EntryOk(v, e, chain)
  {
    hide Search, ShortName, EntryAt, EntryOk, EntryData, EntryExtent, SectorLba;
  }

  /** FAT_FindFile and FAT_Close. */
  method Seek(fat: Driver, h: int, name: seq<byte>, ghost at: Place, ghost t0: HandleTable)
      returns (found: bool, e: DirEntry)
    requires Standing(fat, h, at, t0)
    requires Seen(fat.vol, at.extent, 0, LookupsTo(fat.vol, SearchedTo(at, name)), fat.cachePosition)
    modifies fat`root, fat`files, fat`cache, fat`cachePosition
    ensures fat.Valid() && OnlyOpen(t0, fat.Handles(), NO_FILE) && Sought(at, name, found, e)
    ensures fat.cachePosition == old(LegWindow(fat.vol, at, name, fat.cachePosition))
    ensures if h == ROOT_DIRECTORY_HANDLE then Rewound(fat.vol, fat.root, fat.rootLbas, at, SearchedTo(at, name))
            else fat.root == old(fat.root)
  {
    assert Formatted(fat.vol);
    AtStart(fat.vol);
    hide Search, SearchEnd, ShortName, Seen, WindowOver, LookupsTo, StreamOf, CacheOk, FileOk, RootOk, ParseEntry,
      OnlyOpen, OnlyMoved, Outcome, Sought, Rewound;
    ghost var t := fat.Handles();
    found, e := FindFile(fat, h, name);
    SoughtIs(at, name, fat.StreamAt(h), found, e);
    OpenMoved(t0, t, fat.Handles(), h);
    Leave(fat, h, at, SearchedTo(at, name), t0);
  }

  /** The outcome of entering r: handle h is there, or it cannot be opened. */
  ghost predicate Arrived(fat: Driver, h: int, r: Reach, t0: HandleTable)
    reads fat
  {
    && fat.Valid() && OnlyOpen(t0, fat.Handles(), h)
    && if AllInUse(t0.files) || r.Nowhere? then h == NO_FILE else 0 <= h < MAX_FILE_HANDLES && At(fat, h, r.place)
  }

  /** One component: the entry with that name is looked up, the directory is closed, and the entry
      is opened, on the lowest closed handle. */
  method Enter(fat: Driver, h: int, name: seq<byte>, ghost chain: seq<u32>, ghost at: Place, ghost t0: HandleTable)
      returns (h': int)
    requires Standing(fat, h, at, t0) && LegOk(fat.vol, at, name, chain, fat.cachePosition)
    modifies fat`root, fat`files, fat`extents, fat`cache, fat`cachePosition
    ensures Arrived(fat, h', old(Entered(fat.vol, at, name, chain)), t0)
    ensures fat.cachePosition == old(LegWindow(fat.vol, at, name, fat.cachePosition))
    ensures if h == ROOT_DIRECTORY_HANDLE then Rewound(fat.vol, fat.root, fat.rootLbas, at, SearchedTo(at, name))
            else fat.root == old(fat.root)
  {
    assert Formatted(fat.vol);
    hide Search, SearchedTo, Seen, WindowOver, LookupsTo, StreamOf, CacheOk, FileOk, RootOk, ParseEntry, Sought,
      OnlyOpen, OnlyMoved, EntryOk, EntryData, EntryExtent, AllInUse, LegWindow, FatReader.Opens, EntryAt, SectorLba,
      Entered;
    ghost var w := fat.cachePosition;
    var found, e := Seek(fat, h, name, at, t0);
    NoneFree(t0, fat.Handles());
    SoughtEntered(fat.vol, at, name, chain, found, e);
    if !found { return NO_FILE; }
    ghost var t := fat.Handles();
    assert LegOk(fat.vol, at, name, chain, w);
    hide LegOk, Rewound;
    h' := OpenFound(fat, e, chain, t0);
  }

  method OpenFound(fat: Driver, e: DirEntry, ghost chain: seq<u32>, ghost t0: HandleTable) returns (h: int)
    requires fat.Valid() && OnlyOpen(t0, fat.Handles(), NO_FILE) && EntryOk(fat.vol, e, chain)
    modifies fat`files, fat`extents
    ensures fat.Valid() && OnlyOpen(t0, fat.Handles(), h) && (h == NO_FILE || 0 <= h < MAX_FILE_HANDLES)
    ensures h == NO_FILE <==> AllInUse(t0.files) || SectorLba(fat.vol, FirstCluster(e), 0) >= |fat.vol.disk|
    ensures h >= 0 ==> At(fat, h, Place(EntryData(fat.vol, e, chain), EntryExtent(fat.vol, e, chain)))
  {
    assert Formatted(fat.vol);
    hide StreamOf, CacheOk, FileOk, RootOk, OnlyOpen, EntryOk, EntryData, EntryExtent, AllInUse, FatReader.Opens,
      SectorLba;
    NoneFree(t0, fat.Handles());
    ghost var t := fat.Handles();
    h := fat.OpenEntry(e, chain);
    OpenOpened(t0, t, fat.Handles(), h);
    if h < 0 { h := NO_FILE; }
  }

  // ----- the walk

  lemma FirstName(path: seq<byte>, buffer: seq<byte>)
    requires path != [] && Fits(path) && |buffer| == MAX_PATH_SIZE
    ensures var d, names := SlashFrom(path, 0), Names(path, buffer);
            && d < MAX_PATH_SIZE && names != []
            && if d < |path| then
                 && names[0] == path[..d] && Fits(path[d + 1..])
                 && names[1..] == Names(path[d + 1..], Copied(buffer, path[..d]))
               else
                 names[0] == LastName(buffer, path) && names[1..] == Names([], buffer)
  {
    hide LastName, Copied;
  }

  /** What is left of a walk: with these names it leads to r and leaves the window at w. */
  ghost predicate Ahead(v: Volume, at: Place, names: seq<seq<byte>>, chains: seq<seq<u32>>, window: u32, r: Reach,
                        w: u32)
  {
    && Formatted(v) && WalkOk(v, at, names, chains, window)
    && Reached(v, at, names, chains) == r && WalkWindow(v, at, names, chains, window) == w
  }

  lemma OneNameOn(v: Volume, at: Place, names: seq<seq<byte>>, chains: seq<seq<u32>>, window: u32, r: Reach, w: u32)
    requires Ahead(v, at, names, chains, window, r, w) && names != []
    ensures chains != [] && LegOk(v, at, names[0], chains[0], window)
    ensures match Entered(v, at, names[0], chains[0])
            case Nowhere => r == Nowhere && w == LegWindow(v, at, names[0], window)
            case There(next) => Ahead(v, next, names[1..], chains[1..], LegWindow(v, at, names[0], window), r, w)
  {
    hide LegOk, Entered, LegWindow;
  }

  lemma NoNameLeft(v: Volume, at: Place, names: seq<seq<byte>>, chains: seq<seq<u32>>, window: u32, r: Reach, w: u32)
    requires Ahead(v, at, names, chains, window, r, w) && names == []
    ensures r == There(at) && w == window
  {
  }

  lemma HandleWasFree(t0: HandleTable, t: HandleTable, h: int)
    requires OnlyOpen(t0, t, h) && h >= 0
    ensures !AllInUse(t0.files)
  {
  }

  /** The walk is at handle h, with the rest of the path before it. */
  ghost predicate Walking(fat: Driver, h: int, rest: seq<byte>, buffer: seq<byte>, at: Place, chains: seq<seq<u32>>,
                          t0: HandleTable, r: Reach, w: u32)
    reads fat
  {
    && Fits(rest) && |buffer| == MAX_PATH_SIZE && -1 <= h < MAX_FILE_HANDLES && Standing(fat, h, at, t0)
    && Ahead(fat.vol, at, Names(rest, buffer), chains, fat.cachePosition, r, w)
  }

  /** Copies the next component to the name buffer. */
  method Cut(path: seq<byte>, buffer: seq<byte>) returns (name: seq<byte>, rest: seq<byte>, buffer': seq<byte>)
    requires path != [] && Fits(path) && |buffer| == MAX_PATH_SIZE
    ensures |rest| < |path| && Fits(rest) && |buffer'| == MAX_PATH_SIZE
    ensures Names(path, buffer) == [name] + Names(rest, buffer')
  {
    hide Names, Fits, LastName, Copied, SlashFrom;
    FirstName(path, buffer);
    var d := SlashFrom(path, 0);
    assert Names(path, buffer) == [Names(path, buffer)[0]] + Names(path, buffer)[1..];
    if d < |path| {
      name := path[..d];
      buffer' := Copied(buffer, name);
      rest := path[d + 1..];
    } else {
      name := LastName(buffer, path);
      buffer' := buffer;
      rest := [];
      NamesOfNone(buffer);
    }
  }

  lemma NamesOfNone(buffer: seq<byte>)
    requires |buffer| == MAX_PATH_SIZE
    ensures Fits([]) && Names([], buffer) == []
  {
  }

  /** The walk has ended with NULL: there is no closed handle, or it leads nowhere. */
  ghost predicate Stopped(fat: Driver, t0: HandleTable, r: Reach, w: u32, names: nat)
    reads fat
  {
    && fat.Valid() && OnlyOpen(t0, fat.Handles(), NO_FILE) && (AllInUse(t0.files) || r.Nowhere?)
    && (names == 1 || !AllInUse(t0.files) ==> fat.cachePosition == w)
  }

  /** After one of so many names: stopped, or at handle h with the rest of the path before it. */
  ghost predicate Passed(fat: Driver, h: int, rest: seq<byte>, buffer: seq<byte>, at: Place, chains: seq<seq<u32>>,
                         t0: HandleTable, r: Reach, w: u32, names: nat)
    reads fat
  {
    if h == NO_FILE then Stopped(fat, t0, r, w, names)
    else h >= 0 && Walking(fat, h, rest, buffer, at, chains, t0, r, w)
  }

  lemma AfterEnter(fat: Driver, h: int, at: Place, name: seq<byte>, rest: seq<byte>, buffer: seq<byte>,
                   chains: seq<seq<u32>>, t0: HandleTable, r: Reach, w: u32, next: Reach)
    requires Arrived(fat, h, next, t0) && Fits(rest) && |buffer| == MAX_PATH_SIZE
    requires match next
             case Nowhere => r == Nowhere && w == fat.cachePosition
             case There(place) => Ahead(fat.vol, place, Names(rest, buffer), chains, fat.cachePosition, r, w)
    ensures Passed(fat, h, rest, buffer, if next.There? then next.place else at, chains, t0, r, w,
                   1 + |Names(rest, buffer)|)
  {
    hide Ahead, Names, Fits, At, OnlyOpen, AllInUse, Driver.Valid;
    if next.There? && Names(rest, buffer) == [] {
      NoNameLeft(fat.vol, next.place, Names(rest, buffer), chains, fat.cachePosition, r, w);
    }
  }

  /** One pass of the loop of FAT_Open. */
  method Pass(fat: Driver, h: int, path: seq<byte>, buffer: seq<byte>, ghost at: Place, ghost chains: seq<seq<u32>>,
              ghost t0: HandleTable, ghost r: Reach, ghost w: u32, ghost names: seq<seq<byte>>)
      returns (h': int, rest: seq<byte>, buffer': seq<byte>, ghost at': Place, ghost chains': seq<seq<u32>>)
    requires Walking(fat, h, path, buffer, at, chains, t0, r, w) && path != [] && names == Names(path, buffer)
    modifies fat`root, fat`files, fat`extents, fat`cache, fat`cachePosition
    ensures Passed(fat, h', rest, buffer', at', chains', t0, r, w, |names|)
    ensures |rest| < |path| && names != []
    ensures if h == ROOT_DIRECTORY_HANDLE then Rewound(fat.vol, fat.root, fat.rootLbas, at, SearchedTo(at, names[0]))
            else fat.root == old(fat.root)
  {
    assert Formatted(fat.vol);
    ghost var v, w0 := fat.vol, fat.cachePosition;
    var name;
    name, rest, buffer' := Cut(path, buffer);
    OneNameOn(v, at, names, chains, w0, r, w);
    chains' := chains[1..];
    ghost var next := Entered(v, at, name, chains[0]);
    hide Driver.Valid, At, OnlyOpen, Rewound, Names, Fits, LegOk, LegWindow, Entered, SearchedTo, AllInUse, Ahead,
      Arrived, Passed;
    h' := Enter(fat, h, name, chains[0], at, t0);
    at' := if next.There? then next.place else at;
    AfterEnter(fat, h', at, name, rest, buffer', chains', t0, r, w, next);
  }

  /** What FAT_Open returns. */
  ghost predicate Walked(fat: Driver, h: int, at: Place, names: seq<seq<byte>>, r: Reach, t0: HandleTable)
    reads fat
  {
    if names == [] then h == ROOT_DIRECTORY_HANDLE && fat.Handles() == t0
    else Arrived(fat, h, r, t0) && Rewound(fat.vol, fat.root, fat.rootLbas, at, SearchedTo(at, names[0]))
  }

  /** FAT_Open. at is the root directory, and stack is what the name buffer holds before. */
  method Open(fat: Driver, path: seq<byte>, stack: seq<byte>, ghost at: Place, ghost chains: seq<seq<u32>>)
      returns (h: int)
    requires fat.Valid() && At(fat, ROOT_DIRECTORY_HANDLE, at) && fat.root.size > 0
    requires |stack| == MAX_PATH_SIZE && Fits(WithoutSlash(path))
    requires var names := Names(WithoutSlash(path), stack);
             && WalkOk(fat.vol, at, names, chains, fat.cachePosition)
             && (|names| > 1 ==> !AllInUse(fat.files))
    modifies fat`root, fat`files, fat`extents, fat`cache, fat`cachePosition
    ensures var names := Names(WithoutSlash(path), stack);
            && Walked(fat, h, at, names, old(Reached(fat.vol, at, names, chains)), old(fat.Handles()))
            && fat.cachePosition == old(WalkWindow(fat.vol, at, names, chains, fat.cachePosition))
  {
    assert Formatted(fat.vol);
    ghost var v, t0, names := fat.vol, fat.Handles(), Names(WithoutSlash(path), stack);
    ghost var r, w := Reached(v, at, names, chains), WalkWindow(v, at, names, chains, fat.cachePosition);
    OpenNothing(t0);
    hide Driver.Valid, At, OnlyOpen, Rewound, Names, Fits, WalkOk, Reached, WalkWindow, SearchedTo, AllInUse;
    var rest, buffer := WithoutSlash(path), stack;
    h := ROOT_DIRECTORY_HANDLE;
    ghost var place, left := at, chains;
    assert Walking(fat, h, rest, buffer, at, chains, t0, r, w);
    hide Walking, Standing, Ahead;
    while rest != []
      invariant Walking(fat, h, rest, buffer, place, left, t0, r, w)
      invariant h == ROOT_DIRECTORY_HANDLE || 0 <= h < MAX_FILE_HANDLES
      invariant if h < 0 then rest == WithoutSlash(path) && buffer == stack && place == at && fat.Handles() == t0
                else names != [] && Rewound(fat.vol, fat.root, fat.rootLbas, at, SearchedTo(at, names[0]))
      decreases |rest|
    {
      h, rest, buffer, place, left := Pass(fat, h, rest, buffer, place, left, t0, r, w, Names(rest, buffer));
      if h == NO_FILE { return; }
    }
    WalkEnds(fat, h, rest, buffer, place, left, t0, r, w);
  }

  lemma WalkEnds(fat: Driver, h: int, rest: seq<byte>, buffer: seq<byte>, at: Place, chains: seq<seq<u32>>,
                 t0: HandleTable, r: Reach, w: u32)
    requires Walking(fat, h, rest, buffer, at, chains, t0, r, w) && rest == []
    ensures Names(rest, buffer) == [] && r == There(at) && fat.cachePosition == w
    ensures fat.Valid() && OnlyOpen(t0, fat.Handles(), h) && At(fat, h, at) && (h >= 0 ==> !AllInUse(t0.files))
  {
    NamesOfNone(buffer);
    NoNameLeft(fat.vol, at, Names(rest, buffer), chains, fat.cachePosition, r, w);
    hide Ahead, Names, At;
  }
}

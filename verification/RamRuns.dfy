/** Runs of shell commands on the RAM file system: names stay unique, and the path that pwd
    prints leads cd back to where it was printed. */
module RamRuns {
  import opened Bytes
  import opened BlockList
  import opened KernelHeap
  import opened HeapShares
  import opened RamTree
  import opened RamStore
  import opened RamFileSystem

  datatype Command =
    | MakeEntry(name: string, isDir: bool)
    | WriteData(name: string, data: text32)
    | ReadData(name: string, size: u32)
    | Remove(name: string)
    | Enter(target: string)

  /** A name that is stored as it is and that a path can carry. */
  predicate GoodName(name: string) {
    0 < |name| <= MAX_NAME && Plain(name)
  }

  predicate GoodNames(c: Command) {
    c.MakeEntry? || c.WriteData? ==> GoodName(c.name)
  }

  /** Names are unique in their directories, and paths can carry them. */
  ghost predicate Orderly(files: seq<Entry>) {
    UniqueNames(files) && forall i | 0 < i < |files| && files[i].inUse :: files[i].name != "" && Plain(files[i].name)
  }

  /** The return code, and what was put into the caller's buffer. */
  datatype Outcome = Outcome(code: int, data: seq<byte>)

  /** The table, the directory the shell is in, and what the files hold. */
  datatype View = View(files: seq<Entry>, current: nat, contents: map<nat, seq<byte>>)

  ghost function ViewOf(fs: RamFs): View
    reads fs
  {
    View(fs.files, fs.currentDir, fs.contents)
  }

  /** v' is what a command with that outcome makes of v. */
  ghost predicate Changes(v: View, v': View, cmd: Command, o: Outcome) {
    && v.current < |v.files|
    && v'.current == (if cmd.Enter? then Cd(v.files, v.current, cmd.target) else v.current)
    && match cmd
       case MakeEntry(name, isDir) =>
         && o.data == []
         && if o.code < 0 then v'.contents == v.contents else MadeEntry(v, v', name, isDir, o.code)
       case WriteData(name, data) => o.data == [] && WroteData(v, v', name, data, o.code)
       case ReadData(name, size) => v' == v && Handed(v, name, size, o)
       case Remove(name) =>
         var i := Find(v.files, name, v.current);
         && o.data == []
         && if o.code < 0 then v'.files == v.files && v'.contents == v.contents
            else 0 <= i < |v.files| && v'.files == v.files[i := ZEROED] && v'.contents == v.contents - {i}
       case Enter(target) => o.data == [] && v'.files == v.files && v'.contents == v.contents
  }

  /** There is a new entry in slot i, and nothing else has changed. */
  ghost predicate MadeEntry(v: View, v': View, name: string, isDir: bool, i: int) {
    && 0 <= i < |v.files| == |v'.files| && !v.files[i].inUse
    && v'.files == v.files[i := v'.files[i]] && Created(v'.files[i], name, isDir, v.current)
    && v'.contents == if isDir then v.contents else v.contents[i := []]
  }

  /** The file with that name holds the data. A write that fails changes no file, but it may have
      made a new one. */
  ghost predicate WroteData(v: View, v': View, name: string, data: seq<byte>, code: int) {
    var i := Find(v.files, name, v.current);
    var j: nat := if i >= 0 then i else UnusedFrom(v.files, 0);
    if code >= 0 then code == |data| && v'.contents == v.contents[j := data]
    else v'.contents == v.contents || (i < 0 && j !in v.contents && v'.contents == v.contents[j := []])
  }

  /** A read hands over the front of the file with that name. */
  ghost predicate Handed(v: View, name: string, size: u32, o: Outcome) {
    var i := Find(v.files, name, v.current);
    if o.code < 0 then o.data == [] && (i < 0 || (i < |v.files| && v.files[i].isDir))
    else i in v.contents && o.data == v.contents[i][..Min(|v.contents[i]|, size)]
  }

  lemma KeepsOrder(files: seq<Entry>, files': seq<Entry>, name: string)
    requires Orderly(files) && UniqueNames(files') && GoodName(name) && NamesFrom(files, files', name)
    ensures Orderly(files')
  {
    hide UniqueNames;
  }

  /** One command. */
  method Do(fs: RamFs, c: Command) returns (o: Outcome)
    requires fs.Valid()
    modifies fs, fs.heap, fs.heap.arena
    ensures fs.Valid() && Changes(old(ViewOf(fs)), ViewOf(fs), c, o)
    ensures OthersSafe(old(fs.heap.mem), fs.heap.mem, old(Live(fs.heap.blocks)), Live(fs.heap.blocks),
                       old(fs.owned), fs.owned)
    ensures old(Orderly(fs.files)) && GoodNames(c) ==> Orderly(fs.files)
  {
    hide Store, Represents, Live, Tree, OthersSafe, UniqueNames, Plain, HeapFull, Serve, NewBlock, MadeEntry,
      WroteData, Handed;
    match c {
      case MakeEntry(name, isDir) =>
        var code := MakeOne(fs, name, isDir);
        o := Outcome(code, []);
      case WriteData(name, data) =>
        var code := WriteOne(fs, name, data);
        o := Outcome(code, []);
      case ReadData(name, size) =>
        fs.KeepOthers();
        o := ReadOne(fs, name, size);
      case Remove(name) =>
        var code := fs.Delete(name);
        o := Outcome(code, []);
      case Enter(target) =>
        fs.KeepOthers();
        var code := fs.ChangeDir(target);
        o := Outcome(code, []);
    }
  }

  method ReadOne(fs: RamFs, name: string, size: u32) returns (o: Outcome)
    requires fs.Valid()
    ensures Handed(ViewOf(fs), name, size, o)
  {
    hide Store, Represents, Live, Tree;
    var buffer := new byte[size](_ => 0);
    var code := fs.ReadFile(name, buffer, size);
    o := Outcome(code, if code < 0 then [] else buffer[..code]);
  }

  method MakeOne(fs: RamFs, name: string, isDir: bool) returns (code: int)
    requires fs.Valid()
    modifies fs, fs.heap, fs.heap.arena
    ensures fs.Valid() && fs.currentDir == old(fs.currentDir)
    ensures if code < 0 then fs.contents == old(fs.contents)
            else MadeEntry(old(ViewOf(fs)), ViewOf(fs), name, isDir, code)
    ensures OthersSafe(old(fs.heap.mem), fs.heap.mem, old(Live(fs.heap.blocks)), Live(fs.heap.blocks),
                       old(fs.owned), fs.owned)
    ensures old(Orderly(fs.files)) && GoodName(name) ==> Orderly(fs.files)
  {
    hide Store, Represents, Live, Tree, OthersSafe, UniqueNames, Plain, HeapFull, Serve, NewBlock, Orderly, Created;
    ghost var files0 := fs.files;
    UniqueWhenOrderly(files0);
    code := fs.Create(name, isDir);
    if Orderly(files0) && GoodName(name) { KeepsOrder(files0, fs.files, name); }
  }

  lemma UniqueWhenOrderly(files: seq<Entry>)
    ensures Orderly(files) ==> UniqueNames(files)
  {
    hide UniqueNames;
  }

  method WriteOne(fs: RamFs, name: string, data: text32) returns (code: int)
    requires fs.Valid()
    modifies fs, fs.heap, fs.heap.arena
    ensures fs.Valid() && fs.currentDir == old(fs.currentDir)
    ensures WroteData(old(ViewOf(fs)), ViewOf(fs), name, data, code)
    ensures OthersSafe(old(fs.heap.mem), fs.heap.mem, old(Live(fs.heap.blocks)), Live(fs.heap.blocks),
                       old(fs.owned), fs.owned)
    ensures old(Orderly(fs.files)) && GoodName(name) ==> Orderly(fs.files)
  {
    hide Store, Represents, Live, Tree, OthersSafe, UniqueNames, Plain, HeapFull, Serve, NewBlock, Orderly, TooBig,
      AfterWrite, RoomBlock;
    ghost var files0 := fs.files;
    UniqueWhenOrderly(files0);
    fs.NewSlot(name);
    code := fs.WriteFile(name, data);
    if Orderly(files0) && GoodName(name) { KeepsOrder(files0, fs.files, name); }
  }

  /** What has been written to a file is read back. */
  method WriteAndRead(fs: RamFs, name: string, data: text32, buffer: array<byte>) returns (code: int)
    requires fs.Valid() && |name| <= MAX_NAME && buffer != fs.heap.arena && |data| <= buffer.Length < TWO32
    modifies fs, fs.heap, fs.heap.arena, buffer
    ensures fs.Valid() && fs.currentDir == old(fs.currentDir)
    ensures code >= 0 ==> code == |data| && buffer[..|data|] == data
  {
    hide Store, Represents, Live, Tree, OthersSafe, UniqueNames, HeapFull, Serve, NewBlock, TooBig, AfterWrite,
      RoomBlock;
    ghost var files0, d := fs.files, fs.currentDir;
    ghost var i := Find(files0, name, d);
    ghost var j := if i >= 0 then i else CreateCode(files0, d, fs.heap.blocks, name, false);
    fs.NewSlot(name);
    code := fs.WriteFile(name, data);
    if code < 0 { return; }
    if i >= 0 { FindResized(files0, i, fs.files[i], name, d); } else { FindAdded(files0, j, fs.files[j]); }
    hide Find, CreateCode;
    code := fs.ReadFile(name, buffer, buffer.Length);
  }

  /** Whatever commands are given, with good names, the table stays orderly. */
  method DoAll(fs: RamFs, cs: seq<Command>)
    requires fs.Valid() && Orderly(fs.files) && forall c | c in cs :: GoodNames(c)
    modifies fs, fs.heap, fs.heap.arena
    ensures fs.Valid() && Orderly(fs.files)
  {
    hide Store, Represents, Tree, Orderly, GoodNames;
    for k := 0 to |cs|
      invariant fs.Valid() && Orderly(fs.files)
    {
      var o := Do(fs, cs[k]);
    }
  }

  lemma {:induction false} RouteIsPlain(files: seq<Entry>, depth: seq<nat>, d: nat)
    requires Tree(files, depth) && Orderly(files) && IsDirectory(files, d)
    ensures forall n | n in Route(files, depth, d) :: Plain(n) && n != ""
    decreases depth[d]
  {
    if d != ROOT {
      assert Hangs(files, depth, d);
      RouteIsPlain(files, depth, files[d].parent);
    }
    hide UniqueNames, Plain;
  }

  /** What pwd prints for directory d. */
  ghost function Printed(files: seq<Entry>, depth: seq<nat>, d: nat): string
    requires Tree(files, depth) && IsDirectory(files, d)
  {
    if d == ROOT then "/" else PathOf(files, depth, d)
  }

  /** The components of what pwd prints. */
  function Components(path: string): seq<string> {
    if path == "/" then [] else SplitPath(path)
  }

  /** A path can carry all names on the way to d, and d is not printed like the root. */
  ghost predicate CanReturn(files: seq<Entry>, depth: seq<nat>, d: nat)
    requires Tree(files, depth) && IsDirectory(files, d)
  {
    Route(files, depth, d) != [""] && forall n | n in Route(files, depth, d) :: Plain(n)
  }

  lemma PrintedAlike(names: seq<string>)
    ensures JoinPath(names) == "/" <==> names == [""]
  {
    if names != [] {
      assert JoinPath(names) == "/" + names[0] + JoinPath(names[1..]);
      if JoinPath(names) == "/" {
        assert names[0] == "" && names[1..] == [];
      }
    }
  }

  lemma ComponentsLead(files: seq<Entry>, depth: seq<nat>, d: nat)
    requires Tree(files, depth) && UniqueNames(files) && IsDirectory(files, d)
    ensures CdAll(files, depth, ROOT, Components(Printed(files, depth, d))) == d <==> CanReturn(files, depth, d)
  {
    PathJoinsRoute(files, depth, d);
    PrintedAlike(Route(files, depth, d));
    PathIsAddress(files, depth, d);
    hide UniqueNames, Plain, SplitPath;
  }

  lemma {:induction false} CdStep(files: seq<Entry>, depth: seq<nat>, current: nat, targets: seq<string>, k: nat)
    requires Tree(files, depth) && IsDirectory(files, current) && k < |targets|
    ensures IsDirectory(files, Cd(files, current, targets[k]))
    ensures CdAll(files, depth, current, targets[k..])
         == CdAll(files, depth, Cd(files, current, targets[k]), targets[k + 1..])
  {
    CdStaysInTree(files, depth, current, targets[k]);
    assert targets[k..][0] == targets[k] && targets[k..][1..] == targets[k + 1..];
    hide Tree, Cd;
  }

  /** cd to one name after the other. */
  method Follow(fs: RamFs, names: seq<string>)
    requires fs.Valid()
    modifies fs`currentDir
    ensures fs.Valid() && fs.currentDir == CdAll(fs.files, fs.depth, old(fs.currentDir), names)
  {
    hide Store, Represents, Live, Tree, CdAll, Cd, Find, ShortNames, CountInUse;
    ghost var end := CdAll(fs.files, fs.depth, fs.currentDir, names);
    assert names[0..] == names;
    for k := 0 to |names|
      invariant fs.Valid() && CdAll(fs.files, fs.depth, fs.currentDir, names[k..]) == end
    {
      CdStep(fs.files, fs.depth, fs.currentDir, names, k);
      var code := fs.ChangeDir(names[k]);
    }
    CdNone(fs.files, fs.depth, fs.currentDir, names[|names|..]);
  }

  /** pwd, then cd to the root and to each component that was printed: if all of the path was
      printed, this is the same directory exactly when a path can carry the names. */
  method ReturnByPath(fs: RamFs) returns (fits: bool)
    requires fs.Valid() && UniqueNames(fs.files)
    modifies fs`currentDir
    ensures fs.Valid() && fits == (|PathOf(fs.files, fs.depth, old(fs.currentDir))| <= 255)
    ensures !fits ==> fs.currentDir == old(fs.currentDir)
    ensures fits ==> (fs.currentDir == old(fs.currentDir) <==> CanReturn(fs.files, fs.depth, old(fs.currentDir)))
  {
    ghost var d := fs.currentDir;
    var path;
    fits, path := fs.CurrentPath();
    if !fits { return; }
    ComponentsLead(fs.files, fs.depth, d);
    CdRoot(fs.files, d);
    hide Store, Represents, Live, Tree, UniqueNames, Components, CdAll, Cd, PathOf, CanReturn, Find, Route, ShortNames,
      CountInUse;
    var code := fs.ChangeDir("/");
    Follow(fs, Components(path));
  }

  /** cd into a directory by its name, and cd "..": back where it was. */
  method InAndOut(fs: RamFs, name: string) returns (code: int)
    requires fs.Valid() && name != ".." && name != "/"
    modifies fs`currentDir
    ensures fs.Valid() && fs.currentDir == old(fs.currentDir)
    ensures var i := Find(fs.files, name, fs.currentDir); code == 0 <==> i >= 0 && fs.files[i].isDir
  {
    ghost var d := fs.currentDir;
    code := fs.ChangeDir(name);
    if code != 0 { return; }
    DownAndUp(fs.files, fs.depth, d, name);
    hide Store, Represents, Live, Tree, Cd, Find;
    var up := fs.ChangeDir("..");
  }

  /** cd "..", and cd into the directory left by its name. */
  method OutAndIn(fs: RamFs, name: string)
    requires fs.Valid() && UniqueNames(fs.files) && fs.currentDir != ROOT
    requires name == fs.files[fs.currentDir].name && name != ".." && name != "/"
    modifies fs`currentDir
    ensures fs.Valid() && fs.currentDir == old(fs.currentDir)
  {
    UpAndBack(fs.files, fs.depth, fs.currentDir);
    hide Store, Represents, Live, Tree, UniqueNames, Cd, Find;
    var up := fs.ChangeDir("..");
    var code := fs.ChangeDir(name);
  }

  lemma CdRoot(files: seq<Entry>, d: nat)
    requires IsDirectory(files, d)
    ensures Cd(files, d, "/") == ROOT
  {
  }

  lemma CdNone(files: seq<Entry>, depth: seq<nat>, d: nat, none: seq<string>)
    requires Tree(files, depth) && IsDirectory(files, d) && none == []
    ensures CdAll(files, depth, d, none) == d
  {
  }

  lemma OrderlyReturns(files: seq<Entry>, depth: seq<nat>, d: nat)
    requires Tree(files, depth) && Orderly(files) && IsDirectory(files, d)
    ensures CanReturn(files, depth, d)
  {
    RouteIsPlain(files, depth, d);
    hide Tree, UniqueNames, Plain;
    NotAlone(Route(files, depth, d));
  }

  lemma NotAlone(names: seq<string>)
    requires forall n | n in names :: n != ""
    ensures names != [""]
  {
    assert "" in [""];
  }

  /** After any commands with good names, the path printed is an address of the directory: the
      comparison at the end comes out true. */
  method PathAfterCommands(fs: RamFs, cs: seq<Command>) returns (back: bool)
    requires fs.Valid() && Orderly(fs.files) && forall c | c in cs :: GoodNames(c)
    modifies fs, fs.heap, fs.heap.arena
    ensures fs.Valid() && Orderly(fs.files) && back
  {
    hide Store, Represents, Tree, Orderly, GoodNames, PathOf, CanReturn;
    DoAll(fs, cs);
    var d := fs.currentDir;
    UniqueWhenOrderly(fs.files);
    OrderlyReturns(fs.files, fs.depth, d);
    var fits := ReturnByPath(fs);
    back := fs.currentDir == d;
  }

  /** The input that fails: a directory called "a/b". Its path leads elsewhere. */
  method LoseTheWay(fs: RamFs) returns (code: int, fits: bool)
    requires fs.Valid() && UniqueNames(fs.files) && fs.currentDir == ROOT
    requires Find(fs.files, "a/b", ROOT) == -1 && UnusedFrom(fs.files, 0) < |fs.files|
    modifies fs, fs.heap, fs.heap.arena
    ensures fs.Valid() && 0 <= code < |fs.files| && Matches(fs.files[code], "a/b", ROOT) && IsDirectory(fs.files, code)
    ensures fits && fs.currentDir != code
  {
    hide Store, Represents, Live, UniqueNames, OthersSafe, CanReturn, HeapFull, Serve, NewBlock;
    ghost var files0 := fs.files;
    code := fs.Create("a/b", true);
    FindAdded(files0, code, fs.files[code]);
    var r := fs.ChangeDir("a/b");
    hide Tree;
    SlashInRoute(fs.files, fs.depth, code);
    fits := ReturnByPath(fs);
  }

  lemma SlashInRoute(files: seq<Entry>, depth: seq<nat>, d: nat)
    requires Tree(files, depth) && IsDirectory(files, d) && d != ROOT && Matches(files[d], "a/b", ROOT)
    ensures !CanReturn(files, depth, d) && |PathOf(files, depth, d)| == 4
  {
    assert Hangs(files, depth, d);
    assert "a/b" in Route(files, depth, d) && "a/b"[1] == '/';
  }
}

/** The table of the RAM file system as a tree of directories: what keeps it a tree, and
    why the text of a path leads back to its directory. */
module RamTree {
  import opened Bytes

  const MAX_FILES: nat := 64
  const MAX_NAME: nat := 31
  const ROOT: nat := 0

  datatype Entry = Entry(name: string, data: u32, size: u32, capacity: u32, isDir: bool, parent: nat, inUse: bool)

  const ZEROED: Entry := Entry("", 0, 0, 0, false, 0, false)
  const ROOT_ENTRY: Entry := Entry("/", 0, 0, 0, true, ROOT, true)

  // ----- the tree

  /** Entry i hangs one level below a directory that is in use. */
  ghost predicate Hangs(files: seq<Entry>, depth: seq<nat>, i: nat)
    requires |files| == |depth| == MAX_FILES && i < MAX_FILES
  {
    var p := files[i].parent;
    p < MAX_FILES && files[p].inUse && files[p].isDir && depth[i] == depth[p] + 1
  }

  /** Slot 0 is the root; every other entry in use hangs below a directory, depth being the
      number of steps to the root. */
  ghost predicate Tree(files: seq<Entry>, depth: seq<nat>) {
    && |files| == |depth| == MAX_FILES
    && files[ROOT].inUse && files[ROOT].isDir && files[ROOT].parent == ROOT && files[ROOT].name == "/"
    && depth[ROOT] == 0
    && forall i {:trigger Hangs(files, depth, i)} | 0 < i < MAX_FILES && files[i].inUse :: Hangs(files, depth, i)
  }

  ghost predicate IsDirectory(files: seq<Entry>, d: nat) {
    d < |files| && files[d].inUse && files[d].isDir
  }

  predicate HasChild(files: seq<Entry>, i: nat) {
    exists j | 0 <= j < |files| :: files[j].inUse && files[j].parent == i
  }

  /** Filling an unused slot with an entry below a directory keeps the tree. */
  lemma AddKeepsTree(files: seq<Entry>, depth: seq<nat>, slot: nat, e: Entry)
    requires Tree(files, depth) && slot < MAX_FILES && !files[slot].inUse
    requires e.inUse && IsDirectory(files, e.parent)
    ensures Tree(files[slot := e], depth[slot := depth[e.parent] + 1])
  {
    var files', depth' := files[slot := e], depth[slot := depth[e.parent] + 1];
    forall i | 0 < i < MAX_FILES && files'[i].inUse ensures Hangs(files', depth', i) {
      if i != slot { assert Hangs(files, depth, i); }
    }
  }

  lemma UnusedKeepsTree(files: seq<Entry>, depth: seq<nat>, slot: nat, e: Entry)
    requires Tree(files, depth) && slot < MAX_FILES && !files[slot].inUse && !e.inUse
    ensures Tree(files[slot := e], depth)
  {
    var files' := files[slot := e];
    forall i | 0 < i < MAX_FILES && files'[i].inUse ensures Hangs(files', depth, i) {
      assert Hangs(files, depth, i);
    }
  }

  /** Clearing an entry without children keeps the tree; the root always has a child: itself. */
  lemma RemoveKeepsTree(files: seq<Entry>, depth: seq<nat>, i: nat)
    requires Tree(files, depth) && i < MAX_FILES && files[i].inUse && !HasChild(files, i)
    ensures i != ROOT && Tree(files[i := ZEROED], depth)
  {
    var files' := files[i := ZEROED];
    forall j | 0 < j < MAX_FILES && files'[j].inUse ensures Hangs(files', depth, j) {
      assert Hangs(files, depth, j);
    }
  }

  /** A file has no children. */
  lemma FileHasNoChild(files: seq<Entry>, depth: seq<nat>, i: nat)
    requires Tree(files, depth) && i < MAX_FILES && !files[i].isDir
    ensures !HasChild(files, i)
  {
    forall j | 0 <= j < MAX_FILES && files[j].inUse ensures files[j].parent != i {
      if j != ROOT { assert Hangs(files, depth, j); }
    }
  }

  /** Changing what a file holds does not touch the tree. */
  lemma ResizeKeepsTree(files: seq<Entry>, depth: seq<nat>, i: nat, e: Entry)
    requires Tree(files, depth) && i < MAX_FILES
    requires e == files[i].(data := e.data, size := e.size, capacity := e.capacity)
    ensures Tree(files[i := e], depth)
  {
    var files' := files[i := e];
    forall j | 0 < j < MAX_FILES && files'[j].inUse ensures Hangs(files', depth, j) {
      assert Hangs(files, depth, j);
    }
  }

  /** The directory n levels above i. */
  function Ancestor(files: seq<Entry>, i: nat, n: nat): nat
    requires i < |files| && forall e | e in files :: e.parent < |files|
    decreases n
  {
    if n == 0 then i else Ancestor(files, files[i].parent, n - 1)
  }

  /** Every parent chain reaches the root, in as many steps as the entry is deep. */
  lemma {:induction false} ChainReachesRoot(files: seq<Entry>, depth: seq<nat>, i: nat)
    requires Tree(files, depth) && i < MAX_FILES && files[i].inUse
    requires forall e | e in files :: e.parent < |files|
    ensures Ancestor(files, i, depth[i]) == ROOT
    decreases depth[i]
  {
    if i != ROOT {
      assert Hangs(files, depth, i);
      ChainReachesRoot(files, depth, files[i].parent);
    }
  }

  // ----- how many entries are in use

  function CountInUse(files: seq<Entry>): nat {
    if files == [] then 0 else (if files[0].inUse then 1 else 0) + CountInUse(files[1..])
  }

  lemma {:induction false} CountUpdate(files: seq<Entry>, i: nat, e: Entry)
    requires i < |files|
    ensures CountInUse(files[i := e]) + (if files[i].inUse then 1 else 0)
         == CountInUse(files) + (if e.inUse then 1 else 0)
  {
    if i == 0 {
      assert files[0 := e][1..] == files[1..];
    } else {
      CountUpdate(files[1..], i - 1, e);
      assert files[i := e][1..] == files[1..][i - 1 := e];
    }
  }

  // ----- looking up names

  predicate Matches(e: Entry, name: string, parent: nat) {
    e.inUse && e.parent == parent && e.name == name
  }

  /** First match from index k on, or -1. */
  function FindFrom(files: seq<Entry>, k: nat, name: string, parent: nat): (r: int)
    requires k <= |files|
    ensures -1 <= r < |files|
    ensures r >= 0 ==> k <= r && Matches(files[r], name, parent)
    ensures forall j | k <= j < (if r >= 0 then r else |files|) :: !Matches(files[j], name, parent)
    decreases |files| - k
  {
    if k == |files| then -1
    else if Matches(files[k], name, parent) then k
    else FindFrom(files, k + 1, name, parent)
  }

  function Find(files: seq<Entry>, name: string, parent: nat): int {
    FindFrom(files, 0, name, parent)
  }

  /** First slot from k on that is not in use, or the length. */
  function UnusedFrom(files: seq<Entry>, k: nat): (r: nat)
    requires k <= |files|
    ensures k <= r <= |files|
    ensures forall j | k <= j < r :: files[j].inUse
    ensures r < |files| ==> !files[r].inUse
    decreases |files| - k
  {
    if k == |files| || !files[k].inUse then k else UnusedFrom(files, k + 1)
  }

  ghost predicate UniqueNames(files: seq<Entry>) {
    forall i, j | 0 <= i < |files| && 0 <= j < |files| && files[j].inUse
                  && Matches(files[i], files[j].name, files[j].parent) :: i == j
  }

  /** With unique names, looking up an entry's name in its directory finds that entry. */
  lemma FindOwn(files: seq<Entry>, i: nat)
    requires UniqueNames(files) && i < |files| && files[i].inUse
    ensures Find(files, files[i].name, files[i].parent) == i
  {
    assert Matches(files[i], files[i].name, files[i].parent);
  }

  /** A name that was not there is found where it has been added. */
  lemma FindAdded(files: seq<Entry>, slot: nat, e: Entry)
    requires slot < |files| && e.inUse && Find(files, e.name, e.parent) == -1
    ensures Find(files[slot := e], e.name, e.parent) == slot
  {
    var files' := files[slot := e];
    assert Matches(files'[slot], e.name, e.parent);
    assert forall j | 0 <= j < |files| && j != slot ::
        Matches(files'[j], e.name, e.parent) == Matches(files[j], e.name, e.parent);
  }

  /** Changing what an entry holds does not change where names are found. */
  lemma FindResized(files: seq<Entry>, i: nat, e: Entry, name: string, parent: nat)
    requires i < |files| && e == files[i].(data := e.data, size := e.size, capacity := e.capacity)
    ensures Find(files[i := e], name, parent) == Find(files, name, parent)
  {
    var files' := files[i := e];
    assert forall j | 0 <= j < |files| :: Matches(files'[j], name, parent) == Matches(files[j], name, parent);
  }

  /** The stored name: at most 31 characters. */
  function Stored(name: string): (r: string)
    ensures |name| <= MAX_NAME ==> r == name
  {
    if |name| <= MAX_NAME then name else name[..MAX_NAME]
  }

  /** Creation keeps names unique exactly when the stored name is not yet in the directory.
      For names of up to 31 characters that is the check ramfs_create makes. */
  lemma CreateKeepsUnique(files: seq<Entry>, slot: nat, e: Entry)
    requires UniqueNames(files) && slot < |files| && !files[slot].inUse && e.inUse
    ensures UniqueNames(files[slot := e]) <==> Find(files, e.name, e.parent) == -1
  {
    var files' := files[slot := e];
    var r := Find(files, e.name, e.parent);
    if r >= 0 {
      assert Matches(files'[r], files'[slot].name, files'[slot].parent) && r != slot;
    } else {
      forall i, j | 0 <= i < |files'| && 0 <= j < |files'|
                    && Matches(files'[i], files'[j].name, files'[j].parent) && files'[j].inUse
        ensures i == j
      {
        if i != slot && j != slot { assert Matches(files[i], files[j].name, files[j].parent); }
        if i == slot && j != slot { assert Matches(files[j], e.name, e.parent); }
      }
    }
  }

  lemma UnusedKeepsUnique(files: seq<Entry>, slot: nat, e: Entry)
    requires UniqueNames(files) && slot < |files| && !files[slot].inUse && !e.inUse
    ensures UniqueNames(files[slot := e])
  {
    var files' := files[slot := e];
    forall i, j | 0 <= i < |files'| && 0 <= j < |files'|
                  && Matches(files'[i], files'[j].name, files'[j].parent) && files'[j].inUse
      ensures i == j
    {
      assert Matches(files[i], files[j].name, files[j].parent);
    }
  }

  lemma RemoveKeepsUnique(files: seq<Entry>, i: nat)
    requires UniqueNames(files) && i < |files|
    ensures UniqueNames(files[i := ZEROED])
  {
  }

  lemma ResizeKeepsUnique(files: seq<Entry>, i: nat, e: Entry)
    requires UniqueNames(files) && i < |files|
    requires e == files[i].(data := e.data, size := e.size, capacity := e.capacity)
    ensures UniqueNames(files[i := e])
  {
    var files' := files[i := e];
    forall j, k | 0 <= j < |files'| && 0 <= k < |files'|
                  && Matches(files'[j], files'[k].name, files'[k].parent) && files'[k].inUse
      ensures j == k
    {
      assert Matches(files[j], files[k].name, files[k].parent);
    }
  }

  // ----- cd

  /** The directory after cd target, which is the same one when cd reports an error. */
  function Cd(files: seq<Entry>, current: nat, target: string): nat
    requires current < |files|
  {
    if target == ".." then (if current != ROOT then files[current].parent else ROOT)
    else if target == "/" then ROOT
    else
      var r := Find(files, target, current);
      if r >= 0 && files[r].isDir then r else current
  }

  /** From its parent, a directory is reached by its own name exactly when that name is not
      one of the two cd treats specially. */
  lemma CdOwnName(files: seq<Entry>, depth: seq<nat>, d: nat)
    requires Tree(files, depth) && UniqueNames(files) && IsDirectory(files, d) && d != ROOT
    ensures files[d].parent < |files|
    ensures Cd(files, files[d].parent, files[d].name) == d <==> files[d].name != ".." && files[d].name != "/"
  {
    assert Hangs(files, depth, d);
    var p := files[d].parent;
    if p != ROOT { assert Hangs(files, depth, p); }
    FindOwn(files, d);
  }

  lemma CdStaysInTree(files: seq<Entry>, depth: seq<nat>, current: nat, target: string)
    requires Tree(files, depth) && IsDirectory(files, current)
    ensures IsDirectory(files, Cd(files, current, target))
  {
    if current != ROOT { assert Hangs(files, depth, current); }
  }

  ghost function CdAll(files: seq<Entry>, depth: seq<nat>, current: nat, targets: seq<string>): (d: nat)
    requires Tree(files, depth) && IsDirectory(files, current)
    ensures IsDirectory(files, d)
    decreases targets
  {
    if targets == [] then current
    else
      CdStaysInTree(files, depth, current, targets[0]);
      CdAll(files, depth, Cd(files, current, targets[0]), targets[1..])
  }

  lemma {:induction false} CdAllThenOne(files: seq<Entry>, depth: seq<nat>, current: nat, targets: seq<string>,
                                        last: string)
    requires Tree(files, depth) && IsDirectory(files, current)
    ensures CdAll(files, depth, current, targets + [last])
         == Cd(files, CdAll(files, depth, current, targets), last)
    decreases targets
  {
    if targets == [] {
      assert ([] + [last])[1..] == [];
      CdStaysInTree(files, depth, current, last);
    } else {
      CdStaysInTree(files, depth, current, targets[0]);
      CdAllThenOne(files, depth, Cd(files, current, targets[0]), targets[1..], last);
      assert (targets + [last])[1..] == targets[1..] + [last];
    }
  }

  // ----- paths

  /** The names on the way from the root to directory d. */
  ghost function Route(files: seq<Entry>, depth: seq<nat>, d: nat): seq<string>
    requires Tree(files, depth) && IsDirectory(files, d)
    decreases depth[d]
  {
    if d == ROOT then []
    else
      assert Hangs(files, depth, d);
      Route(files, depth, files[d].parent) + [files[d].name]
  }

  /** The text pwd builds for directory d. */
  ghost function PathOf(files: seq<Entry>, depth: seq<nat>, d: nat): string
    requires Tree(files, depth) && IsDirectory(files, d)
    decreases depth[d]
  {
    if d == ROOT then ""
    else
      assert Hangs(files, depth, d);
      PathOf(files, depth, files[d].parent) + "/" + files[d].name
  }

  /** ".." leads one level up: the way from the root loses its last name. */
  lemma UpDropsLast(files: seq<Entry>, depth: seq<nat>, d: nat)
    requires Tree(files, depth) && IsDirectory(files, d) && d != ROOT
    ensures IsDirectory(files, Cd(files, d, "..")) && Route(files, depth, d) != []
    ensures var r := Route(files, depth, d); Route(files, depth, Cd(files, d, "..")) == r[..|r| - 1]
  {
    assert Hangs(files, depth, d);
    assert Route(files, depth, d) == Route(files, depth, files[d].parent) + [files[d].name];
  }

  /** From the root it leads nowhere else. */
  lemma UpFromRoot(files: seq<Entry>, depth: seq<nat>)
    requires Tree(files, depth)
    ensures Cd(files, ROOT, "..") == ROOT && Route(files, depth, ROOT) == []
  {
  }

  /** The directory's own name then leads back, unless cd treats that name specially. */
  lemma UpAndBack(files: seq<Entry>, depth: seq<nat>, d: nat)
    requires Tree(files, depth) && UniqueNames(files) && IsDirectory(files, d) && d != ROOT
    ensures Cd(files, d, "..") < |files|
    ensures Cd(files, Cd(files, d, ".."), files[d].name) == d <==> files[d].name != ".." && files[d].name != "/"
  {
    CdOwnName(files, depth, d);
  }

  /** And ".." leads back out of any directory that was entered by its name. */
  lemma DownAndUp(files: seq<Entry>, depth: seq<nat>, current: nat, name: string)
    requires Tree(files, depth) && IsDirectory(files, current) && name != ".." && name != "/"
    requires Find(files, name, current) >= 0 && files[Find(files, name, current)].isDir
    ensures Cd(files, current, name) == Find(files, name, current) != ROOT
    ensures Cd(files, Cd(files, current, name), "..") == current
  {
  }

  /** As many steps up as there are names on the way end in the root. */
  lemma {:induction false} UpToRoot(files: seq<Entry>, depth: seq<nat>, d: nat, ups: seq<string>)
    requires Tree(files, depth) && IsDirectory(files, d) && (forall u | u in ups :: u == "..")
    requires |ups| == |Route(files, depth, d)|
    ensures CdAll(files, depth, d, ups) == ROOT
    decreases ups
  {
    if d != ROOT {
      UpDropsLast(files, depth, d);
      hide Tree, Cd;
      assert ups[0] in ups && forall u | u in ups[1..] :: u in ups;
      UpToRoot(files, depth, Cd(files, d, ".."), ups[1..]);
    }
  }

  /** Names a path can carry: no '/' in them, and not the one cd takes for the parent. */
  predicate Plain(name: string) {
    '/' !in name && name != ".."
  }

  function JoinPath(names: seq<string>): string {
    if names == [] then "" else "/" + names[0] + JoinPath(names[1..])
  }

  /** Index of the first '/' from k on, or the length. */
  function NextSlash(s: string, k: nat): (r: nat)
    requires k <= |s|
    ensures k <= r <= |s|
    ensures '/' !in s[k..r]
    ensures r < |s| ==> s[r] == '/'
    decreases |s| - k
  {
    if k == |s| || s[k] == '/' then k
    else
      var r := NextSlash(s, k + 1);
      assert s[k..r] == [s[k]] + s[k + 1..r];
      r
  }

  /** The components of an absolute path. */
  function SplitPath(s: string): seq<string>
    decreases |s|
  {
    if s == "" then []
    else
      var k := NextSlash(s, 1);
      [s[1..k]] + SplitPath(s[k..])
  }

  lemma {:induction false} NextSlashIs(s: string, k: nat, m: nat)
    requires k <= m <= |s| && '/' !in s[k..m] && (m < |s| ==> s[m] == '/')
    ensures NextSlash(s, k) == m
    decreases m - k
  {
    if k < m {
      assert s[k..m][0] == s[k];
      assert s[k..m][1..] == s[k + 1..m];
      NextSlashIs(s, k + 1, m);
    }
  }

  lemma {:induction false} SplitJoin(names: seq<string>)
    requires forall n | n in names :: '/' !in n
    ensures SplitPath(JoinPath(names)) == names
  {
    if names != [] {
      var s, n, t := JoinPath(names), names[0], JoinPath(names[1..]);
      assert s == "/" + n + t;
      var k := 1 + |n|;
      assert s[1..k] == n && n in names && s[k..] == t;
      assert k < |s| ==> s[k] == t[0] == '/';
      NextSlashIs(s, 1, k);
      SplitJoin(names[1..]);
    }
  }

  lemma {:induction false} JoinAppend(names: seq<string>, last: string)
    ensures JoinPath(names + [last]) == JoinPath(names) + "/" + last
  {
    if names == [] {
      assert JoinPath([last]) == "/" + last;
      assert [] + [last] == [last];
    } else {
      JoinAppend(names[1..], last);
      assert (names + [last])[1..] == names[1..] + [last];
      assert JoinPath(names + [last]) == "/" + names[0] + (JoinPath(names[1..]) + "/" + last);
      assert JoinPath(names) == "/" + names[0] + JoinPath(names[1..]);
    }
  }

  lemma {:induction false} PathJoinsRoute(files: seq<Entry>, depth: seq<nat>, d: nat)
    requires Tree(files, depth) && IsDirectory(files, d)
    ensures PathOf(files, depth, d) == JoinPath(Route(files, depth, d))
    decreases depth[d]
  {
    if d != ROOT {
      assert Hangs(files, depth, d);
      PathJoinsRoute(files, depth, files[d].parent);
      JoinAppend(Route(files, depth, files[d].parent), files[d].name);
    }
  }

  lemma {:induction false} RouteLeadsBack(files: seq<Entry>, depth: seq<nat>, d: nat)
    requires Tree(files, depth) && UniqueNames(files) && IsDirectory(files, d)
    requires forall n | n in Route(files, depth, d) :: Plain(n)
    ensures CdAll(files, depth, ROOT, Route(files, depth, d)) == d
    decreases depth[d]
  {
    if d != ROOT {
      assert Hangs(files, depth, d);
      var p := files[d].parent;
      var r := Route(files, depth, p);
      assert forall n | n in r :: n in r + [files[d].name];
      assert files[d].name in r + [files[d].name];
      RouteLeadsBack(files, depth, p);
      CdAllThenOne(files, depth, ROOT, r, files[d].name);
      FindOwn(files, d);
    }
  }

  /** No component of a path has a '/' in it. */
  lemma {:induction false} SplitHasNoSlash(s: string)
    ensures forall n | n in SplitPath(s) :: '/' !in n
    decreases |s|
  {
    if s != "" {
      var k := NextSlash(s, 1);
      SplitHasNoSlash(s[k..]);
    }
  }

  /** All names on the way to d can be carried by a path. */
  ghost predicate PlainRoute(files: seq<Entry>, depth: seq<nat>, d: nat)
    requires Tree(files, depth) && IsDirectory(files, d)
  {
    forall n | n in Route(files, depth, d) :: Plain(n)
  }

  /** Without a '/' cd leads from such a directory to such directories only. */
  lemma CdKeepsPlain(files: seq<Entry>, depth: seq<nat>, current: nat, target: string)
    requires Tree(files, depth) && IsDirectory(files, current) && PlainRoute(files, depth, current) && '/' !in target
    ensures IsDirectory(files, Cd(files, current, target)) && PlainRoute(files, depth, Cd(files, current, target))
  {
    CdStaysInTree(files, depth, current, target);
    var d := Cd(files, current, target);
    if d != ROOT && d != current {
      if target == ".." {
        assert Hangs(files, depth, current);
        assert forall n | n in Route(files, depth, d) :: n in Route(files, depth, current);
      } else {
        assert Hangs(files, depth, d);
        assert Route(files, depth, d) == Route(files, depth, current) + [target];
      }
    }
  }

  lemma {:induction false} CdAllKeepsPlain(files: seq<Entry>, depth: seq<nat>, current: nat, targets: seq<string>)
    requires Tree(files, depth) && IsDirectory(files, current) && PlainRoute(files, depth, current)
    requires forall t | t in targets :: '/' !in t
    ensures PlainRoute(files, depth, CdAll(files, depth, current, targets))
    decreases targets
  {
    hide Tree, PlainRoute, Cd;
    if targets != [] {
      CdKeepsPlain(files, depth, current, targets[0]);
      CdAllKeepsPlain(files, depth, Cd(files, current, targets[0]), targets[1..]);
    }
  }

  /** A path is a faithful address exactly when it can carry all its names: then, and only then,
      going to the root and into each component of the text ends in the directory that the text
      was built for. */
  lemma PathIsAddress(files: seq<Entry>, depth: seq<nat>, d: nat)
    requires Tree(files, depth) && UniqueNames(files) && IsDirectory(files, d)
    ensures CdAll(files, depth, ROOT, SplitPath(PathOf(files, depth, d))) == d <==>
            forall n | n in Route(files, depth, d) :: Plain(n)
  {
    if PlainRoute(files, depth, d) {
      PathJoinsRoute(files, depth, d);
      SplitJoin(Route(files, depth, d));
      RouteLeadsBack(files, depth, d);
    } else {
      SplitHasNoSlash(PathOf(files, depth, d));
      CdAllKeepsPlain(files, depth, ROOT, SplitPath(PathOf(files, depth, d)));
    }
  }
}

/** The file tree of the page: built from the '/'-separated paths of both
    sides of a diff, with one node per file and one per directory prefix,
    each child list sorted with directories first; and the selection and
    expansion sets kept beside it. */
module FileTree {
  import opened Common
  import opened Strings
  import opened Sorting
  import ExtLists
  import Git

  // ---------------------------------------------------------------------
  // Paths

  /** `path.split('/').slice(0, -1).join('/')`: the directory part. */
  function DirOf(path: string): string {
    var parts := Split(path, '/');
    Join(parts[..|parts| - 1], '/')
  }

  /** `path.split('/').slice(-1)[0]`: the last segment. */
  function NameOf(path: string): string {
    var parts := Split(path, '/');
    parts[|parts| - 1]
  }

  lemma {:induction false} JoinSnoc(parts: seq<string>, x: string, sep: char)
    requires |parts| >= 1
    ensures Join(parts + [x], sep) == Join(parts, sep) + [sep] + x
  {
    if |parts| == 1 {
      assert (parts + [x])[1..] == [x];
    } else {
      JoinSnoc(parts[1..], x, sep);
      assert (parts + [x])[1..] == parts[1..] + [x];
    }
  }

  /** The directory part of a non-empty path is shorter than the path. */
  lemma DirOfShorter(path: string)
    requires path != ""
    ensures |DirOf(path)| < |path|
  {
    var parts := Split(path, '/');
    JoinSplit(path, '/');
    if |parts| > 1 {
      JoinSnoc(parts[..|parts| - 1], parts[|parts| - 1], '/');
      assert parts[..|parts| - 1] + [parts[|parts| - 1]] == parts;
    }
  }

  /** The segments before the last one are those of the directory part,
      unless the path starts with '/'. */
  lemma InitOfSplit(p: string)
    requires !StartsWith(p, "/")
    ensures Split(p, '/') == Segments(DirOf(p)) + [NameOf(p)]
  {
    var parts := Split(p, '/');
    var init := parts[..|parts| - 1];
    assert Segments(DirOf(p)) == init by {
      if |parts| >= 2 {
        FirstPartNonEmpty(p);
      }
      SegmentsOfInit(parts);
    }
    assert parts == init + [parts[|parts| - 1]];
  }

  /** Joining all parts but the last and splitting again gives them back,
      none when there are none. */
  lemma SegmentsOfInit(parts: seq<string>)
    requires |parts| >= 1 && forall i :: 0 <= i < |parts| ==> '/' !in parts[i]
    requires |parts| >= 2 ==> parts[0] != ""
    ensures Segments(Join(parts[..|parts| - 1], '/')) == parts[..|parts| - 1]
  {
    var init := parts[..|parts| - 1];
    if |init| >= 1 {
      JoinLongerThanFirst(init, '/');
      SplitJoin(init, '/');
    }
  }

  /** Without a leading '/', a path with a separator has a non-empty first
      segment. */
  lemma FirstPartNonEmpty(p: string)
    requires !StartsWith(p, "/") && |Split(p, '/')| >= 2
    ensures Split(p, '/')[0] != ""
  {
    assert p != [];
    assert p[..1] != "/";
  }

  lemma JoinLongerThanFirst(parts: seq<string>, sep: char)
    requires |parts| >= 1
    ensures |Join(parts, sep)| >= |parts[0]|
  {
  }

  /** The segments of a directory part; none for the root. */
  function Segments(dir: string): seq<string> {
    if dir == "" then [] else Split(dir, '/')
  }

  /** A path that does not start with '/' is determined by its directory
      part and its name. */
  lemma DirAndNameDetermine(p: string, q: string)
    requires !StartsWith(p, "/") && !StartsWith(q, "/")
    requires DirOf(p) == DirOf(q) && NameOf(p) == NameOf(q)
    ensures p == q
  {
    SplitsEqual(p, q);
    JoinSplit(p, '/');
    JoinSplit(q, '/');
  }

  lemma SplitsEqual(p: string, q: string)
    requires !StartsWith(p, "/") && !StartsWith(q, "/")
    requires DirOf(p) == DirOf(q) && NameOf(p) == NameOf(q)
    ensures Split(p, '/') == Split(q, '/')
  {
    InitOfSplit(p);
    InitOfSplit(q);
  }

  /** "/x" and "x" have the same directory part and name, so only one of
      them gets a node. */
  lemma LeadingSlashShadows()
    ensures DirOf("/x") == DirOf("x") == "" && NameOf("/x") == NameOf("x") == "x"
  {
    SplitNoSep("x", '/');
    SplitAppend("", "x", '/');
    assert "" + ['/'] + "x" == "/x";
  }

  // ---------------------------------------------------------------------
  // The directory map

  /** An entry of a directory's child list. */
  datatype Child =
    | DirChild(name: string, path: string)
    | FileChild(name: string, path: string, status: FileStatus, likelyBinary: bool)

  /** `diffMap.get(path) ?? 'unchanged'` */
  function StatusOf(diffMap: map<string, FileStatus>, path: string): FileStatus {
    if path in diffMap then diffMap[path] else Unchanged
  }

  ghost predicate ChildOk(dirs: map<string, seq<Child>>, k: string, c: Child) {
    DirOf(c.path) == k && c.name == NameOf(c.path) &&
    (c.DirChild? ==> c.path != "" && c.path in dirs)
  }

  /** The invariant of `dirMap`: the root is there, every child sits under
      its own directory part, and every directory is attached to its parent. */
  ghost predicate WellFormed(dirs: map<string, seq<Child>>) {
    "" in dirs &&
    (forall k, c :: k in dirs && c in dirs[k] ==> ChildOk(dirs, k, c)) &&
    (forall k {:trigger DirOf(k)} :: k in dirs && k != "" ==> DirOf(k) in dirs && DirChild(NameOf(k), k) in dirs[DirOf(k)])
  }

  /** Two entries for the same directory, or two files of the same name. */
  predicate Clash(a: Child, b: Child) {
    (a.DirChild? && b.DirChild? && a.path == b.path) || (a.FileChild? && b.FileChild? && a.name == b.name)
  }

  /** No entry twice and no two clashing entries in a child list. */
  ghost predicate ListUnique(cs: seq<Child>) {
    (forall c :: multiset(cs)[c] <= 1) &&
    (forall a, b :: a in cs && b in cs && Clash(a, b) ==> a == b)
  }

  ghost predicate Unique(dirs: map<string, seq<Child>>) {
    forall k :: k in dirs ==> ListUnique(dirs[k])
  }

  /** Every file node carries its diff status and its binary guess. */
  ghost predicate Labeled(dirs: map<string, seq<Child>>, diffMap: map<string, FileStatus>) {
    forall k, c :: k in dirs && c in dirs[k] && c.FileChild? ==>
      c.status == StatusOf(diffMap, c.path) && c.likelyBinary == ExtLists.LikelyBinary(c.path)
  }

  /** The paths of all file nodes. */
  ghost function FilePaths(dirs: map<string, seq<Child>>): set<string> {
    set k, c | k in dirs && c in dirs[k] && c.FileChild? :: c.path
  }

  /** The directory of `p` holds a file named like `p`. */
  ghost predicate HasFile(dirs: map<string, seq<Child>>, p: string) {
    DirOf(p) in dirs && exists c :: c in dirs[DirOf(p)] && c.FileChild? && c.name == NameOf(p)
  }

  ghost predicate Bounded(dirs: map<string, seq<Child>>, bound: nat) {
    forall k :: k in dirs ==> |k| <= bound
  }

  /** Directories before files, each group by name (`localeCompare`). */
  predicate ChildLe(a: Child, b: Child) {
    if a.DirChild? == b.DirChild? then LessEq(a.name, b.name) else a.DirChild?
  }

  lemma ChildLeTotal()
    ensures Total(ChildLe)
  {
    forall a: Child, b: Child ensures ChildLe(a, b) || ChildLe(b, a) {
      if a.name != b.name {
        LessTotal(a.name, b.name);
      }
    }
  }

  /** The longest of the paths. */
  function MaxLen(paths: seq<string>): (r: nat)
    ensures forall p :: p in paths ==> |p| <= r
  {
    if paths == [] then 0
    else
      var rest := MaxLen(paths[1..]);
      assert forall p :: p in paths ==> p == paths[0] || p in paths[1..];
      if |paths[0]| > rest then |paths[0]| else rest
  }

  class DirMap {
    /** `dirMap`, with each directory's list of children. */
    var dirs: map<string, seq<Child>>

    constructor()
      ensures dirs == map["" := []]
    {
      dirs := map["" := []];
    }

    /** `ensureDir`: creates the directory and its missing ancestors, each
        appended to its parent's children. */
    method EnsureDir(d: string)
      requires WellFormed(dirs) && Unique(dirs)
      modifies this
      ensures WellFormed(dirs) && Unique(dirs) && d in dirs
      ensures old(dirs).Keys <= dirs.Keys
      ensures forall k :: k in dirs && k !in old(dirs) ==> |k| <= |d|
      ensures forall k :: k in dirs && k !in old(dirs) ==> Ancestor(k, d)
      ensures SameFiles(old(dirs), dirs)
      decreases |d|
    {
      if d in dirs {
        return;
      }
      DirOfShorter(d);
      EnsureDir(DirOf(d));
      WithDirKeeps(dirs, d);
      ghost var mid := dirs;
      forall k | k in mid && k !in old(dirs) ensures Ancestor(k, d) {
        AncestorOfDirOf(k, d);
      }
      AncestorSelf(d);
      dirs := WithDir(dirs, d);
      SameFilesTransitive(old(dirs), mid, dirs);
    }

    /** One pass of the loop over the paths: the file is added under its
        directory unless a file of that name is already there. */
    method AddFile(path: string, diffMap: map<string, FileStatus>)
      requires WellFormed(dirs) && Unique(dirs) && Labeled(dirs, diffMap)
      modifies this
      ensures WellFormed(dirs) && Unique(dirs) && Labeled(dirs, diffMap) && HasFile(dirs, path)
      ensures old(dirs).Keys <= dirs.Keys
      ensures forall k :: k in dirs && k !in old(dirs) ==> |k| <= |path|
      ensures forall k :: k in dirs && k !in old(dirs) ==> exists j :: IsPrefixOf(k, path, j)
      ensures FilePaths(old(dirs)) <= FilePaths(dirs) <= FilePaths(old(dirs)) + {path}
      ensures forall p :: HasFile(old(dirs), p) ==> HasFile(dirs, p)
    {
      var dir := DirOf(path);
      var name := NameOf(path);
      if path != "" {
        DirOfShorter(path);
      }
      EnsureDir(dir);
      forall k | k in dirs && k !in old(dirs) ensures exists j :: IsPrefixOf(k, path, j) {
        AncestorOfDirOf(k, path);
      }
      SameFilesKeep(old(dirs), dirs, diffMap);
      var present := exists c :: c in dirs[dir] && c.FileChild? && c.name == name;
      if !present {
        ghost var mid := dirs;
        WithFileKeeps(dirs, path, diffMap);
        dirs := WithFile(dirs, path, diffMap);
      }
    }

    /** The loop of `buildTreeFromPaths` over `allPaths`. */
    method AddAll(allPaths: seq<string>, diffMap: map<string, FileStatus>)
      requires dirs == map["" := []]
      modifies this
      ensures Built(dirs, diffMap, MaxLen(allPaths), allPaths)
    {
      var bound := MaxLen(allPaths);
      EmptyWellFormed(diffMap, bound);
      for i := 0 to |allPaths|
        invariant Inv(dirs, diffMap, bound) && Covers(dirs, allPaths[..i]) && FromPaths(dirs, allPaths[..i])
      {
        ghost var before := dirs;
        assert allPaths[i] in allPaths;
        AddFile(allPaths[i], diffMap);
        CoversStep(before, dirs, allPaths[..i], allPaths[i]);
        FromPathsStep(before, dirs, allPaths[..i], allPaths[i]);
        TakeSnoc(allPaths, i);
      }
      assert allPaths[..|allPaths|] == allPaths;
    }

    /** `sort(root)`: every child list ordered directories first, then by
        name; the lists keep their entries. */
    method SortAll()
      modifies this
      ensures dirs.Keys == old(dirs).Keys
      ensures forall k :: k in dirs ==> multiset(dirs[k]) == multiset(old(dirs)[k])
      ensures forall k :: k in dirs ==> SortedBy(dirs[k], ChildLe)
    {
      ChildLeTotal();
      var todo := dirs.Keys;
      while todo != {}
        invariant todo <= dirs.Keys && dirs.Keys == old(dirs).Keys
        invariant forall k :: k in dirs ==> multiset(dirs[k]) == multiset(old(dirs)[k])
        invariant forall k :: k in dirs && k !in todo ==> SortedBy(dirs[k], ChildLe)
        decreases todo
      {
        var k :| k in todo;
        dirs := dirs[k := SortBy(dirs[k], ChildLe)];
        todo := todo - {k};
      }
    }
  }

  /** The invariant every step of `buildTreeFromPaths` keeps. */
  ghost predicate Inv(dirs: map<string, seq<Child>>, diffMap: map<string, FileStatus>, bound: nat) {
    WellFormed(dirs) && Unique(dirs) && Labeled(dirs, diffMap) && Bounded(dirs, bound)
  }

  /** The files of the map are the paths `done`, each found under its
      directory. */
  ghost predicate Covers(dirs: map<string, seq<Child>>, done: seq<string>) {
    FilePaths(dirs) <= Elems(done) && forall j :: 0 <= j < |done| ==> HasFile(dirs, done[j])
  }

  /** Every directory but the root is a proper '/'-prefix of one of the
      paths `done`: `ensureDir` creates nothing else. */
  ghost predicate FromPaths(dirs: map<string, seq<Child>>, done: seq<string>) {
    forall k {:trigger PrefixOfSome(k, done)} :: k in dirs && k != "" ==> PrefixOfSome(k, done)
  }

  /** `k` is a proper '/'-prefix of one of the paths. */
  ghost predicate PrefixOfSome(k: string, paths: seq<string>) {
    exists p, j :: p in paths && IsPrefixOf(k, p, j)
  }

  /** What the loop has built after the paths `done`. */
  ghost predicate Built(dirs: map<string, seq<Child>>, diffMap: map<string, FileStatus>, bound: nat, done: seq<string>) {
    Inv(dirs, diffMap, bound) && Covers(dirs, done) && FromPaths(dirs, done)
  }

  lemma FromPathsStep(before: map<string, seq<Child>>, after: map<string, seq<Child>>, done: seq<string>, path: string)
    requires FromPaths(before, done)
    requires forall k :: k in after && k !in before ==> exists j :: IsPrefixOf(k, path, j)
    ensures FromPaths(after, done + [path])
  {
    forall k | k in after && k != "" ensures PrefixOfSome(k, done + [path]) {
      if k in before {
        assert PrefixOfSome(k, done);
        var p, j :| p in done && IsPrefixOf(k, p, j);
        assert p in done + [path];
      } else {
        var j :| IsPrefixOf(k, path, j);
        assert path in done + [path];
      }
    }
  }

  /** `k` is `d` or one of its '/'-prefixes: the first `j` segments of `d`
      joined, for some `j` of at least one. */
  ghost predicate Ancestor(k: string, d: string) {
    exists j :: 1 <= j <= |Split(d, '/')| && k == Join(Split(d, '/')[..j], '/')
  }

  lemma AncestorSelf(d: string)
    ensures Ancestor(d, d)
  {
    var parts := Split(d, '/');
    JoinSplit(d, '/');
    assert parts[..|parts|] == parts;
  }

  /** An ancestor of the directory part other than the root is an ancestor
      of the path, and a proper prefix of it. */
  lemma AncestorOfDirOf(k: string, d: string)
    requires k != "" && Ancestor(k, DirOf(d))
    ensures Ancestor(k, d) && exists j :: IsPrefixOf(k, d, j)
  {
    var parts := Split(d, '/');
    var init := parts[..|parts| - 1];
    var j :| 1 <= j <= |Split(DirOf(d), '/')| && k == Join(Split(DirOf(d), '/')[..j], '/');
    assert |init| == 0 ==> DirOf(d) == "" && Split(DirOf(d), '/') == [""];
    SplitJoin(init, '/');
    assert init[..j] == parts[..j];
    assert IsPrefixOf(k, d, j);
  }

  /** The directories of a built map, root aside, are exactly the proper
      '/'-prefixes of the paths. */
  lemma DirsArePrefixes(dirs: map<string, seq<Child>>, diffMap: map<string, FileStatus>, bound: nat, paths: seq<string>, k: string)
    requires Built(dirs, diffMap, bound, paths) && k != ""
    ensures k in dirs <==> PrefixOfSome(k, paths)
  {
    if PrefixOfSome(k, paths) {
      var p, j :| p in paths && IsPrefixOf(k, p, j);
      var i :| 0 <= i < |paths| && paths[i] == p;
      assert HasFile(dirs, paths[i]);
      PrefixIsDir(dirs, p, j);
    }
  }

  lemma TakeSnoc(s: seq<string>, i: nat)
    requires i < |s|
    ensures s[..i + 1] == s[..i] + [s[i]]
  {
  }

  lemma CoversStep(before: map<string, seq<Child>>, after: map<string, seq<Child>>, done: seq<string>, path: string)
    requires Covers(before, done) && HasFile(after, path)
    requires FilePaths(after) <= FilePaths(before) + {path}
    requires forall p :: HasFile(before, p) ==> HasFile(after, p)
    ensures Covers(after, done + [path])
  {
    var next := done + [path];
    ElemsSnoc(done, path);
    forall j | 0 <= j < |next| ensures HasFile(after, next[j]) {
      if j < |done| {
        assert HasFile(before, done[j]);
      }
    }
  }

  /** The map that holds only the empty root. */
  lemma EmptyWellFormed(diffMap: map<string, FileStatus>, bound: nat)
    ensures Built(map["" := []], diffMap, bound, [])
  {
    var e: map<string, seq<Child>> := map["" := []];
    assert e.Keys == {""};
  }

  /** The same file entries, directory by directory, and no directory lost. */
  ghost predicate SameFiles(a: map<string, seq<Child>>, b: map<string, seq<Child>>) {
    a.Keys <= b.Keys &&
    (forall k, c :: k in a && c in a[k] ==> c in b[k]) &&
    (forall k, c :: k in b && c in b[k] && c.FileChild? ==> k in a && c in a[k])
  }

  lemma SameFilesTransitive(a: map<string, seq<Child>>, b: map<string, seq<Child>>, c: map<string, seq<Child>>)
    requires SameFiles(a, b) && SameFiles(b, c)
    ensures SameFiles(a, c)
  {
  }

  /** What `SameFiles` keeps: the file paths, the labels and the files found. */
  lemma SameFilesKeep(a: map<string, seq<Child>>, b: map<string, seq<Child>>, diffMap: map<string, FileStatus>)
    requires SameFiles(a, b)
    ensures FilePaths(a) == FilePaths(b)
    ensures Labeled(a, diffMap) ==> Labeled(b, diffMap)
    ensures forall p :: HasFile(a, p) ==> HasFile(b, p)
  {
    forall p | HasFile(a, p) ensures HasFile(b, p) {
      var c :| c in a[DirOf(p)] && c.FileChild? && c.name == NameOf(p);
      assert c in b[DirOf(p)];
    }
  }

  /** `dirMap` after `ensureDir` created `d` under its existing parent. */
  function WithDir(dirs: map<string, seq<Child>>, d: string): map<string, seq<Child>>
    requires DirOf(d) in dirs
  {
    dirs[DirOf(d) := dirs[DirOf(d)] + [DirChild(NameOf(d), d)]][d := []]
  }

  lemma WithDirKeeps(dirs: map<string, seq<Child>>, d: string)
    requires WellFormed(dirs) && Unique(dirs) && d !in dirs && d != "" && DirOf(d) in dirs
    ensures WellFormed(WithDir(dirs, d)) && Unique(WithDir(dirs, d)) && SameFiles(dirs, WithDir(dirs, d))
  {
    DirOfShorter(d);
    WithDirWellFormed(dirs, d);
    WithDirUnique(dirs, d);
    WithDirSameFiles(dirs, d);
  }

  lemma WithDirWellFormed(dirs: map<string, seq<Child>>, d: string)
    requires WellFormed(dirs) && d !in dirs && d != "" && DirOf(d) in dirs && DirOf(d) != d
    ensures WellFormed(WithDir(dirs, d))
  {
    var parent := DirOf(d);
    var node := DirChild(NameOf(d), d);
    var r := WithDir(dirs, d);
    assert r[parent] == dirs[parent] + [node];
    forall k, c | k in r && c in r[k] ensures ChildOk(r, k, c) {
      if k == parent && c == node {
      } else if k != d {
        assert c in dirs[k];
        assert ChildOk(dirs, k, c);
      }
    }
    forall k | k in r && k != "" ensures DirOf(k) in r && DirChild(NameOf(k), k) in r[DirOf(k)] {
      if k != d {
        assert DirChild(NameOf(k), k) in dirs[DirOf(k)];
      }
    }
  }

  lemma WithDirUnique(dirs: map<string, seq<Child>>, d: string)
    requires WellFormed(dirs) && Unique(dirs) && d !in dirs && DirOf(d) in dirs && DirOf(d) != d
    ensures Unique(WithDir(dirs, d))
  {
    var parent := DirOf(d);
    var node := DirChild(NameOf(d), d);
    forall c | c in dirs[parent] ensures !Clash(c, node) && c != node {
      assert ChildOk(dirs, parent, c);
    }
    AppendUnique(dirs[parent], node);
  }

  lemma WithDirSameFiles(dirs: map<string, seq<Child>>, d: string)
    requires d !in dirs && DirOf(d) in dirs && DirOf(d) != d
    ensures SameFiles(dirs, WithDir(dirs, d))
  {
    var parent := DirOf(d);
    var r := WithDir(dirs, d);
    assert r[parent] == dirs[parent] + [DirChild(NameOf(d), d)];
  }

  /** `dirMap` after the file `path` was appended to its directory. */
  function WithFile(dirs: map<string, seq<Child>>, path: string, diffMap: map<string, FileStatus>): map<string, seq<Child>>
    requires DirOf(path) in dirs
  {
    dirs[DirOf(path) := dirs[DirOf(path)] +
      [FileChild(NameOf(path), path, StatusOf(diffMap, path), ExtLists.LikelyBinary(path))]]
  }

  lemma WithFileKeeps(dirs: map<string, seq<Child>>, path: string, diffMap: map<string, FileStatus>)
    requires WellFormed(dirs) && Unique(dirs) && Labeled(dirs, diffMap) && DirOf(path) in dirs
    requires !exists c :: c in dirs[DirOf(path)] && c.FileChild? && c.name == NameOf(path)
    ensures var r := WithFile(dirs, path, diffMap);
      WellFormed(r) && Unique(r) && Labeled(r, diffMap) && HasFile(r, path) && r.Keys == dirs.Keys &&
      FilePaths(r) == FilePaths(dirs) + {path} && forall p :: HasFile(dirs, p) ==> HasFile(r, p)
  {
    WithFileWellFormed(dirs, path, diffMap);
    WithFileUnique(dirs, path, diffMap);
    WithFileLabeled(dirs, path, diffMap);
    WithFilePaths(dirs, path, diffMap);
  }

  function NewFile(path: string, diffMap: map<string, FileStatus>): Child {
    FileChild(NameOf(path), path, StatusOf(diffMap, path), ExtLists.LikelyBinary(path))
  }

  lemma WithFileWellFormed(dirs: map<string, seq<Child>>, path: string, diffMap: map<string, FileStatus>)
    requires WellFormed(dirs) && DirOf(path) in dirs
    ensures WellFormed(WithFile(dirs, path, diffMap))
  {
    var r := WithFile(dirs, path, diffMap);
    assert r[DirOf(path)] == dirs[DirOf(path)] + [NewFile(path, diffMap)];
    forall k, c | k in r && c in r[k] ensures ChildOk(r, k, c) {
      if c != NewFile(path, diffMap) {
        assert c in dirs[k];
        assert ChildOk(dirs, k, c);
      }
    }
    forall k | k in r && k != "" ensures DirOf(k) in r && DirChild(NameOf(k), k) in r[DirOf(k)] {
      assert DirChild(NameOf(k), k) in dirs[DirOf(k)];
    }
  }

  lemma WithFileUnique(dirs: map<string, seq<Child>>, path: string, diffMap: map<string, FileStatus>)
    requires Unique(dirs) && DirOf(path) in dirs
    requires !exists c :: c in dirs[DirOf(path)] && c.FileChild? && c.name == NameOf(path)
    ensures Unique(WithFile(dirs, path, diffMap))
  {
    var node := NewFile(path, diffMap);
    forall c | c in dirs[DirOf(path)] ensures !Clash(c, node) && c != node {
    }
    AppendUnique(dirs[DirOf(path)], node);
  }

  lemma WithFileLabeled(dirs: map<string, seq<Child>>, path: string, diffMap: map<string, FileStatus>)
    requires Labeled(dirs, diffMap) && DirOf(path) in dirs
    ensures Labeled(WithFile(dirs, path, diffMap), diffMap)
  {
    var r := WithFile(dirs, path, diffMap);
    assert r[DirOf(path)] == dirs[DirOf(path)] + [NewFile(path, diffMap)];
    forall k: string, c: Child | k in r && c in r[k] && c.FileChild?
      ensures c.status == StatusOf(diffMap, c.path) && c.likelyBinary == ExtLists.LikelyBinary(c.path)
    {
      if c != NewFile(path, diffMap) {
        assert c in dirs[k];
      }
    }
  }

  lemma WithFilePaths(dirs: map<string, seq<Child>>, path: string, diffMap: map<string, FileStatus>)
    requires DirOf(path) in dirs
    ensures var r := WithFile(dirs, path, diffMap);
      HasFile(r, path) && r.Keys == dirs.Keys &&
      FilePaths(r) == FilePaths(dirs) + {path} && forall p :: HasFile(dirs, p) ==> HasFile(r, p)
  {
    var dir := DirOf(path);
    var node := NewFile(path, diffMap);
    var r := WithFile(dirs, path, diffMap);
    assert r[dir] == dirs[dir] + [node];
    assert node in r[dir];
    forall p | HasFile(dirs, p) ensures HasFile(r, p) {
      var c :| c in dirs[DirOf(p)] && c.FileChild? && c.name == NameOf(p);
      assert c in r[DirOf(p)];
    }
    forall x | x in FilePaths(r) ensures x in FilePaths(dirs) + {path} {
      var k: string, c: Child :| k in r && c in r[k] && c.FileChild? && c.path == x;
      if c != node {
        assert c in dirs[k];
      }
    }
    forall x | x in FilePaths(dirs) ensures x in FilePaths(r) {
      var k: string, c: Child :| k in dirs && c in dirs[k] && c.FileChild? && c.path == x;
      assert c in r[k];
    }
  }

  /** Appending an entry that clashes with nothing keeps a list unique. */
  lemma AppendUnique(cs: seq<Child>, x: Child)
    requires ListUnique(cs)
    requires forall c :: c in cs ==> !Clash(c, x) && c != x
    ensures ListUnique(cs + [x])
  {
    assert x !in cs;
    assert multiset(cs + [x]) == multiset(cs) + multiset{x};
  }

  /** Reordering child lists keeps everything the invariants talk about. */
  lemma ReorderKeeps(a: map<string, seq<Child>>, b: map<string, seq<Child>>, diffMap: map<string, FileStatus>, bound: nat)
    requires a.Keys == b.Keys && forall k :: k in a ==> multiset(a[k]) == multiset(b[k])
    requires WellFormed(a) && Unique(a) && Labeled(a, diffMap) && Bounded(a, bound)
    ensures WellFormed(b) && Unique(b) && Labeled(b, diffMap) && Bounded(b, bound)
    ensures FilePaths(a) == FilePaths(b)
    ensures forall p :: HasFile(a, p) ==> HasFile(b, p)
  {
    assert forall k, c :: k in a ==> (c in a[k] <==> c in b[k]) by {
      forall k, c | k in a ensures c in a[k] <==> c in b[k] {
        assert c in a[k] <==> c in multiset(a[k]);
      }
    }
    assert SameFiles(a, b);
    SameFilesKeep(a, b, diffMap);
  }

  // ---------------------------------------------------------------------
  // The tree

  /** `FileTreeNode`: a file with its status and binary guess, or a
      directory with its children. */
  datatype Node =
    | FileNode(name: string, path: string, status: FileStatus, likelyBinary: bool)
    | DirNode(name: string, path: string, children: seq<Node>)

  /** The node of one entry of the child list of directory `k`. */
  function ChildNode(dirs: map<string, seq<Child>>, bound: nat, k: string, c: Child): Node
    requires WellFormed(dirs) && Bounded(dirs, bound) && k in dirs && ChildOk(dirs, k, c)
    decreases bound - |k|, 0
  {
    match c
    case FileChild(name, path, status, binary) => FileNode(name, path, status, binary)
    case DirChild(name, path) =>
      DirOfShorter(path);
      DirNode(name, path, NodesOf(dirs, bound, path, dirs[path]))
  }

  /** The nodes of a child list of directory `k`, in order. */
  function NodesOf(dirs: map<string, seq<Child>>, bound: nat, k: string, cs: seq<Child>): (r: seq<Node>)
    requires WellFormed(dirs) && Bounded(dirs, bound) && k in dirs
    requires forall c :: c in cs ==> ChildOk(dirs, k, c)
    ensures |r| == |cs|
    decreases bound - |k|, |cs|
  {
    if cs == [] then []
    else [ChildNode(dirs, bound, k, cs[0])] + NodesOf(dirs, bound, k, cs[1..])
  }

  /** The root node: the unnamed directory holding the children of "". */
  function Tree(dirs: map<string, seq<Child>>, bound: nat): Node
    requires WellFormed(dirs) && Bounded(dirs, bound)
  {
    DirNode("", "", NodesOf(dirs, bound, "", dirs[""]))
  }

  /** The comparator of `sort` on nodes. */
  predicate NodeLe(a: Node, b: Node) {
    if a.DirNode? == b.DirNode? then LessEq(a.name, b.name) else a.DirNode?
  }

  /** Every directory of the tree has its children in comparator order. */
  ghost predicate SortedTree(n: Node) {
    n.DirNode? ==> SortedBy(n.children, NodeLe) && forall i :: 0 <= i < |n.children| ==> SortedTree(n.children[i])
  }

  /** A node has the kind and name of the entry it comes from. */
  lemma ChildNodeKeeps(dirs: map<string, seq<Child>>, bound: nat, k: string, c: Child)
    requires WellFormed(dirs) && Bounded(dirs, bound) && k in dirs && ChildOk(dirs, k, c)
    ensures var n := ChildNode(dirs, bound, k, c);
      n.name == c.name && n.path == c.path && n.DirNode? == c.DirChild?
  {
  }

  lemma {:induction false} NodesOfAt(dirs: map<string, seq<Child>>, bound: nat, k: string, cs: seq<Child>, i: nat)
    requires WellFormed(dirs) && Bounded(dirs, bound) && k in dirs
    requires forall c :: c in cs ==> ChildOk(dirs, k, c)
    requires i < |cs|
    ensures NodesOf(dirs, bound, k, cs)[i] == ChildNode(dirs, bound, k, cs[i])
    decreases |cs|
  {
    if i > 0 {
      NodesOfAt(dirs, bound, k, cs[1..], i - 1);
    }
  }

  /** When every child list is sorted, so is every directory of the tree. */
  lemma {:induction false} NodesOfSorted(dirs: map<string, seq<Child>>, bound: nat, k: string)
    requires WellFormed(dirs) && Bounded(dirs, bound) && k in dirs
    requires forall d :: d in dirs ==> SortedBy(dirs[d], ChildLe)
    ensures var ns := NodesOf(dirs, bound, k, dirs[k]);
      SortedBy(ns, NodeLe) && forall i :: 0 <= i < |ns| ==> SortedTree(ns[i])
    decreases bound - |k|
  {
    var cs := dirs[k];
    var ns := NodesOf(dirs, bound, k, cs);
    forall i | 0 <= i < |ns| ensures SortedTree(ns[i]) && (i > 0 ==> NodeLe(ns[i - 1], ns[i])) {
      NodesOfAt(dirs, bound, k, cs, i);
      ChildNodeKeeps(dirs, bound, k, cs[i]);
      if i > 0 {
        NodesOfAt(dirs, bound, k, cs, i - 1);
        ChildNodeKeeps(dirs, bound, k, cs[i - 1]);
        assert ChildLe(cs[i - 1], cs[i]);
      }
      if cs[i].DirChild? {
        DirOfShorter(cs[i].path);
        NodesOfSorted(dirs, bound, cs[i].path);
      }
    }
  }

  lemma TreeSorted(dirs: map<string, seq<Child>>, bound: nat)
    requires WellFormed(dirs) && Bounded(dirs, bound)
    requires forall d :: d in dirs ==> SortedBy(dirs[d], ChildLe)
    ensures SortedTree(Tree(dirs, bound))
  {
    NodesOfSorted(dirs, bound, "");
  }

  // ---------------------------------------------------------------------
  // Building

  /** `buildTreeFromPaths`: every path is added under its directory, then
      every child list is sorted and the tree read off from the root. */
  method BuildTreeFromPaths(allPaths: seq<string>, diffMap: map<string, FileStatus>)
    returns (t: DirMap, root: Node)
    ensures Built(t.dirs, diffMap, MaxLen(allPaths), allPaths)
    ensures forall k :: k in t.dirs ==> SortedBy(t.dirs[k], ChildLe)
    ensures root == Tree(t.dirs, MaxLen(allPaths))
  {
    t := new DirMap();
    t.AddAll(allPaths, diffMap);
    ghost var unsorted := t.dirs;
    t.SortAll();
    ReorderKeeps(unsorted, t.dirs, diffMap, MaxLen(allPaths));
    forall j | 0 <= j < |allPaths| ensures HasFile(t.dirs, allPaths[j]) {
      assert HasFile(unsorted, allPaths[j]);
    }
    root := Tree(t.dirs, MaxLen(allPaths));
  }

  // ---------------------------------------------------------------------
  // Walking the tree

  /** The directory paths the walk of `expandAll` collects below a node, in
      walk order; an empty path (the root's) is skipped. */
  function DirPaths(n: Node): seq<string>
    decreases n
  {
    match n
    case FileNode(_, _, _, _) => []
    case DirNode(_, path, children) => (if path != "" then [path] else []) + DirPathsOf(children)
  }

  function DirPathsOf(ns: seq<Node>): seq<string>
    decreases ns
  {
    if ns == [] then [] else DirPathsOf(ns[..|ns| - 1]) + DirPaths(ns[|ns| - 1])
  }

  /** The file paths the walk of `selectAll` collects below a node: every
      file, or only those whose status is not unchanged when `changedOnly`. */
  function SelectPaths(n: Node, changedOnly: bool): seq<string>
    decreases n
  {
    match n
    case FileNode(_, path, status, _) => if !changedOnly || status != Unchanged then [path] else []
    case DirNode(_, _, children) => SelectPathsOf(children, changedOnly)
  }

  function SelectPathsOf(ns: seq<Node>, changedOnly: bool): seq<string>
    decreases ns
  {
    if ns == [] then [] else SelectPathsOf(ns[..|ns| - 1], changedOnly) + SelectPaths(ns[|ns| - 1], changedOnly)
  }

  /** The walk of `expandAll`, pushing onto `acc`. */
  method CollectDirs(n: Node, acc: seq<string>) returns (r: seq<string>)
    ensures r == acc + DirPaths(n)
    decreases n
  {
    r := acc;
    if n.DirNode? {
      var own := if n.path != "" then [n.path] else [];
      r := r + own;
      for i := 0 to |n.children|
        invariant r == acc + own + DirPathsOf(n.children[..i])
      {
        assert n.children[..i + 1][..i] == n.children[..i];
        r := CollectDirs(n.children[i], r);
      }
      assert n.children[..|n.children|] == n.children;
    }
  }

  /** The walk of `selectAll`, pushing onto `acc`. */
  method CollectFiles(n: Node, changedOnly: bool, acc: seq<string>) returns (r: seq<string>)
    ensures r == acc + SelectPaths(n, changedOnly)
    decreases n
  {
    r := acc;
    if n.FileNode? {
      if !changedOnly || n.status != Unchanged {
        r := r + [n.path];
      }
    } else {
      for i := 0 to |n.children|
        invariant r == acc + SelectPathsOf(n.children[..i], changedOnly)
      {
        assert n.children[..i + 1][..i] == n.children[..i];
        r := CollectFiles(n.children[i], changedOnly, r);
      }
      assert n.children[..|n.children|] == n.children;
    }
  }

  lemma {:induction false} DirPathsOfMember(ns: seq<Node>, x: string) returns (i: nat)
    requires x in DirPathsOf(ns)
    ensures i < |ns| && x in DirPaths(ns[i])
  {
    if x in DirPaths(ns[|ns| - 1]) {
      i := |ns| - 1;
    } else {
      i := DirPathsOfMember(ns[..|ns| - 1], x);
    }
  }

  lemma {:induction false} DirPathsOfHas(ns: seq<Node>, i: nat, x: string)
    requires i < |ns| && x in DirPaths(ns[i])
    ensures x in DirPathsOf(ns)
  {
    if i < |ns| - 1 {
      DirPathsOfHas(ns[..|ns| - 1], i, x);
    }
  }

  lemma {:induction false} SelectPathsOfMember(ns: seq<Node>, changedOnly: bool, x: string) returns (i: nat)
    requires x in SelectPathsOf(ns, changedOnly)
    ensures i < |ns| && x in SelectPaths(ns[i], changedOnly)
  {
    if x in SelectPaths(ns[|ns| - 1], changedOnly) {
      i := |ns| - 1;
    } else {
      i := SelectPathsOfMember(ns[..|ns| - 1], changedOnly, x);
    }
  }

  lemma {:induction false} SelectPathsOfHas(ns: seq<Node>, changedOnly: bool, i: nat, x: string)
    requires i < |ns| && x in SelectPaths(ns[i], changedOnly)
    ensures x in SelectPathsOf(ns, changedOnly)
  {
    if i < |ns| - 1 {
      SelectPathsOfHas(ns[..|ns| - 1], changedOnly, i, x);
    }
  }

  /** The paths of the file entries `selectAll` takes. */
  ghost function Selectable(dirs: map<string, seq<Child>>, changedOnly: bool): set<string> {
    set k, c | k in dirs && c in dirs[k] && c.FileChild? && (!changedOnly || c.status != Unchanged) :: c.path
  }

  /** Everything the walks find below an entry of `dirs` comes from `dirs`. */
  lemma {:induction false} ChildNodeSound(dirs: map<string, seq<Child>>, bound: nat, k: string, c: Child, changedOnly: bool)
    requires WellFormed(dirs) && Bounded(dirs, bound) && k in dirs && c in dirs[k]
    ensures forall x :: x in DirPaths(ChildNode(dirs, bound, k, c)) ==> x in dirs && x != ""
    ensures forall x :: x in SelectPaths(ChildNode(dirs, bound, k, c), changedOnly) ==> x in Selectable(dirs, changedOnly)
    decreases bound - |k|, 0
  {
    if c.DirChild? {
      DirOfShorter(c.path);
      NodesOfSound(dirs, bound, c.path, changedOnly);
    }
  }

  lemma {:induction false} NodesOfSound(dirs: map<string, seq<Child>>, bound: nat, k: string, changedOnly: bool)
    requires WellFormed(dirs) && Bounded(dirs, bound) && k in dirs
    ensures forall x :: x in DirPathsOf(NodesOf(dirs, bound, k, dirs[k])) ==> x in dirs && x != ""
    ensures forall x :: x in SelectPathsOf(NodesOf(dirs, bound, k, dirs[k]), changedOnly) ==> x in Selectable(dirs, changedOnly)
    decreases bound - |k|, 1
  {
    var ns := NodesOf(dirs, bound, k, dirs[k]);
    forall x | x in DirPathsOf(ns) ensures x in dirs && x != "" {
      var i := DirPathsOfMember(ns, x);
      NodesOfAt(dirs, bound, k, dirs[k], i);
      ChildNodeSound(dirs, bound, k, dirs[k][i], changedOnly);
    }
    forall x | x in SelectPathsOf(ns, changedOnly) ensures x in Selectable(dirs, changedOnly) {
      var i := SelectPathsOfMember(ns, changedOnly, x);
      NodesOfAt(dirs, bound, k, dirs[k], i);
      ChildNodeSound(dirs, bound, k, dirs[k][i], changedOnly);
    }
  }

  /** Every directory is reached from the root, so what the walks find
      below it they find in the whole tree. */
  lemma {:induction false} Reach(dirs: map<string, seq<Child>>, bound: nat, k: string, changedOnly: bool)
    requires WellFormed(dirs) && Bounded(dirs, bound) && k in dirs
    ensures var ns := NodesOf(dirs, bound, k, dirs[k]);
      var t := Tree(dirs, bound);
      (forall x :: x in DirPathsOf(ns) ==> x in DirPaths(t)) &&
      (forall x :: x in SelectPathsOf(ns, changedOnly) ==> x in SelectPaths(t, changedOnly)) &&
      (k != "" ==> k in DirPaths(t))
    decreases |k|
  {
    if k != "" {
      var p := DirOf(k);
      DirOfShorter(k);
      assert DirChild(NameOf(k), k) in dirs[p];
      Reach(dirs, bound, p, changedOnly);
      var i :| 0 <= i < |dirs[p]| && dirs[p][i] == DirChild(NameOf(k), k);
      var ps := NodesOf(dirs, bound, p, dirs[p]);
      NodesOfAt(dirs, bound, p, dirs[p], i);
      var ns := NodesOf(dirs, bound, k, dirs[k]);
      assert ps[i] == DirNode(NameOf(k), k, ns);
      forall x | x in DirPathsOf(ns) ensures x in DirPaths(Tree(dirs, bound)) {
        DirPathsOfHas(ps, i, x);
      }
      forall x | x in SelectPathsOf(ns, changedOnly) ensures x in SelectPaths(Tree(dirs, bound), changedOnly) {
        SelectPathsOfHas(ps, changedOnly, i, x);
      }
      DirPathsOfHas(ps, i, k);
    }
  }

  /** `expandAll` on the built tree expands exactly the directories other
      than the root. */
  lemma TreeDirs(dirs: map<string, seq<Child>>, bound: nat)
    requires WellFormed(dirs) && Bounded(dirs, bound)
    ensures Elems(DirPaths(Tree(dirs, bound))) == dirs.Keys - {""}
  {
    NodesOfSound(dirs, bound, "", false);
    forall k | k in dirs && k != "" ensures k in DirPaths(Tree(dirs, bound)) {
      Reach(dirs, bound, k, false);
    }
  }

  /** `selectAll` on the built tree selects exactly the file entries, or
      the changed ones. */
  lemma TreeFiles(dirs: map<string, seq<Child>>, bound: nat, changedOnly: bool)
    requires WellFormed(dirs) && Bounded(dirs, bound)
    ensures Elems(SelectPaths(Tree(dirs, bound), changedOnly)) == Selectable(dirs, changedOnly)
  {
    NodesOfSound(dirs, bound, "", changedOnly);
    forall x | x in Selectable(dirs, changedOnly) ensures x in SelectPaths(Tree(dirs, bound), changedOnly) {
      var k: string, c: Child :| k in dirs && c in dirs[k] && c.FileChild? && (!changedOnly || c.status != Unchanged) && c.path == x;
      var i :| 0 <= i < |dirs[k]| && dirs[k][i] == c;
      NodesOfAt(dirs, bound, k, dirs[k], i);
      var ns := NodesOf(dirs, bound, k, dirs[k]);
      assert SelectPaths(ns[i], changedOnly) == [x];
      SelectPathsOfHas(ns, changedOnly, i, x);
      Reach(dirs, bound, k, changedOnly);
    }
  }

  // ---------------------------------------------------------------------
  // What the built map promises about the paths

  /** `expandAll` on a tree built from the paths expands exactly their
      proper '/'-prefixes, and nothing else. */
  lemma ExpandAllArePrefixes(dirs: map<string, seq<Child>>, diffMap: map<string, FileStatus>, bound: nat, paths: seq<string>, k: string)
    requires Built(dirs, diffMap, bound, paths) && k != ""
    ensures k in Elems(DirPaths(Tree(dirs, bound))) <==> PrefixOfSome(k, paths)
  {
    TreeDirs(dirs, bound);
    DirsArePrefixes(dirs, diffMap, bound, paths, k);
  }

  /** A path without a leading '/' that was added has exactly one file
      entry: it sits in the list of its own directory part, once. */
  lemma ExactlyOneFileNode(dirs: map<string, seq<Child>>, p: string)
    requires WellFormed(dirs) && Unique(dirs) && HasFile(dirs, p)
    requires !StartsWith(p, "/") && forall q :: q in FilePaths(dirs) ==> !StartsWith(q, "/")
    ensures exists c :: (c in dirs[DirOf(p)] && c.FileChild? && c.path == p && multiset(dirs[DirOf(p)])[c] == 1 &&
      forall k, d :: k in dirs && d in dirs[k] && d.FileChild? && d.path == p ==> k == DirOf(p) && d == c)
  {
    var c :| c in dirs[DirOf(p)] && c.FileChild? && c.name == NameOf(p);
    assert ChildOk(dirs, DirOf(p), c);
    assert c.path in FilePaths(dirs);
    DirAndNameDetermine(c.path, p);
    forall k, d | k in dirs && d in dirs[k] && d.FileChild? && d.path == p ensures k == DirOf(p) && d == c {
      assert ChildOk(dirs, k, d);
      assert Clash(c, d);
    }
  }

  /** A path with a '/' that does not start with one has a non-empty
      first segment. */
  lemma FirstSegment(p: string)
    requires !StartsWith(p, "/") && |Split(p, '/')| >= 2
    ensures Split(p, '/')[0] != ""
  {
    var parts := Split(p, '/');
    JoinSplit(p, '/');
    assert parts == [parts[0]] + parts[1..];
    assert p == parts[0] + "/" + Join(parts[1..], '/');
  }

  /** Every proper '/'-prefix of a path whose directory part is in the map
      is a directory of the map. */
  lemma {:induction false} PrefixIsDir(dirs: map<string, seq<Child>>, p: string, j: nat)
    requires WellFormed(dirs) && DirOf(p) in dirs
    requires 1 <= j < |Split(p, '/')|
    ensures Join(Split(p, '/')[..j], '/') in dirs
    decreases |Split(p, '/')| - j
  {
    var parts := Split(p, '/');
    if j < |parts| - 1 {
      PrefixIsDir(dirs, p, j + 1);
      var longer := parts[..j + 1];
      var d := Join(longer, '/');
      assert longer == [longer[0]] + longer[1..];
      assert d == longer[0] + "/" + Join(longer[1..], '/');
      assert forall i :: 0 <= i < |longer| ==> '/' !in longer[i];
      SplitJoin(longer, '/');
      assert longer[..j] == parts[..j];
      assert DirOf(d) == Join(parts[..j], '/');
    }
  }

  // ---------------------------------------------------------------------
  // The sets computed after a diff

  /** `acc` of the expansion loop after the given segments: each segment is
      appended with a '/' unless `acc` is still empty. */
  function Acc(parts: seq<string>): string {
    if parts == [] then ""
    else
      var a := Acc(parts[..|parts| - 1]);
      var part := parts[|parts| - 1];
      if a != "" then a + "/" + part else part
  }

  /** Every value `acc` takes over the segments. */
  function Expands(parts: seq<string>): set<string> {
    if parts == [] then {} else Expands(parts[..|parts| - 1]) + {Acc(parts)}
  }

  /** The segments of a path but the last. */
  function DirParts(path: string): seq<string> {
    var parts := Split(path, '/');
    parts[..|parts| - 1]
  }

  /** The expanded set after a diff: what `acc` takes for every entry. */
  function ExpansionOf(files: seq<Git.NameStatus>): set<string> {
    if files == [] then {}
    else ExpansionOf(files[..|files| - 1]) + Expands(DirParts(files[|files| - 1].path))
  }

  /** With a non-empty first segment, `acc` is the '/'-join. */
  lemma {:induction false} AccIsJoin(parts: seq<string>)
    requires |parts| >= 1 && parts[0] != ""
    ensures Acc(parts) == Join(parts, '/') && Acc(parts) != ""
  {
    if |parts| > 1 {
      var init := parts[..|parts| - 1];
      AccIsJoin(init);
      JoinSnoc(init, parts[|parts| - 1], '/');
      assert init + [parts[|parts| - 1]] == parts;
    }
  }

  /** With a non-empty first segment, the values of `acc` are the joins of
      the non-empty prefixes of the segments. */
  lemma {:induction false} ExpandsArePrefixes(parts: seq<string>, x: string)
    requires |parts| >= 1 ==> parts[0] != ""
    ensures x in Expands(parts) <==> exists j :: 1 <= j <= |parts| && x == Join(parts[..j], '/')
  {
    if parts != [] {
      var init := parts[..|parts| - 1];
      ExpandsArePrefixes(init, x);
      AccIsJoin(parts);
      assert parts[..|parts|] == parts;
      if x in Expands(init) {
        var j :| 1 <= j <= |init| && x == Join(init[..j], '/');
        assert init[..j] == parts[..j];
      }
      if exists j :: 1 <= j <= |parts| && x == Join(parts[..j], '/') {
        var j :| 1 <= j <= |parts| && x == Join(parts[..j], '/');
        if j < |parts| {
          assert init[..j] == parts[..j];
        }
      }
    }
  }

  /** A proper '/'-prefix of a path: its first `j` segments joined. */
  ghost predicate IsPrefixOf(x: string, path: string, j: int) {
    1 <= j < |Split(path, '/')| && x == Join(Split(path, '/')[..j], '/')
  }

  /** The values of `acc` for one path without a leading '/' are its
      proper '/'-prefixes. */
  lemma ExpandsOfPath(path: string, x: string)
    requires !StartsWith(path, "/")
    ensures x in Expands(DirParts(path)) <==> exists j :: IsPrefixOf(x, path, j)
  {
    var parts := Split(path, '/');
    if |parts| >= 2 {
      FirstSegment(path);
    }
    ExpandsArePrefixes(DirParts(path), x);
    if x in Expands(DirParts(path)) {
      var j :| 1 <= j <= |parts| - 1 && x == Join(DirParts(path)[..j], '/');
      assert DirParts(path)[..j] == parts[..j];
      assert IsPrefixOf(x, path, j);
    }
    if exists j :: IsPrefixOf(x, path, j) {
      var j :| IsPrefixOf(x, path, j);
      assert DirParts(path)[..j] == parts[..j];
    }
  }

  /** "expanded = proper directory prefixes": for paths without a leading
      '/', the expanded set is the set of proper '/'-prefixes of the
      changed paths. */
  lemma {:induction false} ExpansionIsPrefixes(files: seq<Git.NameStatus>, x: string)
    requires forall i :: 0 <= i < |files| ==> !StartsWith(files[i].path, "/")
    ensures x in ExpansionOf(files) <==> exists i, j :: 0 <= i < |files| && IsPrefixOf(x, files[i].path, j)
  {
    if files != [] {
      var n := |files| - 1;
      var init := files[..n];
      assert forall i :: 0 <= i < n ==> init[i] == files[i];
      ExpansionIsPrefixes(init, x);
      ExpandsOfPath(files[n].path, x);
      if exists i, j :: 0 <= i < |files| && IsPrefixOf(x, files[i].path, j) {
        var i, j :| 0 <= i < |files| && IsPrefixOf(x, files[i].path, j);
        if i < n {
          assert IsPrefixOf(x, init[i].path, j);
        }
      }
    }
  }

  /** Every expanded directory of a changed file that is in the tree is a
      directory of the tree. */
  lemma ExpandedAreDirs(dirs: map<string, seq<Child>>, files: seq<Git.NameStatus>)
    requires WellFormed(dirs)
    requires forall i :: 0 <= i < |files| ==> !StartsWith(files[i].path, "/") && DirOf(files[i].path) in dirs
    ensures ExpansionOf(files) <= dirs.Keys
  {
    forall x | x in ExpansionOf(files) ensures x in dirs {
      ExpansionIsPrefixes(files, x);
      var i, j :| 0 <= i < |files| && IsPrefixOf(x, files[i].path, j);
      PrefixIsDir(dirs, files[i].path, j);
    }
  }

  /** The loops of the expansion: `acc` over each entry's directory
      segments, every value added to the set. */
  method Expansion(files: seq<Git.NameStatus>) returns (exp: set<string>)
    ensures exp == ExpansionOf(files)
  {
    exp := {};
    for i := 0 to |files|
      invariant exp == ExpansionOf(files[..i])
    {
      var parts := DirParts(files[i].path);
      var acc := "";
      ghost var before := exp;
      for j := 0 to |parts|
        invariant acc == Acc(parts[..j]) && exp == before + Expands(parts[..j])
      {
        assert parts[..j + 1][..j] == parts[..j];
        acc := if acc != "" then acc + "/" + parts[j] else parts[j];
        exp := exp + {acc};
      }
      assert parts[..|parts|] == parts;
      assert files[..i + 1][..i] == files[..i];
    }
    assert files[..|files|] == files;
  }

  /** `diffMap`: each entry's path to its status, later entries winning. */
  function DiffMapOf(files: seq<Git.NameStatus>): map<string, FileStatus> {
    if files == [] then map[]
    else DiffMapOf(files[..|files| - 1])[files[|files| - 1].path := files[|files| - 1].status]
  }

  /** The keys of `diffMap` are the paths of the diff entries. */
  lemma {:induction false} DiffMapKeys(files: seq<Git.NameStatus>, p: string)
    ensures p in DiffMapOf(files) <==> exists i :: 0 <= i < |files| && files[i].path == p
  {
    if files != [] {
      var init := files[..|files| - 1];
      DiffMapKeys(init, p);
      assert forall i :: 0 <= i < |init| ==> files[i] == init[i];
    }
  }

  /** A path takes the status of its last entry in the diff. */
  lemma {:induction false} DiffMapLast(files: seq<Git.NameStatus>, i: nat)
    requires i < |files| && forall j :: i < j < |files| ==> files[j].path != files[i].path
    ensures files[i].path in DiffMapOf(files) && DiffMapOf(files)[files[i].path] == files[i].status
  {
    if i < |files| - 1 {
      var init := files[..|files| - 1];
      DiffMapLast(init, i);
    }
  }

  /** A file the diff does not mention gets the status `unchanged`. */
  lemma StatusDefault(files: seq<Git.NameStatus>, p: string)
    requires forall i :: 0 <= i < |files| ==> files[i].path != p
    ensures StatusOf(DiffMapOf(files), p) == Unchanged
  {
    DiffMapKeys(files, p);
  }

  /** The loop filling `diffMap`. */
  method DiffMap(files: seq<Git.NameStatus>) returns (m: map<string, FileStatus>)
    ensures m == DiffMapOf(files)
  {
    m := map[];
    for i := 0 to |files|
      invariant m == DiffMapOf(files[..i])
    {
      assert files[..i + 1][..i] == files[..i];
      m := m[files[i].path := files[i].status];
    }
    assert files[..|files|] == files;
  }

  /** The selection after a diff: the paths of modified and added entries. */
  function SelectionOf(files: seq<Git.NameStatus>): set<string> {
    if files == [] then {}
    else
      var f := files[|files| - 1];
      SelectionOf(files[..|files| - 1]) + (if f.status == Modify || f.status == Add then {f.path} else {})
  }

  /** A path is selected after a diff exactly when some entry for it is a
      modification or an addition. */
  lemma {:induction false} SelectionMembers(files: seq<Git.NameStatus>, p: string)
    ensures p in SelectionOf(files) <==>
      exists i :: 0 <= i < |files| && files[i].path == p && (files[i].status == Modify || files[i].status == Add)
  {
    if files != [] {
      var init := files[..|files| - 1];
      SelectionMembers(init, p);
      assert forall i :: 0 <= i < |init| ==> files[i] == init[i];
    }
  }

  /** The loop filling the selection. */
  method Selection(files: seq<Git.NameStatus>) returns (sel: set<string>)
    ensures sel == SelectionOf(files)
  {
    sel := {};
    for i := 0 to |files|
      invariant sel == SelectionOf(files[..i])
    {
      assert files[..i + 1][..i] == files[..i];
      if files[i].status == Modify || files[i].status == Add {
        sel := sel + {files[i].path};
      }
    }
    assert files[..|files|] == files;
  }

  /** `Array.from(new Set(paths))`: the paths without repeats, each at its
      first occurrence. */
  function Union(paths: seq<string>): (r: seq<string>)
    ensures Elems(r) == Elems(paths) && Distinct(r)
  {
    if paths == [] then []
    else
      var init := paths[..|paths| - 1];
      var last := paths[|paths| - 1];
      var r := Union(init);
      assert paths == init + [last];
      ElemsSnoc(init, last);
      if last in r then r
      else
        ElemsSnoc(r, last);
        r + [last]
  }

  /** Adds a missing element, removes a present one. */
  function Toggle(s: set<string>, p: string): (r: set<string>)
    ensures p in r <==> p !in s
    ensures forall q :: q != p ==> (q in r <==> q in s)
  {
    if p in s then s - {p} else s + {p}
  }

  /** Toggling twice restores the set. */
  lemma ToggleTwice(s: set<string>, p: string)
    ensures Toggle(Toggle(s, p), p) == s
  {
  }

  /** The work of `computeDiffAndTree` once the worker has answered: the
      status map, the union of both sides' files, the tree, the selection
      and the expansion. */
  method Rebuild(files: seq<Git.NameStatus>, baseFiles: seq<string>, compareFiles: seq<string>)
    returns (root: Node, ghost d: map<string, seq<Child>>, ghost b: nat, sel: set<string>, exp: set<string>)
    ensures Built(d, DiffMapOf(files), b, Union(baseFiles + compareFiles))
    ensures WellFormed(d) && Bounded(d, b)
    ensures forall k :: k in d ==> SortedBy(d[k], ChildLe)
    ensures root == Tree(d, b)
    ensures sel == SelectionOf(files) && exp == ExpansionOf(files)
  {
    var diffMap := DiffMap(files);
    var paths := Union(baseFiles + compareFiles);
    var t;
    t, root := BuildTreeFromPaths(paths, diffMap);
    d := t.dirs;
    b := MaxLen(paths);
    sel := Selection(files);
    exp := Expansion(files);
  }

  // ---------------------------------------------------------------------
  // The hook's state

  /** Whether `computeDiffAndTree` clears everything instead of diffing:
      no client, a missing ref, or the same ref on both sides. */
  predicate Cleared(hasClient: bool, base: string, compare: string) {
    !hasClient || base == "" || compare == "" || base == compare
  }

  class FileTreeState {
    var diffFiles: seq<Git.NameStatus>
    var tree: Option<Node>
    var showChangedOnly: bool
    var expanded: set<string>
    var selected: set<string>
    var computing: bool
    /** The map the tree was read off, and the bound used to read it. */
    ghost var dirs: map<string, seq<Child>>
    ghost var bound: nat

    ghost predicate Valid()
      reads this`tree, this`dirs, this`bound
    {
      tree.Some? ==> WellFormed(dirs) && Bounded(dirs, bound) && tree.value == Tree(dirs, bound)
    }

    /** The state after a diff of `files` over the union `paths`: the tree
        read off a sorted map built from `paths`, the changed files
        selected and their directories expanded. */
    ghost predicate Shows(files: seq<Git.NameStatus>, paths: seq<string>)
      reads this`tree, this`dirs, this`bound, this`selected, this`expanded
    {
      tree.Some? && Built(dirs, DiffMapOf(files), bound, paths) &&
      (forall k :: k in dirs ==> SortedBy(dirs[k], ChildLe)) &&
      tree.value == Tree(dirs, bound) &&
      selected == SelectionOf(files) && expanded == ExpansionOf(files)
    }

    constructor()
      ensures Valid() && diffFiles == [] && tree == None && showChangedOnly
      ensures expanded == {} && selected == {} && !computing
    {
      diffFiles := [];
      tree := None;
      showChangedOnly := true;
      expanded := {};
      selected := {};
      computing := false;
      dirs := map[];
      bound := 0;
    }

    /** `computeDiffAndTree`. The worker's answers are parameters: `diff`
        for `diff(base, compare)`, then `baseList` and `compareList` for
        the two `listFiles` calls, each an error when the call throws. The
        result is the message of the error rethrown, if any. */
    method ComputeDiffAndTree(hasClient: bool, base: string, compare: string, diff: Result<seq<Git.NameStatus>>,
                              baseList: Result<seq<string>>, compareList: Result<seq<string>>)
      returns (err: Option<string>)
      requires Valid()
      modifies this
      ensures Valid() && showChangedOnly == old(showChangedOnly)
      ensures Cleared(hasClient, base, compare) ==>
        err == None && diffFiles == [] && tree == None && selected == {} && expanded == {} && computing == old(computing)
      ensures !Cleared(hasClient, base, compare) ==> !computing
      ensures !Cleared(hasClient, base, compare) && diff.Err? ==>
        err == Some(diff.message) && diffFiles == old(diffFiles) && tree == old(tree) &&
        selected == old(selected) && expanded == old(expanded)
      ensures !Cleared(hasClient, base, compare) && diff.Ok? ==> diffFiles == diff.value
      ensures !Cleared(hasClient, base, compare) && diff.Ok? && (baseList.Err? || compareList.Err?) ==>
        err == Some(if baseList.Err? then baseList.message else compareList.message) &&
        tree == old(tree) && selected == old(selected) && expanded == old(expanded)
      ensures !Cleared(hasClient, base, compare) && diff.Ok? && baseList.Ok? && compareList.Ok? ==>
        err == None && Shows(diff.value, Union(baseList.value + compareList.value))
    {
      if Cleared(hasClient, base, compare) {
        Clear();
        return None;
      }
      computing := true;
      if diff.Err? {
        computing := false;
        return Some(diff.message);
      }
      err := ApplyDiff(diff.value, baseList, compareList);
    }

    /** The early exit of `computeDiffAndTree`: diff, tree, selection and
        expansion are emptied. */
    method Clear()
      modifies this`diffFiles, this`tree, this`selected, this`expanded
      ensures Valid()
      ensures diffFiles == [] && tree == None && selected == {} && expanded == {}
    {
      diffFiles := [];
      tree := None;
      selected := {};
      expanded := {};
    }

    /** The diff has answered: it is stored, and the tree is rebuilt from
        the two file lists. `computing` is cleared in a `finally` of the
        source; no other field depends on it. */
    method ApplyDiff(files: seq<Git.NameStatus>, baseList: Result<seq<string>>, compareList: Result<seq<string>>)
      returns (err: Option<string>)
      requires Valid()
      modifies this`diffFiles, this`computing, this`tree, this`dirs, this`bound, this`selected, this`expanded
      ensures Valid() && diffFiles == files && !computing
      ensures baseList.Err? || compareList.Err? ==>
        err == Some(if baseList.Err? then baseList.message else compareList.message) &&
        tree == old(tree) && selected == old(selected) && expanded == old(expanded)
      ensures baseList.Ok? && compareList.Ok? ==>
        err == None && Shows(files, Union(baseList.value + compareList.value))
    {
      diffFiles := files;
      computing := false;
      err := ApplyLists(files, baseList, compareList);
    }

    /** The part of `computeDiffAndTree` after the diff has answered: the
        two file lists are fetched, then the tree, the selection and the
        expansion are replaced. */
    method ApplyLists(files: seq<Git.NameStatus>, baseList: Result<seq<string>>, compareList: Result<seq<string>>)
      returns (err: Option<string>)
      requires Valid()
      modifies this`tree, this`dirs, this`bound, this`selected, this`expanded
      ensures Valid()
      ensures baseList.Err? || compareList.Err? ==>
        err == Some(if baseList.Err? then baseList.message else compareList.message) &&
        tree == old(tree) && selected == old(selected) && expanded == old(expanded)
      ensures baseList.Ok? && compareList.Ok? ==>
        err == None && Shows(files, Union(baseList.value + compareList.value))
    {
      if baseList.Err? {
        return Some(baseList.message);
      }
      if compareList.Err? {
        return Some(compareList.message);
      }
      var root, d, b, sel, exp := Rebuild(files, baseList.value, compareList.value);
      Install(root, d, b, sel, exp);
      err := None;
    }

    /** Replaces the tree, the selection and the expansion at once. */
    method Install(root: Node, ghost d: map<string, seq<Child>>, ghost b: nat, sel: set<string>, exp: set<string>)
      requires WellFormed(d) && Bounded(d, b) && root == Tree(d, b)
      modifies this`tree, this`dirs, this`bound, this`selected, this`expanded
      ensures Valid()
      ensures tree == Some(root) && dirs == d && bound == b && selected == sel && expanded == exp
    {
      tree := Some(root);
      dirs := d;
      bound := b;
      selected := sel;
      expanded := exp;
    }


    method ToggleExpand(path: string)
      modifies this
      ensures expanded == Toggle(old(expanded), path)
      ensures unchanged(this`diffFiles, this`tree, this`showChangedOnly, this`selected, this`computing, this`dirs, this`bound)
    {
      expanded := Toggle(expanded, path);
    }

    method ToggleSelect(path: string)
      modifies this
      ensures selected == Toggle(old(selected), path)
      ensures unchanged(this`diffFiles, this`tree, this`showChangedOnly, this`expanded, this`computing, this`dirs, this`bound)
    {
      selected := Toggle(selected, path);
    }

    /** `expandAll`: every directory of the tree but the root; nothing
        happens without a tree. */
    method ExpandAll()
      requires Valid()
      modifies this`expanded
      ensures tree.None? ==> expanded == old(expanded)
      ensures tree.Some? ==> expanded == Elems(DirPaths(tree.value)) && expanded == dirs.Keys - {""}
    {
      if tree.None? {
        return;
      }
      var ds := CollectDirs(tree.value, []);
      expanded := Elems(ds);
      TreeDirs(dirs, bound);
    }

    method CollapseAll()
      modifies this`expanded
      ensures expanded == {}
    {
      expanded := {};
    }

    /** `selectAll`: every file of the tree, or only the changed ones when
        `showChangedOnly`; nothing happens without a tree. */
    method SelectAll()
      requires Valid()
      modifies this`selected
      ensures tree.None? ==> selected == old(selected)
      ensures tree.Some? ==> selected == Elems(SelectPaths(tree.value, showChangedOnly))
      ensures tree.Some? ==> selected == Selectable(dirs, showChangedOnly)
    {
      if tree.None? {
        return;
      }
      var ps := CollectFiles(tree.value, showChangedOnly, []);
      selected := Elems(ps);
      TreeFiles(dirs, bound, showChangedOnly);
    }

    method DeselectAll()
      modifies this`selected
      ensures selected == {}
    {
      selected := {};
    }
  }
}

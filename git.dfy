/** What both repository workers share: the answers of the git library they
    call (kept abstract), the per-path classification of a two-tree walk,
    the shape of requests, responses and file reads. */
module Git {
  import opened Common
  import opened Strings
  import opened Sorting
  import Refs

  // ---------------------------------------------------------------------
  // The git library, as seen from a worker

  /** An entry of a walker: a directory, or a blob with its object id. */
  datatype TreeEntry = Tree | Blob(oid: string)

  /** One side of a walk: every path the walker visits and what it finds there. */
  type Snapshot = map<string, TreeEntry>

  /** The answers the git library gives on one repository. A call that
      throws is an `Err` carrying the thrown message. */
  datatype GitView = GitView(
    listBranches: Result<seq<string>>,
    resolveRef: string -> Result<string>,
    tree: string -> Snapshot,
    workdir: Snapshot,
    readBlob: (string, string) -> Result<Bytes>,
    listFiles: string -> Result<seq<string>>,
    isIgnored: string -> bool)

  /** The branch list as both workers use it: `None` when listing threw. */
  function Listed(git: GitView): Option<seq<string>> {
    if git.listBranches.Ok? then Some(git.listBranches.value) else None
  }

  // ---------------------------------------------------------------------
  // Requests and responses

  datatype NameStatus = NameStatus(path: string, status: FileStatus)

  /** The payload of a file read. `text` is `None` for JavaScript's `null`. */
  datatype FileRead = FileRead(binary: bool, text: Option<string>, notFound: bool)

  /** A missing file reads as no text and not binary; a present one has
      text exactly when it is not binary. */
  predicate WellFormedRead(r: FileRead) {
    if r.notFound then !r.binary && r.text.None? else (r.text.None? <==> r.binary)
  }

  const MISSING: FileRead := FileRead(false, None, true)

  datatype Payload =
    | Branches(info: Refs.BranchInfo)
    | Files(files: seq<string>)
    | Changes(changes: seq<NameStatus>)
    | Read(read: FileRead)
    | Oid(oid: string)

  /** A final reply: `{id, type: 'ok', data}` or `{id, type: 'error', error}`. */
  datatype Response = Reply(id: int, data: Payload) | Failure(id: int, error: string)

  // ---------------------------------------------------------------------
  // The map callback of the diff walk

  /** The object id an entry offers; `undefined` for a missing entry. */
  function OidOf(e: Option<TreeEntry>): Option<string> {
    if e.Some? && e.value.Blob? then Some(e.value.oid) else None
  }

  /** `!oid` in JavaScript: undefined or the empty string. */
  predicate Falsy(oid: Option<string>) {
    oid.None? || oid.value == ""
  }

  /** Paths the walk never reports: the root, and git's own directory. */
  predicate Skipped(path: string) {
    path == "." || path == ".git" || StartsWith(path, ".git/")
  }

  /** The result of the walk's map callback for one path, given the base
      entry `a`, the compare entry `b`, and whether git ignores the path. */
  function Classify(path: string, a: Option<TreeEntry>, b: Option<TreeEntry>, ignored: bool): (r: Option<NameStatus>)
    ensures r.Some? ==> r.value.path == path && r.value.status != Unchanged
    ensures r.Some? ==> !Skipped(path) && !ignored && a != Some(Tree) && b != Some(Tree)
  {
    if Skipped(path) || ignored then None
    else if a == Some(Tree) || b == Some(Tree) then None
    else
      var oidA := OidOf(a);
      var oidB := OidOf(b);
      if oidA == oidB then None
      else if Falsy(oidA) then Some(NameStatus(path, Add))
      else if Falsy(oidB) then Some(NameStatus(path, Remove))
      else Some(NameStatus(path, Modify))
  }

  function Entry(side: Snapshot, path: string): Option<TreeEntry> {
    if path in side then Some(side[path]) else None
  }

  /** The classification of `path` in the walk of `a` against `b`. */
  function ClassifyIn(path: string, a: Snapshot, b: Snapshot, isIgnored: string -> bool): Option<NameStatus> {
    Classify(path, Entry(a, path), Entry(b, path), isIgnored(path))
  }

  /** For a path that is reported at all, the status is decided by which
      side holds the file: only compare means added, only base removed,
      both with different contents modified; equal contents are not reported. */
  lemma ClassifyByPresence(path: string, a: Option<TreeEntry>, b: Option<TreeEntry>)
    requires !Skipped(path)
    requires a.None? || (a.value.Blob? && a.value.oid != "")
    requires b.None? || (b.value.Blob? && b.value.oid != "")
    ensures Classify(path, a, b, false) == Some(NameStatus(path, Add)) <==> a.None? && b.Some?
    ensures Classify(path, a, b, false) == Some(NameStatus(path, Remove)) <==> a.Some? && b.None?
    ensures Classify(path, a, b, false) == Some(NameStatus(path, Modify)) <==>
      a.Some? && b.Some? && a.value.oid != b.value.oid
    ensures Classify(path, a, b, false).None? <==> a == b
  {
  }

  /** Swapping the sides of a diff turns additions into removals and back,
      and keeps modifications. */
  lemma ClassifySwapped(path: string, a: Option<TreeEntry>, b: Option<TreeEntry>, ignored: bool)
    requires !Falsy(OidOf(a)) || a.None? || a == Some(Tree)
    requires !Falsy(OidOf(b)) || b.None? || b == Some(Tree)
    ensures Classify(path, a, b, ignored).None? <==> Classify(path, b, a, ignored).None?
    ensures Classify(path, a, b, ignored) == Some(NameStatus(path, Add)) <==>
      Classify(path, b, a, ignored) == Some(NameStatus(path, Remove))
    ensures Classify(path, a, b, ignored) == Some(NameStatus(path, Modify)) <==>
      Classify(path, b, a, ignored) == Some(NameStatus(path, Modify))
  {
  }

  // ---------------------------------------------------------------------
  // The order of the walk

  /** Where a character stands in the walk order: '/' before every other
      character, the others by code point. */
  function Rank(c: char): int {
    if c == '/' then -1 else c as int
  }

  /** `git.walk` goes depth first and takes the entries of a directory in
      ascending order of their names. On full paths that is code-point
      order in which '/' comes before every other character, so a
      directory's subtree comes before any later sibling of the directory. */
  predicate WalkBefore(a: string, b: string) {
    if a == [] then b != []
    else if b == [] then false
    else if a[0] == b[0] then WalkBefore(a[1..], b[1..])
    else Rank(a[0]) < Rank(b[0])
  }

  lemma {:induction false} WalkIrreflexive(a: string)
    ensures !WalkBefore(a, a)
  {
    if a != [] { WalkIrreflexive(a[1..]); }
  }

  lemma {:induction false} WalkTransitive(a: string, b: string, c: string)
    requires WalkBefore(a, b) && WalkBefore(b, c)
    ensures WalkBefore(a, c)
  {
    if a != [] && b != [] && c != [] && a[0] == b[0] && b[0] == c[0] {
      WalkTransitive(a[1..], b[1..], c[1..]);
    }
  }

  lemma {:induction false} WalkTotal(a: string, b: string)
    requires a != b
    ensures WalkBefore(a, b) || WalkBefore(b, a)
  {
    if a != [] && b != [] && a[0] == b[0] {
      assert a == [a[0]] + a[1..] && b == [b[0]] + b[1..];
      WalkTotal(a[1..], b[1..]);
    }
  }

  lemma {:induction false} WalkAsymmetric(a: string, b: string)
    requires WalkBefore(a, b)
    ensures !WalkBefore(b, a)
  {
    if a != [] && b != [] && a[0] == b[0] {
      WalkAsymmetric(a[1..], b[1..]);
    }
  }

  /** A directory is visited before everything beneath it. */
  lemma {:induction false} WalkParentFirst(p: string, rest: string)
    requires rest != []
    ensures WalkBefore(p, p + rest)
  {
    if p != [] {
      assert (p + rest)[1..] == p[1..] + rest;
      WalkParentFirst(p[1..], rest);
    }
  }

  /** The walk never leaves a subtree and comes back: whatever it visits
      between two paths under a prefix lies under that prefix too. */
  lemma {:induction false} WalkSubtreeContiguous(x: string, y: string, z: string, prefix: string)
    requires StartsWith(x, prefix) && StartsWith(z, prefix)
    requires WalkBefore(x, y) && WalkBefore(y, z)
    ensures StartsWith(y, prefix)
  {
    if prefix != [] {
      assert x[0] == prefix[0] && z[0] == prefix[0];
      assert y != [];
      assert y[0] == prefix[0];
      assert x[1..][..|prefix| - 1] == prefix[1..] && z[1..][..|prefix| - 1] == prefix[1..];
      WalkSubtreeContiguous(x[1..], y[1..], z[1..], prefix[1..]);
      assert y == [y[0]] + y[1..];
    }
  }

  /** Entries of one directory, whose names have no '/', come in the
      code-point order of their names. */
  lemma {:induction false} WalkSiblings(dir: string, m: string, n: string)
    requires forall i :: 0 <= i < |m| ==> m[i] != '/'
    requires forall i :: 0 <= i < |n| ==> n[i] != '/'
    ensures WalkBefore(dir + m, dir + n) <==> Less(m, n)
  {
    if dir == [] {
      assert dir + m == m && dir + n == n;
      WalkNoSlashIsLess(m, n);
    } else {
      assert (dir + m)[1..] == dir[1..] + m && (dir + n)[1..] == dir[1..] + n;
      WalkSiblings(dir[1..], m, n);
    }
  }

  lemma {:induction false} WalkNoSlashIsLess(m: string, n: string)
    requires forall i :: 0 <= i < |m| ==> m[i] != '/'
    requires forall i :: 0 <= i < |n| ==> n[i] != '/'
    ensures WalkBefore(m, n) <==> Less(m, n)
  {
    if m != [] && n != [] && m[0] == n[0] {
      WalkNoSlashIsLess(m[1..], n[1..]);
    }
  }

  /** The walk order is not plain code-point order: "a/b" is visited before
      "a-c", although '-' comes before '/'. */
  lemma WalkIsNotCodePointOrder()
    ensures WalkBefore("a/b", "a-c") && Less("a-c", "a/b")
  {
    assert "a/b"[1..] == "/b" && "a-c"[1..] == "-c";
  }

  predicate WalkSorted(s: seq<string>) {
    forall i :: 0 < i < |s| ==> WalkBefore(s[i - 1], s[i])
  }

  /** Inserts `x` into a list in walk order unless it is already there. */
  function InsertWalk(x: string, s: seq<string>): (r: seq<string>)
    requires WalkSorted(s)
    ensures WalkSorted(r)
    ensures Elems(r) == Elems(s) + {x}
    ensures |r| > 0 && (r[0] == x || (|s| > 0 && r[0] == s[0]))
  {
    if s == [] then [x]
    else if x == s[0] then s
    else if WalkBefore(x, s[0]) then [x] + s
    else
      WalkTotal(x, s[0]);
      var t := InsertWalk(x, s[1..]);
      assert Elems(s) == {s[0]} + Elems(s[1..]);
      assert Elems([s[0]] + t) == {s[0]} + Elems(t);
      [s[0]] + t
  }

  /** The paths of both sides, in the order the walk visits them. */
  method WalkOrder(paths: set<string>) returns (list: seq<string>)
    ensures WalkSorted(list) && Elems(list) == paths
  {
    list := [];
    var rest := paths;
    while rest != {}
      invariant WalkSorted(list)
      invariant Elems(list) + rest == paths
      decreases rest
    {
      var x :| x in rest;
      list := InsertWalk(x, list);
      rest := rest - {x};
    }
  }

  lemma {:induction false} WalkSortedPairwise(s: seq<string>, i: int, j: int)
    requires WalkSorted(s)
    requires 0 <= i < j < |s|
    ensures WalkBefore(s[i], s[j])
  {
    if i < j - 1 {
      WalkSortedPairwise(s, i, j - 1);
      WalkTransitive(s[i], s[j - 1], s[j]);
    }
  }

  /** The defined results of the map callback over `paths`, in order. */
  function ChangeList(paths: seq<string>, a: Snapshot, b: Snapshot, isIgnored: string -> bool): seq<NameStatus> {
    if paths == [] then []
    else
      var rest := ChangeList(paths[..|paths| - 1], a, b, isIgnored);
      match ClassifyIn(paths[|paths| - 1], a, b, isIgnored)
      case Some(x) => rest + [x]
      case None => rest
  }

  /** `git.walk` over two trees with the shared map callback, keeping only
      the defined results. The walk visits the union of both sides' paths
      in walk order. */
  method WalkDiff(a: Snapshot, b: Snapshot, isIgnored: string -> bool) returns (files: seq<NameStatus>)
    ensures forall i :: 0 <= i < |files| ==>
      files[i].path in a.Keys + b.Keys && ClassifyIn(files[i].path, a, b, isIgnored) == Some(files[i])
    ensures forall p :: p in a.Keys + b.Keys && ClassifyIn(p, a, b, isIgnored).Some? ==>
      exists i :: 0 <= i < |files| && files[i].path == p
    ensures forall i :: 0 < i < |files| ==> WalkBefore(files[i - 1].path, files[i].path)
  {
    var paths := WalkOrder(a.Keys + b.Keys);
    files := [];
    for k := 0 to |paths|
      invariant files == ChangeList(paths[..k], a, b, isIgnored)
    {
      assert paths[..k + 1][..k] == paths[..k];
      var r := ClassifyIn(paths[k], a, b, isIgnored);
      if r.Some? {
        files := files + [r.value];
      }
    }
    assert paths[..|paths|] == paths;
    ChangesSound(paths, a, b, isIgnored);
    forall p | p in a.Keys + b.Keys && ClassifyIn(p, a, b, isIgnored).Some?
      ensures exists i :: 0 <= i < |files| && files[i].path == p
    {
      assert p in Elems(paths);
      ChangesComplete(paths, a, b, isIgnored, p);
    }
    ChangesSorted(paths, a, b, isIgnored);
  }

  /** Every reported change is the classification of a visited path. */
  lemma {:induction false} ChangesSound(paths: seq<string>, a: Snapshot, b: Snapshot, isIgnored: string -> bool)
    ensures forall i :: 0 <= i < |ChangeList(paths, a, b, isIgnored)| ==>
      ChangeList(paths, a, b, isIgnored)[i].path in paths &&
      ClassifyIn(ChangeList(paths, a, b, isIgnored)[i].path, a, b, isIgnored) == Some(ChangeList(paths, a, b, isIgnored)[i])
  {
    if paths != [] {
      ChangesSound(paths[..|paths| - 1], a, b, isIgnored);
    }
  }

  /** Every visited path with a defined classification is reported. */
  lemma {:induction false} ChangesComplete(paths: seq<string>, a: Snapshot, b: Snapshot, isIgnored: string -> bool, p: string)
    requires p in paths && ClassifyIn(p, a, b, isIgnored).Some?
    ensures exists i :: 0 <= i < |ChangeList(paths, a, b, isIgnored)| && ChangeList(paths, a, b, isIgnored)[i].path == p
  {
    var init := paths[..|paths| - 1];
    var c := ChangeList(paths, a, b, isIgnored);
    var c0 := ChangeList(init, a, b, isIgnored);
    assert paths == init + [paths[|paths| - 1]];
    if p == paths[|paths| - 1] {
      assert c == c0 + [ClassifyIn(p, a, b, isIgnored).value];
      assert c[|c| - 1].path == p;
    } else {
      assert p in init;
      ChangesComplete(init, a, b, isIgnored, p);
      var i :| 0 <= i < |c0| && c0[i].path == p;
      assert c[..|c0|] == c0;
      assert c[i] == c0[i];
    }
  }

  /** Visiting the paths in walk order reports them in walk order. */
  lemma {:induction false} ChangesSorted(paths: seq<string>, a: Snapshot, b: Snapshot, isIgnored: string -> bool)
    requires WalkSorted(paths)
    ensures forall i :: 0 < i < |ChangeList(paths, a, b, isIgnored)| ==>
      WalkBefore(ChangeList(paths, a, b, isIgnored)[i - 1].path, ChangeList(paths, a, b, isIgnored)[i].path)
  {
    if paths != [] {
      var init := paths[..|paths| - 1];
      ChangesSorted(init, a, b, isIgnored);
      ChangesSound(init, a, b, isIgnored);
      var c0 := ChangeList(init, a, b, isIgnored);
      if |c0| > 0 {
        var last := c0[|c0| - 1].path;
        var j :| 0 <= j < |init| && init[j] == last;
        WalkSortedPairwise(paths, j, |paths| - 1);
      }
    }
  }

  /** A reply carrying exactly the changes of the walk of `a` against `b`,
      in walk order. */
  ghost predicate ChangesReply(id: int, a: Snapshot, b: Snapshot, isIgnored: string -> bool, r: Response) {
    r.Reply? && r.id == id && r.data.Changes? &&
    (forall i :: 0 <= i < |r.data.changes| ==>
       r.data.changes[i].path in a.Keys + b.Keys &&
       ClassifyIn(r.data.changes[i].path, a, b, isIgnored) == Some(r.data.changes[i])) &&
    (forall p :: p in a.Keys + b.Keys && ClassifyIn(p, a, b, isIgnored).Some? ==>
       exists i :: 0 <= i < |r.data.changes| && r.data.changes[i].path == p) &&
    (forall i :: 0 < i < |r.data.changes| ==> WalkBefore(r.data.changes[i - 1].path, r.data.changes[i].path))
  }

  /** The walk of a diff whose refs both resolved. */
  method DiffWalk(id: int, git: GitView, base: string, compare: string) returns (r: Response)
    requires base == WORKDIR || git.resolveRef(base).Ok?
    requires compare == WORKDIR || git.resolveRef(compare).Ok?
    ensures ChangesReply(id, Side(base, git), Side(compare, git), git.isIgnored, r)
  {
    var files := WalkDiff(Side(base, git), Side(compare, git), git.isIgnored);
    r := Reply(id, Changes(files));
  }

  /** A walk of a side against itself reports nothing. */
  lemma SameSideUnchanged(a: Snapshot, isIgnored: string -> bool, p: string)
    ensures ClassifyIn(p, a, a, isIgnored).None?
  {
  }

  // ---------------------------------------------------------------------
  // Resolving the two sides of a diff

  /** The ref a failed diff names: the base when it is a real ref that did
      not resolve, otherwise the compare ref. */
  function UnresolvedSide(base: string, compare: string, git: GitView): (r: Option<string>)
    ensures r.Some? ==>
      (base != WORKDIR && git.resolveRef(base).Err? && r.value == base) ||
      ((base == WORKDIR || git.resolveRef(base).Ok?) &&
       compare != WORKDIR && git.resolveRef(compare).Err? && r.value == compare)
    ensures r.None? <==> (base == WORKDIR || git.resolveRef(base).Ok?) &&
                         (compare == WORKDIR || git.resolveRef(compare).Ok?)
  {
    if base != WORKDIR && git.resolveRef(base).Err? then Some(base)
    else if compare != WORKDIR && git.resolveRef(compare).Err? then Some(compare)
    else None
  }

  /** The side of a walk for a ref: the working directory for the sentinel,
      otherwise the tree of the commit it resolved to. */
  function Side(ref: string, git: GitView): Snapshot
    requires ref == WORKDIR || git.resolveRef(ref).Ok?
  {
    if ref == WORKDIR then git.workdir else git.tree(git.resolveRef(ref).value)
  }
}

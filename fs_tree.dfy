/** The File System Access helpers of the browser build: permissions,
    reading a file by path segments, and the three snapshots the repository
    hook takes of a picked folder (the whole `.git` directory, the working
    tree without `.git` and ignored paths, and just the refs). A folder is a
    tree of entries; the order of a directory's entries is the order the
    browser's `entries()` iterator yields them. */
module BrowserFs {
  import opened Common
  import opened Strings

  // ---------------------------------------------------------------------
  // Permissions

  datatype PermissionState = Granted | Denied | Prompt

  /** How a handle answers `queryPermission` or `requestPermission`: the
      method may be missing, may throw, or may return a state. */
  datatype PermissionCall = Unsupported | Throws | Returns(state: PermissionState)

  /** `queryPermission`: a missing method or a throw reads as 'prompt'. */
  function QueryPermission(call: PermissionCall): PermissionState {
    match call
    case Returns(s) => s
    case _ => Prompt
  }

  /** `requestPermission`: a throw reads as 'denied', a missing method as 'granted'. */
  function RequestPermission(call: PermissionCall): PermissionState {
    match call
    case Returns(s) => s
    case Throws => Denied
    case Unsupported => Granted
  }

  /** `ensurePermission`: query first, and request only when the query
      answered neither 'granted' nor 'denied'. */
  function EnsurePermission(query: PermissionCall, request: PermissionCall): (r: PermissionState)
    ensures QueryPermission(query) != Prompt ==> r == QueryPermission(query)
    ensures QueryPermission(query) == Prompt ==> r == RequestPermission(request)
  {
    match QueryPermission(query)
    case Granted => Granted
    case Denied => Denied
    case Prompt => RequestPermission(request)
  }

  /** Access is granted exactly when the query grants it, or the query is
      inconclusive and the request grants it or cannot be made. */
  lemma EnsurePermissionGranted(query: PermissionCall, request: PermissionCall)
    ensures EnsurePermission(query, request) == Granted <==>
      query == Returns(Granted) ||
      ((query.Unsupported? || query.Throws? || query == Returns(Prompt)) &&
       (request.Unsupported? || request == Returns(Granted)))
  {
  }

  // ---------------------------------------------------------------------
  // The folder tree and handle lookups

  datatype Node = File(data: Bytes) | Dir(entries: seq<Entry>)
  datatype Entry = Entry(name: string, node: Node)

  /** What a DOM call throws: a `DOMException` with a name and a message,
      or an `Error` with a message. */
  datatype Thrown = DomException(name: string, message: string) | Error(message: string)

  datatype Outcome<T> = Done(value: T) | Threw(error: Thrown)

  const NOT_FOUND: string := "NotFoundError"
  const TYPE_MISMATCH: string := "TypeMismatchError"

  /** The message of each exception: browsers word their own, so the model
      takes the description Web IDL gives for the name. */
  const NOT_FOUND_MESSAGE: string := "The object can not be found here."
  const TYPE_MISMATCH_MESSAGE: string := "The type of an object is incompatible with the expected operation."

  const NotFound: Thrown := DomException(NOT_FOUND, NOT_FOUND_MESSAGE)
  const TypeMismatch: Thrown := DomException(TYPE_MISMATCH, TYPE_MISMATCH_MESSAGE)

  /** The entry of a directory with the given name. */
  function Lookup(entries: seq<Entry>, name: string): (r: Option<Node>)
    ensures r.Some? ==> exists k :: 0 <= k < |entries| && entries[k] == Entry(name, r.value)
    ensures r.None? ==> forall k :: 0 <= k < |entries| ==> entries[k].name != name
  {
    if entries == [] then None
    else if entries[0].name == name then Some(entries[0].node)
    else
      var r := Lookup(entries[1..], name);
      assert forall k :: 1 <= k < |entries| ==> entries[k] == entries[1..][k - 1];
      r
  }

  /** `getDirectoryHandle(name, { create: false })` */
  function GetDirectoryHandle(entries: seq<Entry>, name: string): (r: Outcome<seq<Entry>>)
    ensures r.Done? <==> Lookup(entries, name).Some? && Lookup(entries, name).value.Dir?
  {
    match Lookup(entries, name)
    case None => Threw(NotFound)
    case Some(File(_)) => Threw(TypeMismatch)
    case Some(Dir(es)) => Done(es)
  }

  /** `getFileHandle(name, { create: false })` followed by reading the file. */
  function GetFile(entries: seq<Entry>, name: string): (r: Outcome<Bytes>)
    ensures r.Done? <==> Lookup(entries, name).Some? && Lookup(entries, name).value.File?
  {
    match Lookup(entries, name)
    case None => Threw(NotFound)
    case Some(Dir(_)) => Threw(TypeMismatch)
    case Some(File(data)) => Done(data)
  }

  /** The directory reached by following the segments one by one; the
      first failing step decides the error. */
  function SubDirectory(entries: seq<Entry>, segments: seq<string>): Outcome<seq<Entry>> {
    if segments == [] then Done(entries)
    else
      match SubDirectory(entries, segments[..|segments| - 1])
      case Threw(e) => Threw(e)
      case Done(dir) => GetDirectoryHandle(dir, segments[|segments| - 1])
  }

  /** `getSubDirectoryHandle` */
  method GetSubDirectoryHandle(entries: seq<Entry>, segments: seq<string>) returns (r: Outcome<seq<Entry>>)
    ensures r == SubDirectory(entries, segments)
  {
    var current := entries;
    for i := 0 to |segments|
      invariant SubDirectory(entries, segments[..i]) == Done(current)
    {
      assert segments[..i + 1][..i] == segments[..i];
      var next := GetDirectoryHandle(current, segments[i]);
      if next.Threw? {
        FirstErrorSticks(entries, segments, i + 1);
        return next;
      }
      current := next.value;
    }
    assert segments[..|segments|] == segments;
    return Done(current);
  }

  /** Once a step fails, following more segments keeps the same error. */
  lemma {:induction false} FirstErrorSticks(entries: seq<Entry>, segments: seq<string>, n: nat)
    requires n <= |segments| && SubDirectory(entries, segments[..n]).Threw?
    ensures SubDirectory(entries, segments) == SubDirectory(entries, segments[..n])
    decreases |segments| - n
  {
    if n < |segments| {
      assert segments[..n + 1][..n] == segments[..n];
      FirstErrorSticks(entries, segments, n + 1);
    } else {
      assert segments[..n] == segments;
    }
  }

  const INVALID_PATH: string := "Invalid path: empty"

  /** What `readFileTextFromDir` yields for a path of segments. */
  function ReadFileText(root: seq<Entry>, path: seq<string>): (r: Outcome<string>)
    ensures path == [] ==> r == Threw(Error(INVALID_PATH))
  {
    if path == [] then Threw(Error(INVALID_PATH))
    else
      var parentPath := path[..|path| - 1];
      var parent := if |parentPath| > 0 then SubDirectory(root, parentPath) else Done(root);
      match parent
      case Threw(e) => Threw(e)
      case Done(dir) =>
        match GetFile(dir, path[|path| - 1])
        case Threw(e) => Threw(e)
        case Done(data) => Done(Decode(data))
  }

  /** `readFileTextFromDir` */
  method ReadFileTextFromDir(root: seq<Entry>, path: seq<string>) returns (r: Outcome<string>)
    ensures r == ReadFileText(root, path)
  {
    if |path| == 0 {
      return Threw(Error(INVALID_PATH));
    }
    var fileName := path[|path| - 1];
    var parentPath := path[..|path| - 1];
    var parentDir := root;
    if |parentPath| > 0 {
      var sub := GetSubDirectoryHandle(root, parentPath);
      if sub.Threw? {
        return Threw(sub.error);
      }
      parentDir := sub.value;
    }
    var file := GetFile(parentDir, fileName);
    if file.Threw? {
      return Threw(file.error);
    }
    return Done(Decode(file.value));
  }

  /** A file two levels down is read through its directory. */
  lemma ReadNestedFile(root: seq<Entry>, dir: string, name: string, sub: seq<Entry>, data: Bytes)
    requires Lookup(root, dir) == Some(Dir(sub)) && Lookup(sub, name) == Some(File(data))
    ensures ReadFileText(root, [dir, name]) == Done(Decode(data))
  {
    ReadTwoSegments(root, dir, name);
  }

  /** Reading `[dir, name]` opens `dir` and then the file `name` in it. */
  lemma ReadTwoSegments(root: seq<Entry>, dir: string, name: string)
    ensures ReadFileText(root, [dir, name]) ==
      match GetDirectoryHandle(root, dir)
      case Threw(e) => Threw(e)
      case Done(d) => (match GetFile(d, name) case Threw(e) => Threw(e) case Done(data) => Done(Decode(data)))
  {
    assert [dir, name][..1] == [dir];
    assert [dir][..0] == [];
    assert SubDirectory(root, [dir]) == GetDirectoryHandle(root, dir);
  }

  const MISSING_HEAD: string := "Not a valid Git repository (missing .git/HEAD)"

  /** `e.name === 'NotFoundError'` */
  predicate IsNotFound(e: Thrown) {
    e.DomException? && e.name == NOT_FOUND
  }

  /** What `verifyGitRepositoryRoot` yields. */
  function VerifiedRoot(root: seq<Entry>): Result<string> {
    match ReadFileText(root, [".git", "HEAD"])
    case Done(head) => Ok(head)
    case Threw(e) => Err(if IsNotFound(e) then MISSING_HEAD else e.message)
  }

  /** `verifyGitRepositoryRoot` */
  method VerifyGitRepositoryRoot(root: seq<Entry>) returns (r: Result<string>)
    ensures r == VerifiedRoot(root)
  {
    var head := ReadFileTextFromDir(root, [".git", "HEAD"]);
    if head.Done? {
      return Ok(head.value);
    }
    var msg := if IsNotFound(head.error) then MISSING_HEAD else head.error.message;
    return Err(msg);
  }

  /** A folder with `.git/HEAD` is accepted with the text of HEAD. */
  lemma VerifyAcceptsRepository(root: seq<Entry>, git: seq<Entry>, data: Bytes)
    requires Lookup(root, ".git") == Some(Dir(git)) && Lookup(git, "HEAD") == Some(File(data))
    ensures VerifiedRoot(root) == Ok(Decode(data))
  {
    ReadNestedFile(root, ".git", "HEAD", git, data);
  }

  /** A folder without `.git`, or whose `.git` has no HEAD, is refused with
      the repository message. */
  lemma VerifyRejectsMissingHead(root: seq<Entry>)
    requires Lookup(root, ".git").None? ||
             (Lookup(root, ".git").value.Dir? && Lookup(Lookup(root, ".git").value.entries, "HEAD").None?)
    ensures VerifiedRoot(root) == Err(MISSING_HEAD)
  {
    ReadTwoSegments(root, ".git", "HEAD");
  }

  /** Any other failure is reported with the exception's own message: a
      `.git` that is a file, or a `HEAD` that is a directory. */
  lemma VerifyReportsMessage(root: seq<Entry>)
    requires (Lookup(root, ".git").Some? && Lookup(root, ".git").value.File?) ||
             (Lookup(root, ".git").Some? && Lookup(root, ".git").value.Dir? &&
              Lookup(Lookup(root, ".git").value.entries, "HEAD").Some? &&
              Lookup(Lookup(root, ".git").value.entries, "HEAD").value.Dir?)
    ensures VerifiedRoot(root) == Err(TYPE_MISMATCH_MESSAGE)
  {
    ReadTwoSegments(root, ".git", "HEAD");
  }

  // ---------------------------------------------------------------------
  // Snapshots

  /** `prefix ? `${prefix}/${name}` : name` */
  function JoinPath(prefix: string, name: string): string {
    if prefix == "" then name else prefix + "/" + name
  }

  /** The files under a directory, depth first in iteration order, with
      their paths relative to it behind `prefix`. */
  function GitFiles(entries: seq<Entry>, prefix: string): seq<FileEntry>
    decreases entries
  {
    if entries == [] then []
    else
      GitFiles(entries[..|entries| - 1], prefix) + GitEntry(entries[|entries| - 1], prefix)
  }

  function GitEntry(e: Entry, prefix: string): seq<FileEntry>
    decreases e
  {
    match e.node
    case File(data) => [FileEntry(JoinPath(prefix, e.name), data)]
    case Dir(children) => GitFiles(children, JoinPath(prefix, e.name))
  }

  /** The `walk` of `snapshotGitFiles`, and `walkHeads` of
      `snapshotGitRefs`, which is the same walk started under a non-empty
      prefix. */
  method WalkFiles(entries: seq<Entry>, prefix: string, acc: seq<FileEntry>) returns (out: seq<FileEntry>)
    ensures out == acc + GitFiles(entries, prefix)
    decreases entries
  {
    out := acc;
    for i := 0 to |entries|
      invariant out == acc + GitFiles(entries[..i], prefix)
    {
      assert entries[..i + 1][..i] == entries[..i];
      var e := entries[i];
      match e.node {
        case File(data) =>
          out := out + [FileEntry(JoinPath(prefix, e.name), data)];
        case Dir(children) =>
          out := WalkFiles(children, JoinPath(prefix, e.name), out);
      }
    }
    assert entries[..|entries|] == entries;
  }

  const MISSING_GIT_DIR: string := "Missing .git directory in selected folder"

  function GitSnapshot(root: seq<Entry>): Outcome<seq<FileEntry>> {
    match GetDirectoryHandle(root, ".git")
    case Threw(_) => Threw(Error(MISSING_GIT_DIR))
    case Done(git) => Done(GitFiles(git, ""))
  }

  /** `snapshotGitFiles`: every file of `.git`, with paths relative to it. */
  method SnapshotGitFiles(root: seq<Entry>) returns (r: Outcome<seq<FileEntry>>)
    ensures r == GitSnapshot(root)
  {
    var git := GetDirectoryHandle(root, ".git");
    if git.Threw? {
      return Threw(Error(MISSING_GIT_DIR));
    }
    var entries := WalkFiles(git.value, "", []);
    assert entries == GitFiles(git.value, "");
    return Done(entries);
  }

  /** The ignore matcher: the `ignore` package loaded with the pattern
      texts `sources`; `matcher` stands for its `ignores` test. */
  datatype Ignore = Ignore(matcher: (seq<string>, string) -> bool, sources: seq<string>) {
    predicate Ignores(path: string) {
      matcher(sources, path)
    }
  }

  /** The working-tree files: the `.git` directory is skipped, every other
      entry is tested against the ignore rules (a directory with a trailing
      '/'), and ignored directories are not entered. */
  function WorkFiles(entries: seq<Entry>, prefix: string, ignored: Ignore): seq<FileEntry>
    decreases entries
  {
    if entries == [] then []
    else
      var e := entries[|entries| - 1];
      WorkFiles(entries[..|entries| - 1], prefix, ignored) + WorkEntry(e, prefix, ignored)
  }

  function WorkEntry(e: Entry, prefix: string, ignored: Ignore): seq<FileEntry>
    decreases e
  {
    if Entered(e, prefix, ignored) then WorkFiles(e.node.entries, JoinPath(prefix, e.name), ignored)
    else FileStep(e, prefix, ignored)
  }

  /** A directory other than `.git` whose path with a trailing '/' is not ignored. */
  predicate Entered(e: Entry, prefix: string, ignored: Ignore) {
    e.node.Dir? && e.name != ".git" && !ignored.Ignores(JoinPath(prefix, e.name) + "/")
  }

  /** A file entry whose path is not ignored yields itself; anything else nothing. */
  function FileStep(e: Entry, prefix: string, ignored: Ignore): seq<FileEntry> {
    var rel := JoinPath(prefix, e.name);
    if e.node.File? && !ignored.Ignores(rel) then [FileEntry(rel, e.node.data)] else []
  }

  /** The `walk` of `snapshotWorktreeFiles`. */
  method WalkWorktree(entries: seq<Entry>, prefix: string, ignored: Ignore, acc: seq<FileEntry>)
    returns (out: seq<FileEntry>)
    ensures out == acc + WorkFiles(entries, prefix, ignored)
    decreases entries
  {
    out := acc;
    for i := 0 to |entries|
      invariant out == acc + WorkFiles(entries[..i], prefix, ignored)
    {
      WorkFilesSnoc(entries, i, prefix, ignored);
      var e := entries[i];
      if Entered(e, prefix, ignored) {
        out := WalkWorktree(e.node.entries, JoinPath(prefix, e.name), ignored, out);
      } else {
        out := out + FileStep(e, prefix, ignored);
      }
    }
    assert entries[..|entries|] == entries;
  }

  lemma WorkFilesSnoc(entries: seq<Entry>, i: nat, prefix: string, ignored: Ignore)
    requires i < |entries|
    ensures WorkFiles(entries[..i + 1], prefix, ignored) ==
      WorkFiles(entries[..i], prefix, ignored) + WorkEntry(entries[i], prefix, ignored)
  {
    assert entries[..i + 1][..i] == entries[..i];
  }

  /** The texts of the root `.gitignore` and of `.git/info/exclude` that
      could be read, in that order. */
  function IgnoreSources(root: seq<Entry>): seq<string> {
    (match ReadFileText(root, [".gitignore"]) case Done(t) => [t] case Threw(_) => []) +
    (match ReadFileText(root, [".git", "info", "exclude"]) case Done(t) => [t] case Threw(_) => [])
  }

  /** `snapshotWorktreeFiles` */
  method SnapshotWorktreeFiles(root: seq<Entry>, matcher: (seq<string>, string) -> bool)
    returns (files: seq<FileEntry>)
    ensures files == WorkFiles(root, "", Ignore(matcher, IgnoreSources(root)))
  {
    var sources: seq<string> := [];
    var gi := ReadFileTextFromDir(root, [".gitignore"]);
    if gi.Done? {
      sources := sources + [gi.value];
    }
    var ex := ReadFileTextFromDir(root, [".git", "info", "exclude"]);
    if ex.Done? {
      sources := sources + [ex.value];
    }
    assert sources == IgnoreSources(root);
    files := WalkWorktree(root, "", Ignore(matcher, sources), []);
    assert files == WorkFiles(root, "", Ignore(matcher, sources));
  }

  /** What `snapshotGitRefs` yields: HEAD, the files under `refs/heads`, and
      `packed-refs`, each only when present; a missing `.git` is an error. */
  function RefsSnapshot(root: seq<Entry>): Outcome<seq<FileEntry>> {
    match GetDirectoryHandle(root, ".git")
    case Threw(e) => Threw(e)
    case Done(git) =>
      Done(PresentFile(git, "HEAD") + HeadsFiles(git) + PresentFile(git, "packed-refs"))
  }

  function PresentFile(git: seq<Entry>, name: string): seq<FileEntry> {
    match GetFile(git, name)
    case Done(data) => [FileEntry(name, data)]
    case Threw(_) => []
  }

  function HeadsFiles(git: seq<Entry>): seq<FileEntry> {
    match GetDirectoryHandle(git, "refs")
    case Threw(_) => []
    case Done(refs) =>
      match GetDirectoryHandle(refs, "heads")
      case Threw(_) => []
      case Done(heads) => GitFiles(heads, "refs/heads")
  }

  /** `snapshotGitRefs` */
  method SnapshotGitRefs(root: seq<Entry>) returns (r: Outcome<seq<FileEntry>>)
    ensures r == RefsSnapshot(root)
  {
    var git := GetDirectoryHandle(root, ".git");
    if git.Threw? {
      return Threw(git.error);
    }
    var out: seq<FileEntry> := [];
    var head := GetFile(git.value, "HEAD");
    if head.Done? {
      out := out + [FileEntry("HEAD", head.value)];
    }
    assert out == PresentFile(git.value, "HEAD");
    var refs := GetDirectoryHandle(git.value, "refs");
    if refs.Done? {
      var heads := GetDirectoryHandle(refs.value, "heads");
      if heads.Done? {
        out := WalkFiles(heads.value, "refs/heads", out);
      }
    }
    assert out == PresentFile(git.value, "HEAD") + HeadsFiles(git.value);
    var packed := GetFile(git.value, "packed-refs");
    if packed.Done? {
      out := out + [FileEntry("packed-refs", packed.value)];
    }
    assert out == PresentFile(git.value, "HEAD") + HeadsFiles(git.value) + PresentFile(git.value, "packed-refs");
    return Done(out);
  }

  // ---------------------------------------------------------------------
  // Properties of the snapshots

  /** No file the working-tree snapshot keeps is ignored. */
  lemma {:induction false} WorkFilesNotIgnored(entries: seq<Entry>, prefix: string, ignored: Ignore)
    ensures forall f :: f in WorkFiles(entries, prefix, ignored) ==> !ignored.Ignores(f.path)
    decreases entries
  {
    if entries != [] {
      WorkFilesNotIgnored(entries[..|entries| - 1], prefix, ignored);
      WorkEntryNotIgnored(entries[|entries| - 1], prefix, ignored);
    }
  }

  lemma {:induction false} WorkEntryNotIgnored(e: Entry, prefix: string, ignored: Ignore)
    ensures forall f :: f in WorkEntry(e, prefix, ignored) ==> !ignored.Ignores(f.path)
    decreases e
  {
    if !(e.node.Dir? && e.name == ".git") {
      var rel := JoinPath(prefix, e.name);
      if e.node.Dir? && !ignored.Ignores(rel + "/") {
        WorkFilesNotIgnored(e.node.entries, rel, ignored);
      }
    }
  }

  /** Whatever a skipped directory holds — the `.git` directory, or one the
      rules ignore when tested with a trailing '/' — the snapshot is the
      same: the walk never enters it. */
  lemma {:induction false} SkippedDirectoryNotEntered(entries: seq<Entry>, prefix: string, ignored: Ignore,
                                                      k: nat, children: seq<Entry>)
    requires k < |entries| && entries[k].node.Dir?
    requires entries[k].name == ".git" || ignored.Ignores(JoinPath(prefix, entries[k].name) + "/")
    ensures WorkFiles(entries[k := Entry(entries[k].name, Dir(children))], prefix, ignored) ==
            WorkFiles(entries, prefix, ignored)
    decreases |entries|
  {
    var n := |entries|;
    var replaced := entries[k := Entry(entries[k].name, Dir(children))];
    if k == n - 1 {
      assert replaced[..n - 1] == entries[..n - 1];
    } else {
      assert replaced[..n - 1] == entries[..n - 1][k := Entry(entries[k].name, Dir(children))];
      SkippedDirectoryNotEntered(entries[..n - 1], prefix, ignored, k, children);
      assert replaced[n - 1] == entries[n - 1];
    }
  }

  /** Entry names as a browser reports them: non-empty, never starting with '/'. */
  predicate WellNamed(entries: seq<Entry>)
    decreases entries
  {
    forall k :: 0 <= k < |entries| ==>
      |entries[k].name| > 0 && entries[k].name[0] != '/' &&
      (entries[k].node.Dir? ==> WellNamed(entries[k].node.entries))
  }

  predicate Relative(path: string) {
    |path| > 0 && path[0] != '/'
  }

  /** Snapshot paths are relative: non-empty, with no leading '/'. */
  lemma {:induction false} WorkFilesRelative(entries: seq<Entry>, prefix: string, ignored: Ignore)
    requires WellNamed(entries) && (prefix == "" || Relative(prefix))
    ensures forall f :: f in WorkFiles(entries, prefix, ignored) ==> Relative(f.path)
    decreases entries
  {
    if entries != [] {
      var n := |entries|;
      assert WellNamed(entries[..n - 1]) by {
        forall k | 0 <= k < n - 1 ensures entries[..n - 1][k] == entries[k] { }
      }
      WorkFilesRelative(entries[..n - 1], prefix, ignored);
      var e := entries[n - 1];
      var rel := JoinPath(prefix, e.name);
      assert Relative(rel) by {
        assert rel[0] == if prefix == "" then e.name[0] else prefix[0];
      }
      if e.node.Dir? {
        WorkFilesRelative(e.node.entries, rel, ignored);
      }
    }
  }

  /** The same for the `.git` snapshot. */
  lemma {:induction false} GitFilesRelative(entries: seq<Entry>, prefix: string)
    requires WellNamed(entries) && (prefix == "" || Relative(prefix))
    ensures forall f :: f in GitFiles(entries, prefix) ==> Relative(f.path)
    decreases entries
  {
    if entries != [] {
      var n := |entries|;
      assert WellNamed(entries[..n - 1]) by {
        forall k | 0 <= k < n - 1 ensures entries[..n - 1][k] == entries[k] { }
      }
      GitFilesRelative(entries[..n - 1], prefix);
      var e := entries[n - 1];
      var rel := JoinPath(prefix, e.name);
      assert Relative(rel) by {
        assert rel[0] == if prefix == "" then e.name[0] else prefix[0];
      }
      if e.node.Dir? {
        GitFilesRelative(e.node.entries, rel);
      }
    }
  }

  /** The files of one entry are among the files of its directory. */
  lemma {:induction false} GitFilesOfMember(entries: seq<Entry>, k: nat, prefix: string)
    requires k < |entries|
    ensures forall f :: f in GitEntry(entries[k], prefix) ==> f in GitFiles(entries, prefix)
    decreases |entries|
  {
    var n := |entries|;
    if k < n - 1 {
      assert entries[..n - 1][k] == entries[k];
      GitFilesOfMember(entries[..n - 1], k, prefix);
    }
  }

  /** Every file the refs snapshot takes is also in the full `.git` snapshot. */
  lemma RefsWithinGitSnapshot(root: seq<Entry>)
    requires RefsSnapshot(root).Done?
    ensures GitSnapshot(root).Done?
    ensures forall f :: f in RefsSnapshot(root).value ==> f in GitSnapshot(root).value
  {
    var git := GetDirectoryHandle(root, ".git").value;
    var all := GitFiles(git, "");
    PresentFileWithin(git, "HEAD");
    PresentFileWithin(git, "packed-refs");
    HeadsFilesWithin(git);
  }

  lemma PresentFileWithin(git: seq<Entry>, name: string)
    ensures forall f :: f in PresentFile(git, name) ==> f in GitFiles(git, "")
  {
    if GetFile(git, name).Done? {
      var k :| 0 <= k < |git| && git[k] == Entry(name, Lookup(git, name).value);
      GitFilesOfMember(git, k, "");
    }
  }

  lemma HeadsFilesWithin(git: seq<Entry>)
    ensures forall f :: f in HeadsFiles(git) ==> f in GitFiles(git, "")
  {
    var refs := GetDirectoryHandle(git, "refs");
    if refs.Done? {
      var heads := GetDirectoryHandle(refs.value, "heads");
      if heads.Done? {
        var k1 :| 0 <= k1 < |git| && git[k1] == Entry("refs", Dir(refs.value));
        GitFilesOfMember(git, k1, "");
        assert GitEntry(git[k1], "") == GitFiles(refs.value, "refs");
        var k2 :| 0 <= k2 < |refs.value| && refs.value[k2] == Entry("heads", Dir(heads.value));
        GitFilesOfMember(refs.value, k2, "refs");
        assert JoinPath("refs", "heads") == "refs/heads";
        assert GitEntry(refs.value[k2], "refs") == GitFiles(heads.value, "refs/heads");
      }
    }
  }

  /** Everything below a non-empty prefix lies under `prefix/`. */
  lemma {:induction false} GitFilesUnder(entries: seq<Entry>, prefix: string)
    requires prefix != ""
    ensures forall f :: f in GitFiles(entries, prefix) ==> StartsWith(f.path, prefix + "/")
    decreases entries
  {
    if entries != [] {
      var n := |entries|;
      GitFilesUnder(entries[..n - 1], prefix);
      var e := entries[n - 1];
      var rel := prefix + "/" + e.name;
      assert StartsWith(rel, prefix + "/") by {
        assert rel[..|prefix| + 1] == prefix + "/";
      }
      if e.node.Dir? {
        GitFilesUnder(e.node.entries, rel);
        forall f | f in GitFiles(e.node.entries, rel) ensures StartsWith(f.path, prefix + "/") {
          StartsWithTransitive(f.path, rel + "/", prefix + "/");
        }
      }
    }
  }

  /** The refs snapshot holds HEAD, files under `refs/heads/`, and `packed-refs`. */
  lemma RefsSnapshotPaths(root: seq<Entry>)
    requires RefsSnapshot(root).Done?
    ensures forall f :: f in RefsSnapshot(root).value ==>
      f.path == "HEAD" || f.path == "packed-refs" || StartsWith(f.path, "refs/heads/")
  {
    var git := GetDirectoryHandle(root, ".git").value;
    var refs := GetDirectoryHandle(git, "refs");
    if refs.Done? {
      var heads := GetDirectoryHandle(refs.value, "heads");
      if heads.Done? {
        GitFilesUnder(heads.value, "refs/heads");
        assert "refs/heads" + "/" == "refs/heads/";
      }
    }
  }
}

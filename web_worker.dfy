/** The browser build's repository worker. It keeps one in-browser file
    system (a LightningFS store, persisted under a name) that it seeds with
    the `.git` snapshot and the working-tree snapshot, and answers branch,
    file-list, diff, read and resolve requests by asking the git library
    about that store. */
module WebWorker {
  import opened Common
  import opened Strings
  import opened Sorting
  import Refs
  import Binary
  import BrowserFs
  import opened Git

  /** A LightningFS store: absolute file paths to contents. Directories are
      implied by the paths of the files under them. */
  type Store = map<string, Bytes>

  const NOT_INITIALIZED: string := "Repository is not initialized in worker"
  const NO_SNAPSHOT: string := "No repository snapshot provided"

  datatype Request =
    | LoadRepo(id: int, repoKey: string, gitFiles: seq<FileEntry>, workFiles: seq<FileEntry>,
               dirHandle: Option<seq<BrowserFs.Entry>>)
    | ListBranches(id: int)
    | ListFiles(id: int, ref: string)
    | Diff(id: int, base: string, compare: string)
    | ReadFile(id: int, ref: string, filepath: string)
    | ResolveRef(id: int, ref: string)
    | Unknown(id: int, kind: string)

  /** The name the store is persisted under: `gitfs-${repoKey || 'repo'}`. */
  function StoreName(repoKey: string): (name: string)
    ensures StartsWith(name, "gitfs-")
  {
    "gitfs-" + (if repoKey == "" then "repo" else repoKey)
  }

  // ---------------------------------------------------------------------
  // Seeding the store

  /** `path.replace(/^\/+/, '')` */
  function StripLeadingSlashes(p: string): (r: string)
    ensures |r| <= |p| && r == p[|p| - |r|..]
    ensures forall i :: 0 <= i < |p| - |r| ==> p[i] == '/'
    ensures r == [] || r[0] != '/'
  {
    if p != [] && p[0] == '/' then StripLeadingSlashes(p[1..]) else p
  }

  /** Where a `.git` snapshot entry is written. */
  function GitTarget(path: string): Option<string> {
    Some("/.git/" + StripLeadingSlashes(path))
  }

  /** Where a file copied from the `.git` directory handle is written. */
  function CopyTarget(path: string): Option<string> {
    Some("/.git/" + path)
  }

  /** A relative path inside git's own directory. */
  predicate InGitDir(rel: string) {
    rel == ".git" || StartsWith(rel, ".git/")
  }

  /** Where a working-tree snapshot entry is written; entries under `.git`
      are skipped. */
  function WorkTarget(path: string): Option<string> {
    var rel := StripLeadingSlashes(path);
    if InGitDir(rel) then None else Some("/" + rel)
  }

  /** The store after writing `files` in order, each to its target. */
  function WriteAll(store: Store, files: seq<FileEntry>, target: string -> Option<string>): Store {
    if files == [] then store
    else
      var s := WriteAll(store, files[..|files| - 1], target);
      var f := files[|files| - 1];
      match target(f.path)
      case Some(t) => s[t := f.data]
      case None => s
  }

  /** The seeding loops of `handleLoadRepo`. */
  method WriteFiles(store: Store, files: seq<FileEntry>, target: string -> Option<string>) returns (s: Store)
    ensures s == WriteAll(store, files, target)
  {
    s := store;
    for i := 0 to |files|
      invariant s == WriteAll(store, files[..i], target)
    {
      assert files[..i + 1][..i] == files[..i];
      var t := target(files[i].path);
      if t.Some? {
        s := s[t.value := files[i].data];
      }
    }
    assert files[..|files|] == files;
  }

  /** A path no file is written to keeps what the store had. */
  lemma {:induction false} WriteAllUntouched(store: Store, files: seq<FileEntry>, target: string -> Option<string>, k: string)
    requires forall i :: 0 <= i < |files| ==> target(files[i].path) != Some(k)
    ensures k in WriteAll(store, files, target) <==> k in store
    ensures k in store ==> WriteAll(store, files, target)[k] == store[k]
  {
    if files != [] {
      WriteAllUntouched(store, files[..|files| - 1], target, k);
    }
  }

  /** A path holds the data of the last file written to it. */
  lemma {:induction false} WriteAllLast(store: Store, files: seq<FileEntry>, target: string -> Option<string>, i: nat, k: string)
    requires i < |files| && target(files[i].path) == Some(k)
    requires forall j :: i < j < |files| ==> target(files[j].path) != Some(k)
    ensures k in WriteAll(store, files, target) && WriteAll(store, files, target)[k] == files[i].data
  {
    var n := |files|;
    if i < n - 1 {
      WriteAllLast(store, files[..n - 1], target, i, k);
    }
  }

  /** Every path of the result was in the store or is the target of a file. */
  lemma {:induction false} WriteAllFrom(store: Store, files: seq<FileEntry>, target: string -> Option<string>, k: string)
    requires k in WriteAll(store, files, target)
    ensures k in store || exists i :: 0 <= i < |files| && target(files[i].path) == Some(k)
  {
    var n := |files|;
    if n > 0 && target(files[n - 1].path) != Some(k) {
      WriteAllFrom(store, files[..n - 1], target, k);
      if k !in store {
        var i :| 0 <= i < n - 1 && target(files[..n - 1][i].path) == Some(k);
        assert files[..n - 1][i] == files[i];
      }
    }
  }

  lemma SlashPrefix(rel: string, p: string)
    ensures StartsWith("/" + rel, "/" + p) <==> StartsWith(rel, p)
  {
    if StartsWith("/" + rel, "/" + p) {
      assert rel[..|p|] == ("/" + rel)[1..|p| + 1];
    }
    if StartsWith(rel, p) {
      assert ("/" + rel)[..|p| + 1] == "/" + rel[..|p|];
    }
  }

  lemma GitDirLiterals()
    ensures "/" + ".git/" == "/.git/" && "/" + ".git" == "/.git"
  {
  }

  /** Working-tree seeding never writes into git's directory. */
  lemma WorkTargetOutsideGit(path: string)
    requires WorkTarget(path).Some?
    ensures var t := WorkTarget(path).value;
      t != "/.git" && !StartsWith(t, "/.git/") && |t| > 0 && t[0] == '/'
  {
    var rel := StripLeadingSlashes(path);
    var t := "/" + rel;
    assert WorkTarget(path).value == t;
    GitDirLiterals();
    SlashPrefix(rel, ".git/");
    assert t[1..] == rel;
  }

  /** So the `.git` files seeded first survive the working-tree seeding. */
  lemma WorkSeedKeepsGit(store: Store, files: seq<FileEntry>, k: string)
    requires k == "/.git" || StartsWith(k, "/.git/")
    ensures k in WriteAll(store, files, WorkTarget) <==> k in store
    ensures k in store ==> WriteAll(store, files, WorkTarget)[k] == store[k]
  {
    forall i | 0 <= i < |files| ensures WorkTarget(files[i].path) != Some(k) {
      if WorkTarget(files[i].path).Some? {
        WorkTargetOutsideGit(files[i].path);
      }
    }
    WriteAllUntouched(store, files, WorkTarget, k);
  }

  /** The store after a load, or the message `handleLoadRepo` throws. */
  function Seeded(store: Store, req: Request): Result<Store>
    requires req.LoadRepo?
  {
    var withGit :=
      if |req.gitFiles| > 0 then Ok(WriteAll(store, req.gitFiles, GitTarget))
      else if req.dirHandle.None? then Err(NO_SNAPSHOT)
      else match BrowserFs.GetDirectoryHandle(req.dirHandle.value, ".git")
        case Threw(_) => Err(BrowserFs.MISSING_GIT_DIR)
        case Done(git) => Ok(WriteAll(store, BrowserFs.GitFiles(git, ""), CopyTarget));
    if withGit.Err? then withGit
    else Ok(WriteAll(withGit.value, req.workFiles, WorkTarget))
  }

  /** The seeding part of `handleLoadRepo`. */
  method SeedStore(store: Store, req: Request) returns (r: Result<Store>)
    requires req.LoadRepo?
    ensures r == Seeded(store, req)
  {
    var s := store;
    if |req.gitFiles| > 0 {
      s := WriteFiles(s, req.gitFiles, GitTarget);
    } else {
      if req.dirHandle.None? {
        return Err(NO_SNAPSHOT);
      }
      var git := BrowserFs.GetDirectoryHandle(req.dirHandle.value, ".git");
      if git.Threw? {
        return Err(BrowserFs.MISSING_GIT_DIR);
      }
      var files := BrowserFs.WalkFiles(git.value, "", []);
      assert files == BrowserFs.GitFiles(git.value, "");
      s := WriteFiles(s, files, CopyTarget);
    }
    s := WriteFiles(s, req.workFiles, WorkTarget);
    return Ok(s);
  }

  // ---------------------------------------------------------------------
  // Reading the store

  /** The files the working-directory walk lists: every file outside `.git`,
      without the leading '/'. */
  function WorkdirPaths(store: Store): set<string> {
    set k | k in store && |k| > 1 && k[0] == '/' && !InGitDir(k[1..]) :: k[1..]
  }

  /** `handleListFiles` on the sentinel: the walk's paths, sorted. */
  method ListWorkdir(store: Store) returns (files: seq<string>)
    ensures StrictlySorted(files) && Elems(files) == WorkdirPaths(store)
  {
    files := SortedNames(WorkdirPaths(store));
  }

  /** Every working file of the load request is listed afterwards. */
  lemma SeededWorkFileListed(store: Store, files: seq<FileEntry>, i: nat)
    requires i < |files| && WorkTarget(files[i].path).Some? && StripLeadingSlashes(files[i].path) != ""
    ensures StripLeadingSlashes(files[i].path) in WorkdirPaths(WriteAll(store, files, WorkTarget))
  {
    var rel := StripLeadingSlashes(files[i].path);
    var t := "/" + rel;
    assert WorkTarget(files[i].path) == Some(t);
    var last := LastWriter(files, WorkTarget, i, t);
    WriteAllLast(store, files, WorkTarget, last, t);
    assert t[1..] == rel && !InGitDir(rel);
  }

  /** The index of the last file written to `k`, given one that is. */
  function LastWriter(files: seq<FileEntry>, target: string -> Option<string>, i: nat, k: string): (j: nat)
    requires i < |files| && target(files[i].path) == Some(k)
    ensures i <= j < |files| && target(files[j].path) == Some(k)
    ensures forall m :: j < m < |files| ==> target(files[m].path) != Some(k)
    decreases |files| - i
  {
    if forall m :: i < m < |files| ==> target(files[m].path) != Some(k) then i
    else
      var m :| i < m < |files| && target(files[m].path) == Some(k);
      LastWriter(files, target, m, k)
  }

  /** The store is persisted and not cleared on load, so a working file
      from an earlier load stays listed when a later snapshot of the same
      repository no longer has it. */
  lemma StaleFileStaysListed(store: Store, files: seq<FileEntry>, k: string)
    requires k in store && |k| > 1 && k[0] == '/' && !InGitDir(k[1..])
    requires forall i :: 0 <= i < |files| ==> WorkTarget(files[i].path) != Some(k)
    ensures k[1..] in WorkdirPaths(WriteAll(store, files, WorkTarget))
  {
    WriteAllUntouched(store, files, WorkTarget, k);
  }

  const HEADS_DIR: string := "/.git/refs/heads/"

  /** The loose heads the fallback walk finds under `/.git/refs/heads`. */
  function LooseHeads(store: Store): set<string> {
    set k | k in store && StartsWith(k, HEADS_DIR) && |k| > |HEADS_DIR| :: k[|HEADS_DIR|..]
  }

  function PackedHeadsOf(store: Store): seq<string> {
    if "/.git/packed-refs" in store then Refs.PackedHeads(Decode(store["/.git/packed-refs"])) else []
  }

  /** The branch `/.git/HEAD` names, if it is readable and symbolic. */
  function HeadOf(store: Store): Option<string> {
    if "/.git/HEAD" in store then Refs.HeadBranch(Decode(store["/.git/HEAD"])) else None
  }

  /** `listBranchesFallbackFromFS` */
  method FallbackFromStore(store: Store) returns (r: seq<string>)
    ensures StrictlySorted(r) && Elems(r) == LooseHeads(store) + Elems(PackedHeadsOf(store))
  {
    var loose := SortedNames(LooseHeads(store));
    var packed: seq<string> := [];
    if "/.git/packed-refs" in store {
      packed := Refs.ParsePackedRefs(Decode(store["/.git/packed-refs"]));
    }
    r := Refs.FallbackBranches(loose, packed);
  }

  /** The branches and default `computeBranches` may report on a store:
      the library's list, or the sorted fallback when that threw or was
      empty, with the HEAD branch put in front when missing. */
  ghost predicate BranchesOf(store: Store, git: GitView, info: Refs.BranchInfo) {
    exists fallback ::
      StrictlySorted(fallback) && Elems(fallback) == LooseHeads(store) + Elems(PackedHeadsOf(store)) &&
      info == Refs.ComputeBranches(Listed(git), fallback, HeadOf(store))
  }

  /** `computeBranches` */
  method ComputeBranches(store: Store, git: GitView) returns (info: Refs.BranchInfo)
    ensures BranchesOf(store, git, info)
  {
    var fallback := FallbackFromStore(store);
    info := Refs.ComputeBranches(Listed(git), fallback, HeadOf(store));
  }

  /** The reply to `loadRepo` and `listBranches`: the sentinel in front. */
  function WithSentinel(info: Refs.BranchInfo): Refs.BranchInfo {
    Refs.BranchInfo([WORKDIR] + info.branches, info.defaultBranch)
  }

  /** A reply carrying the branches of the store behind the sentinel. */
  ghost predicate BranchesReply(store: Store, git: GitView, r: Response) {
    r.Reply? && r.data.Branches? && exists info :: BranchesOf(store, git, info) && r.data.info == WithSentinel(info)
  }

  /** A HEAD branch that names a branch is always offered and is the default. */
  lemma HeadBranchOffered(store: Store, git: GitView, info: Refs.BranchInfo)
    requires BranchesOf(store, git, info) && HeadOf(store).Some?
    ensures HeadOf(store).value in WithSentinel(info).branches[1..]
    ensures WithSentinel(info).defaultBranch == HeadOf(store)
  {
    var fallback :| StrictlySorted(fallback) && Elems(fallback) == LooseHeads(store) + Elems(PackedHeadsOf(store)) &&
      info == Refs.ComputeBranches(Listed(git), fallback, HeadOf(store));
    var h := HeadOf(store).value;
    assert h != "";
    assert h in Elems(info.branches);
    assert WithSentinel(info).branches[1..] == info.branches;
  }

  // ---------------------------------------------------------------------
  // Reading a file

  /** What a read of present bytes reports. */
  function ReadOf(raw: Bytes): (r: FileRead)
    ensures WellFormedRead(r) && !r.notFound
    ensures r.binary == Binary.LooksBinary(raw)
  {
    var binary := Binary.LooksBinary(raw);
    FileRead(binary, if binary then None else Some(Decode(raw)), false)
  }

  /** `handleReadFile`: the sentinel reads the store; a ref is resolved
      (a failure is an error reply) and its blob read (a failure means the
      file is missing there). */
  function ReadFileAnswer(id: int, store: Store, git: GitView, ref: string, filepath: string): (r: Response)
    ensures r.id == id
    ensures r.Reply? ==> r.data.Read? && WellFormedRead(r.data.read)
    ensures r.Failure? <==> ref != WORKDIR && git.resolveRef(ref).Err?
  {
    if ref == WORKDIR then
      var key := "/" + filepath;
      Reply(id, Read(if key in store then ReadOf(store[key]) else MISSING))
    else match git.resolveRef(ref)
      case Err(m) => Failure(id, m)
      case Ok(oid) =>
        match git.readBlob(oid, filepath)
        case Err(_) => Reply(id, Read(MISSING))
        case Ok(raw) => Reply(id, Read(ReadOf(raw)))
  }

  method ReadFileIn(id: int, store: Store, git: GitView, ref: string, filepath: string) returns (r: Response)
    ensures r == ReadFileAnswer(id, store, git, ref, filepath)
  {
    var raw: Bytes;
    if ref == WORKDIR {
      var key := "/" + filepath;
      if key !in store {
        return Reply(id, Read(MISSING));
      }
      raw := store[key];
    } else {
      var commit := git.resolveRef(ref);
      if commit.Err? {
        return Failure(id, commit.message);
      }
      var blob := git.readBlob(commit.value, filepath);
      if blob.Err? {
        return Reply(id, Read(MISSING));
      }
      raw := blob.value;
    }
    var binary := Binary.LooksBinaryHeuristic(raw);
    var text := if binary then None else Some(Decode(raw));
    return Reply(id, Read(FileRead(binary, text, false)));
  }

  /** A seeded working file reads back as the bytes last written for it. */
  lemma ReadSeededWorkFile(store: Store, files: seq<FileEntry>, git: GitView, i: nat, id: int)
    requires i < |files| && StripLeadingSlashes(files[i].path) == files[i].path && !InGitDir(files[i].path)
    requires forall j :: i < j < |files| ==> WorkTarget(files[j].path) != WorkTarget(files[i].path)
    ensures ReadFileAnswer(id, WriteAll(store, files, WorkTarget), git, WORKDIR, files[i].path) ==
      Reply(id, Read(ReadOf(files[i].data)))
  {
    WriteAllLast(store, files, WorkTarget, i, "/" + files[i].path);
  }

  // ---------------------------------------------------------------------
  // Diff

  /** What `handleDiff` may answer: an empty list for equal refs, the
      resolve error naming the failing side, or the walk's changes. */
  ghost predicate DiffAnswer(id: int, git: GitView, base: string, compare: string, r: Response) {
    r.id == id &&
    if base == compare then r == Reply(id, Changes([]))
    else match UnresolvedSide(base, compare, git)
      case Some(side) =>
        r == Failure(id, "Cannot resolve " + (if side == base then "base \"" else "compare \"") + side +
                         "\". It may not exist in this snapshot.")
      case None => ChangesReply(id, Side(base, git), Side(compare, git), git.isIgnored, r)
  }

  /** `handleDiff` */
  method DiffIn(id: int, git: GitView, base: string, compare: string) returns (r: Response)
    ensures DiffAnswer(id, git, base, compare, r)
  {
    if base == compare {
      return Reply(id, Changes([]));
    }
    var side := UnresolvedSide(base, compare, git);
    if side.Some? {
      var which := if side.value == base then "base \"" else "compare \"";
      return Failure(id, "Cannot resolve " + which + side.value + "\". It may not exist in this snapshot.");
    }
    r := DiffWalk(id, git, base, compare);
  }

  /** What `handleLoadRepo` leaves behind: the store named after the key is
      open, holding the seeded files, or as it was when seeding failed; the
      reply is the seeding error or the branches of the seeded store. */
  ghost predicate Loaded(req: Request, before: map<string, Store>, after: map<string, Store>,
                         open: Option<string>, lib: Store -> GitView, r: Response)
  {
    req.LoadRepo? &&
    var name := StoreName(req.repoKey);
    var prior := if name in before then before[name] else map[];
    var seeded := Seeded(prior, req);
    open == Some(name) &&
    after == before[name := if seeded.Ok? then seeded.value else prior] &&
    (seeded.Err? ==> r == Failure(req.id, seeded.message)) &&
    (seeded.Ok? ==> BranchesReply(seeded.value, lib(seeded.value), r))
  }

  /** The reply to a request other than `loadRepo`: an unknown type is an
      error, anything before a load fails with NOT_INITIALIZED, and
      otherwise each handler answers on the open store. */
  ghost predicate Answered(req: Request, stores: map<string, Store>, open: Option<string>,
                           lib: Store -> GitView, r: Response)
  {
    r.id == req.id &&
    if req.Unknown? then r == Failure(req.id, "Unknown request type: " + req.kind)
    else if open.None? || open.value !in stores then r == Failure(req.id, NOT_INITIALIZED)
    else
      var store := stores[open.value];
      var git := lib(store);
      match req
      case LoadRepo(_, _, _, _, _) => false
      case Unknown(_, _) => false
      case ListBranches(id) => BranchesReply(store, git, r)
      case ListFiles(id, ref) =>
        if ref == WORKDIR then
          r.Reply? && r.data.Files? && StrictlySorted(r.data.files) && Elems(r.data.files) == WorkdirPaths(store)
        else
          r == (match git.listFiles(ref) case Ok(fs) => Reply(id, Files(fs)) case Err(m) => Failure(id, m))
      case Diff(id, base, compare) => DiffAnswer(id, git, base, compare, r)
      case ReadFile(id, ref, filepath) => r == ReadFileAnswer(id, store, git, ref, filepath)
      case ResolveRef(id, ref) =>
        r == (match git.resolveRef(ref) case Ok(oid) => Reply(id, Oid(oid)) case Err(m) => Failure(id, m))
  }

  // ---------------------------------------------------------------------
  // The worker

  class WebGitWorker {
    /** Every persisted store, by name. */
    var stores: map<string, Store>
    /** The store the worker has open (`pfs`); none before the first load. */
    var open: Option<string>

    ghost predicate Valid()
      reads this
    {
      open.Some? ==> open.value in stores
    }

    constructor(persisted: map<string, Store>)
      ensures stores == persisted && open.None? && Valid()
    {
      stores := persisted;
      open := None;
    }

    function Current(): Store
      reads this
      requires Valid() && open.Some?
    {
      stores[open.value]
    }

    /** `handleLoadRepo`: opens (or creates) the store named after the key,
        seeds it, and lists branches behind the sentinel. The store stays
        open even when seeding fails. */
    method LoadRepo(req: Request, lib: Store -> GitView) returns (r: Response)
      requires req.LoadRepo? && Valid()
      modifies this
      ensures Valid() && r.id == req.id
      ensures Loaded(req, old(stores), stores, open, lib, r)
    {
      var name := StoreName(req.repoKey);
      var before := if name in stores then stores[name] else map[];
      var seeded := SeedStore(before, req);
      open := Some(name);
      if seeded.Err? {
        stores := stores[name := before];
        return Failure(req.id, seeded.message);
      }
      var s := seeded.value;
      var info := ComputeBranches(s, lib(s));
      stores := stores[name := s];
      r := Reply(req.id, Branches(WithSentinel(info)));
      assert BranchesReply(s, lib(s), r);
    }

    /** Every request but `loadRepo`, on the open store. */
    method Query(req: Request, lib: Store -> GitView) returns (r: Response)
      requires !req.LoadRepo? && Valid()
      ensures Answered(req, stores, open, lib, r)
    {
      if req.Unknown? {
        return Failure(req.id, "Unknown request type: " + req.kind);
      }
      if open.None? {
        return Failure(req.id, NOT_INITIALIZED);
      }
      var store := stores[open.value];
      var git := lib(store);
      match req {
        case ListBranches(id) =>
          var info := ComputeBranches(store, git);
          r := Reply(id, Branches(WithSentinel(info)));
        case ListFiles(id, ref) =>
          if ref == WORKDIR {
            var files := ListWorkdir(store);
            r := Reply(id, Files(files));
          } else {
            r := match git.listFiles(ref) case Ok(fs) => Reply(id, Files(fs)) case Err(m) => Failure(id, m);
          }
        case Diff(id, base, compare) =>
          r := DiffIn(id, git, base, compare);
        case ReadFile(id, ref, filepath) =>
          r := ReadFileIn(id, store, git, ref, filepath);
        case ResolveRef(id, ref) =>
          r := match git.resolveRef(ref) case Ok(oid) => Reply(id, Oid(oid)) case Err(m) => Failure(id, m);
      }
    }

    /** `self.onmessage`: every request gets exactly one final reply with its
        own id; only `loadRepo` changes the worker. */
    method Handle(req: Request, lib: Store -> GitView) returns (r: Response)
      requires Valid()
      modifies this
      ensures Valid() && r.id == req.id
      ensures req.LoadRepo? ==> Loaded(req, old(stores), stores, open, lib, r)
      ensures !req.LoadRepo? ==> stores == old(stores) && open == old(open) && Answered(req, stores, open, lib, r)
    {
      if req.LoadRepo? {
        r := LoadRepo(req, lib);
      } else {
        r := Query(req, lib);
      }
    }
  }
}

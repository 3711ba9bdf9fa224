/** The desktop build's repository worker. It works on a repository
    directory on disk, asks the git library about it, and caches decoded
    blobs by commit and path. */
module NodeWorker {
  import opened Common
  import opened Strings
  import opened Sorting
  import Refs
  import ExtLists
  import Binary
  import opened BrowserFs
  import opened Git
  import BlobCache

  const NOT_LOADED: string := "Repo not loaded"
  const CACHE_CAPACITY: nat := 512
  /** How many leading bytes the NUL test looks at. */
  const NUL_SAMPLE: nat := 8000

  datatype Request =
    | LoadRepo(id: int, repoPath: string)
    | ListBranches(id: int)
    | Diff(id: int, base: string, compare: string)
    | ListFiles(id: int, ref: string)
    | ReadFile(id: int, ref: string, filepath: string)
    | ResolveRef(id: int, ref: string)
    | Unknown(maybeId: Option<int>, kind: string)

  /** The id an error reply carries: `m.id ?? -1`. */
  function RequestId(req: Request): int {
    if req.Unknown? then req.maybeId.GetOr(-1) else req.id
  }

  // ---------------------------------------------------------------------
  // Content test

  /** A NUL byte among the first 8000 bytes. */
  predicate HasNul(buf: Bytes) {
    exists i :: 0 <= i < |buf| && i < NUL_SAMPLE && buf[i] == 0
  }

  /** `looksBinary` of the desktop worker. */
  method LooksBinary(buf: Bytes) returns (r: bool)
    ensures r == HasNul(buf)
  {
    var len := if |buf| < NUL_SAMPLE then |buf| else NUL_SAMPLE;
    for i := 0 to len
      invariant forall k :: 0 <= k < i ==> buf[k] != 0
    {
      if buf[i] == 0 {
        return true;
      }
    }
    return false;
  }

  /** Bytes after the first 8000 never change the verdict. */
  lemma OnlyPrefixMatters(a: Bytes, b: Bytes)
    requires |a| >= NUL_SAMPLE
    ensures HasNul(a + b) == HasNul(a)
  {
    if HasNul(a + b) {
      var i :| 0 <= i < |a + b| && i < NUL_SAMPLE && (a + b)[i] == 0;
      assert a[i] == 0;
    }
    if HasNul(a) {
      var i :| 0 <= i < |a| && i < NUL_SAMPLE && a[i] == 0;
      assert (a + b)[i] == 0;
    }
  }

  /** The desktop test and the browser's density heuristic disagree both
      ways: one NUL among text is binary here and text there, and a run of
      other control bytes is the reverse. */
  lemma DiffersFromDensityHeuristic()
    ensures HasNul([0, 97, 97, 97, 97, 97, 97, 97, 97, 97]) &&
            !Binary.LooksBinary([0, 97, 97, 97, 97, 97, 97, 97, 97, 97])
    ensures !HasNul([1, 1, 1]) && Binary.LooksBinary([1, 1, 1])
  {
    var text: Bytes := [0, 97, 97, 97, 97, 97, 97, 97, 97, 97];
    assert text[0] == 0;
    assert Binary.SampleLength(text) == 10;
    assert Binary.Suspicion(text, 10) == 2 by {
      Binary.PlainTextIsNotBinary(text[1..], 9);
      SuspicionOfLeadingNul(text);
    }
    var ctl: Bytes := [1, 1, 1];
    assert Binary.SampleLength(ctl) == 3;
    assert Binary.Suspicion(ctl, 3) == 3;
  }

  lemma SuspicionOfLeadingNul(text: Bytes)
    requires |text| == 10 && text[0] == 0 && forall k :: 1 <= k < 10 ==> text[k] == 97
    ensures Binary.Suspicion(text, 10) == 2
  {
    SuspicionTail(text, 10);
  }

  lemma {:induction false} SuspicionTail(text: Bytes, n: nat)
    requires 1 <= n <= |text| && text[0] == 0 && forall k :: 1 <= k < |text| ==> text[k] == 97
    ensures Binary.Suspicion(text, n) == 2
  {
    if n > 1 {
      SuspicionTail(text, n - 1);
    }
  }

  // ---------------------------------------------------------------------
  // The disk

  /** The node at a '/'-separated path below a directory: `path.join` and
      `stat`/`readFile` on it. */
  function NodeAt(entries: seq<Entry>, segments: seq<string>): Option<BrowserFs.Node>
    decreases segments
  {
    if segments == [] then Some(Dir(entries))
    else match Lookup(entries, segments[0])
      case None => None
      case Some(n) =>
        if |segments| == 1 then Some(n)
        else if n.Dir? then NodeAt(n.entries, segments[1..])
        else None
  }

  function PathNode(root: seq<Entry>, filepath: string): Option<BrowserFs.Node> {
    NodeAt(root, Split(filepath, '/'))
  }

  /** `readdir(p).catch(() => [])` on a directory below the repository. */
  function ReadDir(root: seq<Entry>, segments: seq<string>): seq<Entry> {
    match NodeAt(root, segments)
    case Some(Dir(es)) => es
    case _ => []
  }

  // ---------------------------------------------------------------------
  // The branch fallback: loose heads by an explicit stack, then packed-refs

  /** A directory still to be read, with the branch-name prefix of its files. */
  datatype Frame = Frame(entries: seq<Entry>, prefix: string)

  /** The branch names of the files below a directory. */
  function Names(entries: seq<Entry>, prefix: string): set<string>
    decreases entries
  {
    if entries == [] then {}
    else Names(entries[..|entries| - 1], prefix) + EntryNames(entries[|entries| - 1], prefix)
  }

  function EntryNames(e: Entry, prefix: string): set<string>
    decreases e
  {
    match e.node
    case File(_) => {JoinPath(prefix, e.name)}
    case Dir(children) => Names(children, JoinPath(prefix, e.name))
  }

  function StackNames(stack: seq<Frame>): set<string> {
    if stack == [] then {}
    else StackNames(stack[..|stack| - 1]) + Names(stack[|stack| - 1].entries, stack[|stack| - 1].prefix)
  }

  /** The number of entries below a directory, counting every level. */
  function Size(entries: seq<Entry>): nat
    decreases entries
  {
    if entries == [] then 0 else Size(entries[..|entries| - 1]) + EntrySize(entries[|entries| - 1])
  }

  function EntrySize(e: Entry): (n: nat)
    ensures n >= 1
    decreases e
  {
    match e.node
    case File(_) => 1
    case Dir(children) => 1 + Size(children)
  }

  function StackSize(stack: seq<Frame>): nat {
    if stack == [] then 0 else StackSize(stack[..|stack| - 1]) + Size(stack[|stack| - 1].entries)
  }

  /** The loose-head walk: pop a directory, push its subdirectories, collect
      its files' names. */
  method LooseHeads(heads: seq<Entry>) returns (list: seq<string>)
    ensures Elems(list) == Names(heads, "")
  {
    list := [];
    var stack := [Frame(heads, "")];
    PushFrame([], Frame(heads, ""));
    while |stack| > 0
      invariant Elems(list) + StackNames(stack) == Names(heads, "")
      decreases StackSize(stack), |stack|
    {
      var top := stack[|stack| - 1];
      var rest := stack[..|stack| - 1];
      PushFrame(rest, top);
      assert rest + [top] == stack;
      stack, list := ReadFrame(top, rest, list);
    }
  }

  /** One iteration of the walk: the popped directory's files go to the
      list and its subdirectories onto the stack. */
  method ReadFrame(top: Frame, rest: seq<Frame>, list0: seq<string>) returns (stack: seq<Frame>, list: seq<string>)
    ensures Elems(list) + StackNames(stack) == Elems(list0) + StackNames(rest) + Names(top.entries, top.prefix)
    ensures StackSize(stack) + |top.entries| <= StackSize(rest) + Size(top.entries)
    ensures top.entries == [] ==> stack == rest
  {
    stack, list := rest, list0;
    for i := 0 to |top.entries|
      invariant Elems(list) + StackNames(stack) == Elems(list0) + StackNames(rest) + Names(top.entries[..i], top.prefix)
      invariant StackSize(stack) + i <= StackSize(rest) + Size(top.entries[..i])
      invariant i == 0 ==> stack == rest
    {
      var e := top.entries[i];
      EntriesStep(top.entries, i, top.prefix);
      var name := JoinPath(top.prefix, e.name);
      match e.node {
        case Dir(children) =>
          PushFrame(stack, Frame(children, name));
          stack := stack + [Frame(children, name)];
        case File(_) =>
          assert Elems(list + [name]) == Elems(list) + {name};
          list := list + [name];
      }
    }
    assert top.entries[..|top.entries|] == top.entries;
  }

  lemma PushFrame(stack: seq<Frame>, f: Frame)
    ensures StackNames(stack + [f]) == StackNames(stack) + Names(f.entries, f.prefix)
    ensures StackSize(stack + [f]) == StackSize(stack) + Size(f.entries)
  {
    assert (stack + [f])[..|stack|] == stack;
  }

  lemma EntriesStep(entries: seq<Entry>, i: nat, prefix: string)
    requires i < |entries|
    ensures Names(entries[..i + 1], prefix) == Names(entries[..i], prefix) + EntryNames(entries[i], prefix)
    ensures Size(entries[..i + 1]) == Size(entries[..i]) + EntrySize(entries[i])
  {
    assert entries[..i + 1][..i] == entries[..i];
  }

  /** `parsePackedRefs`: the heads of `.git/packed-refs`, none if unreadable. */
  function PackedHeads(root: seq<Entry>): seq<string> {
    match NodeAt(root, [".git", "packed-refs"])
    case Some(File(data)) => Refs.PackedHeads(Decode(data))
    case _ => []
  }

  /** The fallback list when listing branches throws. */
  method FallbackBranches(root: seq<Entry>) returns (r: seq<string>)
    ensures StrictlySorted(r)
    ensures Elems(r) == Names(ReadDir(root, [".git", "refs", "heads"]), "") + Elems(PackedHeads(root))
  {
    var loose := LooseHeads(ReadDir(root, [".git", "refs", "heads"]));
    var packed: seq<string> := [];
    match NodeAt(root, [".git", "packed-refs"]) {
      case Some(File(data)) =>
        packed := Refs.ParsePackedRefs(Decode(data));
      case _ =>
    }
    assert Elems(loose + packed) == Elems(loose) + Elems(packed);
    r := SortUnique(loose + packed);
  }

  /** What `loadRepo` and `listBranches` may report: the listed branches,
      or the sorted fallback when listing threw. */
  ghost predicate BranchesReply(root: seq<Entry>, git: GitView, id: int, r: Response) {
    if git.listBranches.Ok? then r == Reply(id, Branches(Refs.NodeBranches(Listed(git), [])))
    else exists fallback ::
      StrictlySorted(fallback) &&
      Elems(fallback) == Names(ReadDir(root, [".git", "refs", "heads"]), "") + Elems(PackedHeads(root)) &&
      r == Reply(id, Branches(Refs.NodeBranches(None, fallback)))
  }

  method BranchList(id: int, root: seq<Entry>, git: GitView) returns (r: Response)
    ensures r.Reply? && r.id == id
    ensures BranchesReply(root, git, id, r)
  {
    var fallback: seq<string> := [];
    if git.listBranches.Err? {
      fallback := FallbackBranches(root);
    }
    r := Reply(id, Branches(Refs.NodeBranches(Listed(git), fallback)));
  }

  // ---------------------------------------------------------------------
  // Reading a file

  /** A read of present bytes: binary when there is a NUL early on,
      decoded text otherwise. */
  function Decoded(raw: Bytes): (r: FileRead)
    ensures WellFormedRead(r) && !r.notFound && r.binary == HasNul(raw)
  {
    FileRead(HasNul(raw), if HasNul(raw) then None else Some(Decode(raw)), false)
  }

  /** What `readFile` answers, cache aside. Paths with a binary extension
      take the fast path: the working directory only checks existence, a
      ref is reported binary without reading. An unresolvable ref or a
      missing blob or file is `notFound`. */
  function ReadAnswer(id: int, root: seq<Entry>, git: GitView, ref: string, filepath: string): (r: Response)
    ensures r.Reply? && r.id == id && r.data.Read? && WellFormedRead(r.data.read)
  {
    if ExtLists.IsBinaryPathWeb(filepath) then
      if ref == WORKDIR then
        var present := PathNode(root, filepath).Some?;
        Reply(id, Read(FileRead(present, None, !present)))
      else Reply(id, Read(FileRead(true, None, false)))
    else if ref != WORKDIR then
      match git.resolveRef(ref)
      case Err(_) => Reply(id, Read(MISSING))
      case Ok(oid) =>
        match git.readBlob(oid, filepath)
        case Err(_) => Reply(id, Read(MISSING))
        case Ok(raw) => Reply(id, Read(Decoded(raw)))
    else match PathNode(root, filepath)
      case Some(File(data)) => Reply(id, Read(Decoded(data)))
      case _ => Reply(id, Read(MISSING))
  }

  /** The cache key: `${commitOid}:${filepath}`. */
  function CacheKey(oid: string, filepath: string): string {
    oid + ":" + filepath
  }

  /** Object ids never contain ':' (they are hexadecimal). */
  ghost predicate ColonFreeOids(git: GitView) {
    forall ref :: git.resolveRef(ref).Ok? ==> ':' !in git.resolveRef(ref).value
  }

  /** With colon-free ids a key names one commit and one path. */
  lemma CacheKeyInjective(o1: string, p1: string, o2: string, p2: string)
    requires ':' !in o1 && ':' !in o2 && CacheKey(o1, p1) == CacheKey(o2, p2)
    ensures o1 == o2 && p1 == p2
  {
    BeforeColonOfKey(o1, p1);
    BeforeColonOfKey(o2, p2);
    var k := CacheKey(o1, p1);
    assert p1 == k[|o1| + 1..] == p2;
  }

  /** The text before the first ':'. */
  function BeforeColon(s: string): (r: string)
    ensures ':' !in r && r <= s
  {
    if s == [] || s[0] == ':' then [] else [s[0]] + BeforeColon(s[1..])
  }

  lemma {:induction false} BeforeColonOfKey(oid: string, path: string)
    requires ':' !in oid
    ensures BeforeColon(CacheKey(oid, path)) == oid
  {
    if oid != [] {
      assert CacheKey(oid, path)[1..] == CacheKey(oid[1..], path);
      BeforeColonOfKey(oid[1..], path);
    }
  }

  function CachedOf(raw: Bytes): BlobCache.CachedRead {
    var d := Decoded(raw);
    BlobCache.CachedRead(d.binary, d.text)
  }

  /** Every cached value is what decoding its blob gives. */
  ghost predicate Coherent(entries: map<string, BlobCache.CachedRead>, readBlob: (string, string) -> Result<Bytes>) {
    forall k :: k in entries ==>
      exists oid, path :: ':' !in oid && k == CacheKey(oid, path) &&
        readBlob(oid, path).Ok? && entries[k] == CachedOf(readBlob(oid, path).value)
  }

  /** A coherent hit is what reading the blob would give. */
  lemma CoherentHit(entries: map<string, BlobCache.CachedRead>, readBlob: (string, string) -> Result<Bytes>,
                    oid: string, path: string)
    requires Coherent(entries, readBlob) && ':' !in oid && CacheKey(oid, path) in entries
    ensures readBlob(oid, path).Ok? && entries[CacheKey(oid, path)] == CachedOf(readBlob(oid, path).value)
  {
    var k := CacheKey(oid, path);
    var o2, p2 :| ':' !in o2 && k == CacheKey(o2, p2) &&
      readBlob(o2, p2).Ok? && entries[k] == CachedOf(readBlob(o2, p2).value);
    CacheKeyInjective(oid, path, o2, p2);
  }

  /** Storing a decoded blob, with or without an eviction, keeps the cache coherent. */
  lemma CoherentAfterSet(before: map<string, BlobCache.CachedRead>, after: map<string, BlobCache.CachedRead>,
                         readBlob: (string, string) -> Result<Bytes>, oid: string, path: string)
    requires Coherent(before, readBlob) && ':' !in oid && readBlob(oid, path).Ok?
    requires forall k :: k in after ==> k == CacheKey(oid, path) || (k in before && after[k] == before[k])
    requires CacheKey(oid, path) in after ==> after[CacheKey(oid, path)] == CachedOf(readBlob(oid, path).value)
    ensures Coherent(after, readBlob)
  {
    forall k | k in after
      ensures exists o, p :: (':' !in o && k == CacheKey(o, p) &&
        readBlob(o, p).Ok? && after[k] == CachedOf(readBlob(o, p).value))
    {
      if k == CacheKey(oid, path) {
        assert ':' !in oid && k == CacheKey(oid, path) &&
          readBlob(oid, path).Ok? && after[k] == CachedOf(readBlob(oid, path).value);
      } else {
        var o, p :| ':' !in o && k == CacheKey(o, p) &&
          readBlob(o, p).Ok? && before[k] == CachedOf(readBlob(o, p).value);
      }
    }
  }

  // ---------------------------------------------------------------------
  // Listing the working tree

  /** The files the working-tree walk lists, in directory order: entries
      named `.git` are skipped at every depth, ignored files are left out. */
  function Visible(entries: seq<Entry>, rel: string, isIgnored: string -> bool): seq<string>
    decreases entries
  {
    if entries == [] then []
    else Visible(entries[..|entries| - 1], rel, isIgnored) + VisibleEntry(entries[|entries| - 1], rel, isIgnored)
  }

  function VisibleEntry(e: Entry, rel: string, isIgnored: string -> bool): seq<string>
    decreases e
  {
    if e.name == ".git" then []
    else
      var next := JoinPath(rel, e.name);
      match e.node
      case Dir(children) => Visible(children, next, isIgnored)
      case File(_) => if isIgnored(next) then [] else [next]
  }

  /** The recursive `walk` of `listFiles`. */
  method WalkDirectory(entries: seq<Entry>, rel: string, isIgnored: string -> bool, acc: seq<string>)
    returns (out: seq<string>)
    ensures out == acc + Visible(entries, rel, isIgnored)
    decreases entries
  {
    out := acc;
    for i := 0 to |entries|
      invariant out == acc + Visible(entries[..i], rel, isIgnored)
    {
      assert entries[..i + 1][..i] == entries[..i];
      var e := entries[i];
      if e.name != ".git" {
        var next := JoinPath(rel, e.name);
        match e.node {
          case Dir(children) =>
            out := WalkDirectory(children, next, isIgnored, out);
          case File(_) =>
            if !isIgnored(next) {
              out := out + [next];
            }
        }
      }
    }
    assert entries[..|entries|] == entries;
  }

  /** The listing is the unfiltered listing with the ignored files taken out. */
  lemma {:induction false} VisibleFiltered(entries: seq<Entry>, rel: string, isIgnored: string -> bool)
    ensures Elems(Visible(entries, rel, isIgnored)) ==
      set p | p in Elems(Visible(entries, rel, _ => false)) && !isIgnored(p)
    decreases entries
  {
    if entries != [] {
      var n := |entries|;
      VisibleFiltered(entries[..n - 1], rel, isIgnored);
      VisibleEntryFiltered(entries[n - 1], rel, isIgnored);
      var none: string -> bool := _ => false;
      assert Elems(Visible(entries, rel, isIgnored)) ==
        Elems(Visible(entries[..n - 1], rel, isIgnored)) + Elems(VisibleEntry(entries[n - 1], rel, isIgnored));
      assert Elems(Visible(entries, rel, none)) ==
        Elems(Visible(entries[..n - 1], rel, none)) + Elems(VisibleEntry(entries[n - 1], rel, none));
    }
  }

  lemma {:induction false} VisibleEntryFiltered(e: Entry, rel: string, isIgnored: string -> bool)
    ensures Elems(VisibleEntry(e, rel, isIgnored)) ==
      set p | p in Elems(VisibleEntry(e, rel, _ => false)) && !isIgnored(p)
    decreases e
  {
    if e.name != ".git" && e.node.Dir? {
      VisibleFiltered(e.node.entries, JoinPath(rel, e.name), isIgnored);
    }
  }

  // ---------------------------------------------------------------------
  // Diff and resolve

  /** What the `diff` case may answer: an empty list for equal refs, an
      error naming the first side that did not resolve, or the walk. */
  ghost predicate DiffAnswer(id: int, git: GitView, base: string, compare: string, r: Response) {
    if base == compare then r == Reply(id, Changes([]))
    else match UnresolvedSide(base, compare, git)
      case Some(side) =>
        r == Failure(id, "Cannot resolve " + (if side == base then "base \"" else "compare \"") + side + "\"")
      case None => ChangesReply(id, Side(base, git), Side(compare, git), git.isIgnored, r)
  }

  method DiffIn(id: int, git: GitView, base: string, compare: string) returns (r: Response)
    ensures r.id == id
    ensures DiffAnswer(id, git, base, compare, r)
  {
    if base == compare {
      return Reply(id, Changes([]));
    }
    if base != WORKDIR && git.resolveRef(base).Err? {
      return Failure(id, "Cannot resolve base \"" + base + "\"");
    }
    if compare != WORKDIR && git.resolveRef(compare).Err? {
      return Failure(id, "Cannot resolve compare \"" + compare + "\"");
    }
    r := DiffWalk(id, git, base, compare);
  }

  function ResolveAnswer(id: int, git: GitView, ref: string): Response {
    match git.resolveRef(ref)
    case Ok(oid) => Reply(id, Oid(oid))
    case Err(_) => Failure(id, "Cannot resolve ref \"" + ref + "\"")
  }

  // ---------------------------------------------------------------------
  // The worker

  class NodeGitWorker {
    /** The repository directory; empty until a repository is loaded. */
    var repoPath: string
    var cacheHits: nat
    const cache: BlobCache.Cache

    ghost predicate Valid()
      reads this, cache
    {
      cache.Valid() && cache.capacity == CACHE_CAPACITY
    }

    constructor()
      ensures Valid() && repoPath == "" && cacheHits == 0
      ensures fresh(cache) && cache.entries == map[]
    {
      repoPath := "";
      cacheHits := 0;
      cache := new BlobCache.Cache(CACHE_CAPACITY);
    }

    /** The `readFile` case. The cache is consulted only for a ref read that
        is not on the fast path; a hit counts and is answered from the cache. */
    method ReadFile(id: int, root: seq<Entry>, git: GitView, ref: string, filepath: string) returns (r: Response)
      requires Valid()
      modifies this, cache
      ensures Valid() && repoPath == old(repoPath)
      ensures r.Reply? && r.id == id
      ensures ColonFreeOids(git) && Coherent(old(cache.entries), git.readBlob) ==>
        r == ReadAnswer(id, root, git, ref, filepath) && Coherent(cache.entries, git.readBlob)
      ensures ref == WORKDIR || ExtLists.IsBinaryPathWeb(filepath) || git.resolveRef(ref).Err? ==>
        cache.entries == old(cache.entries) && cache.order == old(cache.order) && cacheHits == old(cacheHits)
      ensures ref != WORKDIR && !ExtLists.IsBinaryPathWeb(filepath) && git.resolveRef(ref).Ok? ==>
        var key := CacheKey(git.resolveRef(ref).value, filepath);
        if key in old(cache.entries) then
          cacheHits == old(cacheHits) + 1 && cache.entries == old(cache.entries) &&
          r == Reply(id, Read(FileRead(old(cache.entries)[key].binary, old(cache.entries)[key].text, false)))
        else
          cacheHits == old(cacheHits) &&
          (git.readBlob(git.resolveRef(ref).value, filepath).Ok? ==> key in cache.entries)
    {
      if ExtLists.IsBinaryPathWeb(filepath) {
        if ref == WORKDIR {
          var present := PathNode(root, filepath).Some?;
          return Reply(id, Read(FileRead(present, None, !present)));
        }
        return Reply(id, Read(FileRead(true, None, false)));
      }
      if ref != WORKDIR {
        var commit := git.resolveRef(ref);
        if commit.Err? {
          return Reply(id, Read(MISSING));
        }
        var key := CacheKey(commit.value, filepath);
        var cached := cache.Get(key);
        if cached.Some? {
          cacheHits := cacheHits + 1;
          if ColonFreeOids(git) && Coherent(old(cache.entries), git.readBlob) {
            CoherentHit(old(cache.entries), git.readBlob, commit.value, filepath);
          }
          return Reply(id, Read(FileRead(cached.value.binary, cached.value.text, false)));
        }
        var blob := git.readBlob(commit.value, filepath);
        if blob.Err? {
          return Reply(id, Read(MISSING));
        }
        var binary := LooksBinary(blob.value);
        var value := BlobCache.CachedRead(binary, if binary then None else Some(Decode(blob.value)));
        cache.Set(key, value);
        if ColonFreeOids(git) && Coherent(old(cache.entries), git.readBlob) {
          CoherentAfterSet(old(cache.entries), cache.entries, git.readBlob, commit.value, filepath);
        }
        return Reply(id, Read(FileRead(value.binary, value.text, false)));
      }
      match PathNode(root, filepath) {
        case Some(File(data)) =>
          var binary := LooksBinary(data);
          return Reply(id, Read(FileRead(binary, if binary then None else Some(Decode(data)), false)));
        case _ =>
          return Reply(id, Read(MISSING));
      }
    }

    /** The `listFiles` case: the library's list for a ref (empty when it
        throws), the walk for the working directory. */
    method ListFiles(id: int, root: seq<Entry>, git: GitView, ref: string) returns (r: Response)
      ensures ref != WORKDIR ==>
        r == Reply(id, Files(if git.listFiles(ref).Ok? then git.listFiles(ref).value else []))
      ensures ref == WORKDIR ==> r == Reply(id, Files(Visible(root, "", git.isIgnored)))
    {
      if ref != WORKDIR {
        var files := if git.listFiles(ref).Ok? then git.listFiles(ref).value else [];
        return Reply(id, Files(files));
      }
      var files := WalkDirectory(root, "", git.isIgnored, []);
      assert [] + Visible(root, "", git.isIgnored) == Visible(root, "", git.isIgnored);
      return Reply(id, Files(files));
    }

    /** The message handler. `lib` and `disk` give the git library's
        answers and the directory contents for a repository path. */
    method Handle(req: Request, lib: string -> GitView, disk: string -> seq<Entry>) returns (r: Response)
      requires Valid()
      modifies this, cache
      ensures Valid()
      ensures r.Reply? ==> r.id == RequestId(req)
      ensures r.Failure? ==> r.id == RequestId(req)
      ensures req.LoadRepo? ==> repoPath == req.repoPath
      ensures req.LoadRepo? ==> BranchesReply(disk(req.repoPath), lib(req.repoPath), req.id, r)
      ensures !req.LoadRepo? ==> repoPath == old(repoPath)
      ensures !req.LoadRepo? && old(repoPath) == "" ==> r == Failure(RequestId(req), NOT_LOADED)
      ensures !req.LoadRepo? && old(repoPath) != "" ==>
        QueryAnswer(req, disk(repoPath), lib(repoPath), old(cache.entries), r)
      ensures !req.ReadFile? || old(repoPath) == "" ==>
        cache.entries == old(cache.entries) && cache.order == old(cache.order) && cacheHits == old(cacheHits)
      ensures req.ReadFile? && ColonFreeOids(lib(repoPath)) && Coherent(old(cache.entries), lib(repoPath).readBlob) ==>
        Coherent(cache.entries, lib(repoPath).readBlob)
    {
      if req.LoadRepo? {
        repoPath := req.repoPath;
        r := BranchList(req.id, disk(repoPath), lib(repoPath));
        return;
      }
      if repoPath == "" {
        return Failure(RequestId(req), NOT_LOADED);
      }
      r := Query(req, disk(repoPath), lib(repoPath));
    }

    /** A request other than `loadRepo`, once a repository is loaded. */
    method Query(req: Request, root: seq<Entry>, git: GitView) returns (r: Response)
      requires Valid() && !req.LoadRepo?
      modifies this, cache
      ensures Valid() && repoPath == old(repoPath)
      ensures QueryAnswer(req, root, git, old(cache.entries), r)
      ensures !req.ReadFile? ==>
        cache.entries == old(cache.entries) && cache.order == old(cache.order) && cacheHits == old(cacheHits)
      ensures req.ReadFile? && ColonFreeOids(git) && Coherent(old(cache.entries), git.readBlob) ==>
        Coherent(cache.entries, git.readBlob)
    {
      match req {
        case ListBranches(id) =>
          r := BranchList(id, root, git);
        case ResolveRef(id, ref) =>
          r := ResolveAnswer(id, git, ref);
        case Diff(id, base, compare) =>
          r := DiffIn(id, git, base, compare);
        case ListFiles(id, ref) =>
          r := ListFiles(id, root, git, ref);
        case ReadFile(id, ref, filepath) =>
          r := ReadFile(id, root, git, ref, filepath);
        case Unknown(_, kind) =>
          r := Failure(RequestId(req), "Unknown type: " + kind);
      }
    }
  }

  /** The answer to a request other than `loadRepo`; a read is pinned down
      when the cache held only decoded blobs. Every answer carries the
      request's id. */
  ghost predicate QueryAnswer(req: Request, root: seq<Entry>, git: GitView,
                              cached: map<string, BlobCache.CachedRead>, r: Response)
  {
    (r.Reply? || r.Failure?) && r.id == RequestId(req) &&
    match req
    case LoadRepo(_, _) => false
    case ListBranches(id) => BranchesReply(root, git, id, r)
    case ResolveRef(id, ref) => r == ResolveAnswer(id, git, ref)
    case Diff(id, base, compare) => DiffAnswer(id, git, base, compare, r)
    case ListFiles(id, ref) =>
      if ref == WORKDIR then r == Reply(id, Files(Visible(root, "", git.isIgnored)))
      else r == Reply(id, Files(if git.listFiles(ref).Ok? then git.listFiles(ref).value else []))
    case ReadFile(id, ref, filepath) =>
      ColonFreeOids(git) && Coherent(cached, git.readBlob) ==> r == ReadAnswer(id, root, git, ref, filepath)
    case Unknown(_, kind) => r == Failure(RequestId(req), "Unknown type: " + kind)
  }
}

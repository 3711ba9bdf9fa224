/** The repository hook of the page: the branch list it publishes after a
    load, the base and compare refs it selects, and the reset to no
    repository. */
module RepoState {
  import opened Common
  import opened Sorting
  import opened Refs
  import WorkerClient

  /** The selection saved for a repository; both parts absent when nothing
      was saved or it could not be read. */
  datatype Saved = Saved(base: Option<string>, compare: Option<string>)

  datatype RepoStatus = Idle | Loading(message: string) | Ready | Failed(error: string)

  /** A saved or current ref is kept only when it is non-empty and listed. */
  predicate Offered(x: Option<string>, list: seq<string>) {
    x.Some? && x.value != "" && x.value in list
  }

  /** `list.find((b) => b !== x) ?? ''`. */
  function FirstOther(list: seq<string>, x: string): (r: string)
    ensures r != x || r == ""
    ensures r in list || r == ""
  {
    if list == [] then ""
    else if list[0] != x then list[0]
    else FirstOther(list[1..], x)
  }

  /** When some element differs from `x`, `find` returns the first such
      element. */
  lemma {:induction false} FirstOtherIsFirst(list: seq<string>, x: string, i: nat)
    requires i < |list| && list[i] != x
    ensures exists k :: (0 <= k <= i && list[k] == FirstOther(list, x) &&
      FirstOther(list, x) != x && forall j :: 0 <= j < k ==> list[j] == x)
  {
    if list[0] != x {
      assert list[0] == FirstOther(list, x);
    } else {
      FirstOtherIsFirst(list[1..], x, i - 1);
      var k :| 0 <= k <= i - 1 && list[1..][k] == FirstOther(list[1..], x) &&
        FirstOther(list[1..], x) != x && forall j :: 0 <= j < k ==> list[1..][j] == x;
      assert list[k + 1] == FirstOther(list, x);
      forall j | 0 <= j < k + 1 ensures list[j] == x {
        if j > 0 {
          assert list[j] == list[1..][j - 1];
        }
      }
    }
  }

  /** The base after a load: the saved base if listed, else the current
      base if listed, else the default, else the first branch, else ''. */
  function NextBase(saved: Saved, current: string, list: seq<string>, def: Option<string>): (r: string)
    ensures Offered(saved.base, list) ==> r == saved.base.value
    ensures !Offered(saved.base, list) && current != "" && current in list ==> r == current
    ensures r in list || r == "" || (def.Some? && r == def.value)
  {
    if Offered(saved.base, list) then saved.base.value
    else if current != "" && current in list then current
    else if def.Some? then def.value
    else if |list| > 0 then list[0]
    else ""
  }

  /** The compare ref after a load: the saved compare if listed, else the
      current compare if listed, else the first branch other than the base;
      a choice equal to the base is replaced by that first other branch. */
  function NextCompare(saved: Saved, current: string, list: seq<string>, nextBase: string): (r: string)
    ensures r != nextBase || r == ""
    ensures r in list || r == ""
    ensures Offered(saved.compare, list) && saved.compare.value != nextBase ==> r == saved.compare.value
  {
    var c := if Offered(saved.compare, list) then saved.compare.value
      else if current != "" && current in list then current
      else FirstOther(list, nextBase);
    if c == nextBase then FirstOther(list, nextBase) else c
  }

  /** When some listed branch differs from the base, the compare ref is a
      listed branch other than the base. */
  lemma CompareFound(saved: Saved, current: string, list: seq<string>, nextBase: string, i: nat)
    requires i < |list| && list[i] != nextBase && "" !in list
    ensures var r := NextCompare(saved, current, list, nextBase);
      r in list && r != nextBase
  {
    FirstOtherIsFirst(list, nextBase, i);
  }

  /** Whether the snapshot fallback replaces the worker's answer: the load
      threw or reported no branches. */
  predicate UsesSnapshot(res: Option<BranchInfo>) {
    res.None? || res.value.branches == []
  }

  /** On a first load of a repository with one branch, the default branch
      is compared against the working tree. */
  lemma FirstLoadComparesWorktree(list: seq<string>, def: string)
    requires |list| == 2 && list[0] == WORKDIR && list[1] == def && def != WORKDIR
    ensures var base := NextBase(Saved(None, None), "", list, Some(def));
      base == def && NextCompare(Saved(None, None), "", list, base) == WORKDIR
  {
    var base := NextBase(Saved(None, None), "", list, Some(def));
    assert list[0] != base;
  }

  /** A saved selection of two listed, different refs is restored as is. */
  lemma SavedSelectionRestored(saved: Saved, current: Saved, list: seq<string>, def: Option<string>)
    requires Offered(saved.base, list) && Offered(saved.compare, list)
    requires saved.base.value != saved.compare.value
    ensures var base := NextBase(saved, current.base.GetOr(""), list, def);
      base == saved.base.value && NextCompare(saved, current.compare.GetOr(""), list, base) == saved.compare.value
  {
  }

  class Repository {
    var client: WorkerClient.GitWorkerClient?
    var hasDirectory: bool
    var status: RepoStatus
    var branches: seq<string>
    var baseBranch: string
    var compareBranch: string
    var progress: Option<string>

    ghost predicate Valid()
      reads this, client
    {
      client != null ==> client.Valid()
    }

    constructor()
      ensures Valid() && client == null && !hasDirectory && status == Idle
      ensures branches == [] && baseBranch == "" && compareBranch == "" && progress == None
    {
      client := null;
      hasDirectory := false;
      status := Idle;
      branches := [];
      baseBranch := "";
      compareBranch := "";
      progress := None;
    }

    /** The end of a load: `res` is the worker's answer (`None` when the
        call threw) and `gitFiles` the captured `.git` files. The snapshot
        branches are used, behind the working-directory sentinel, when the
        worker had none; then the base and compare refs are chosen. */
    method ApplyLoad(res: Option<BranchInfo>, gitFiles: seq<FileEntry>, saved: Saved)
      modifies this
      ensures client == old(client) && hasDirectory == old(hasDirectory) && status == old(status)
      ensures progress == old(progress)
      ensures !UsesSnapshot(res) ==> branches == res.value.branches
      ensures UsesSnapshot(res) ==> |branches| > 0 && branches[0] == WORKDIR
      ensures UsesSnapshot(res) ==>
        Elems(branches[1..]) == SnapshotNames(gitFiles) + HeadSet(SnapshotHead(gitFiles))
      ensures UsesSnapshot(res) ==> Distinct(branches[1..])
      ensures UsesSnapshot(res) && SnapshotHead(gitFiles).Some? ==>
        |branches| > 1 && branches[1] == SnapshotHead(gitFiles).value && StrictlySorted(branches[2..])
      ensures UsesSnapshot(res) && SnapshotHead(gitFiles).None? ==> StrictlySorted(branches[1..])
      ensures var def := if UsesSnapshot(res) then SnapshotDefault(SnapshotHead(gitFiles), branches[1..])
                         else res.value.defaultBranch;
        baseBranch == NextBase(saved, old(baseBranch), branches, def)
      ensures compareBranch == NextCompare(saved, old(compareBranch), branches, baseBranch)
      ensures compareBranch != baseBranch || compareBranch == ""
    {
      var list: seq<string>;
      var def: Option<string>;
      if UsesSnapshot(res) {
        var info := BranchesFromSnapshot(gitFiles);
        list := [WORKDIR] + info.branches;
        assert list[1..] == info.branches;
        def := info.defaultBranch;
      } else {
        list := res.value.branches;
        def := res.value.defaultBranch;
      }
      var nextBase := NextBase(saved, baseBranch, list, def);
      var nextCompare := NextCompare(saved, compareBranch, list, nextBase);
      branches := list;
      baseBranch := nextBase;
      compareBranch := nextCompare;
    }

    /** `resetRepo`: the client is disposed, which rejects whatever it still
        had pending, and every piece of repository state is cleared. */
    method Reset()
      requires Valid()
      modifies this, client
      ensures Valid() && client == null && !hasDirectory && status == Idle
      ensures branches == [] && baseBranch == "" && compareBranch == "" && progress == None
      ensures old(client) != null ==> old(client).pending == []
    {
      if client != null {
        var _ := client.Dispose();
      }
      client := null;
      hasDirectory := false;
      status := Idle;
      branches := [];
      baseBranch := "";
      compareBranch := "";
      progress := None;
    }
  }
}

/** Branch discovery: parsing `packed-refs` and `HEAD`, and the three places
    that turn the names found into a branch list and a default branch (the
    browser worker, the desktop worker, and the snapshot fallback of the
    repository hook). */
module Refs {
  import opened Common
  import opened Strings
  import opened Sorting

  const HEADS_PREFIX: string := "refs/heads/"

  // ---------------------------------------------------------------------
  // packed-refs

  /** The branch one line of `packed-refs` names: the line is trimmed, blank,
      comment (`#`) and peeled (`^`) lines are skipped, and the second
      whitespace-separated field must start with `refs/heads/`. The name
      after the prefix may be empty. */
  function PackedLineHead(line: string): (r: Option<string>)
  {
    var l := Trim(line);
    if l == [] || l[0] == '#' || l[0] == '^' then None
    else SecondFieldHead(Words(l))
  }

  /** The branch the second field names, when it is under `refs/heads/`. */
  function SecondFieldHead(parts: seq<string>): (r: Option<string>)
    ensures r.Some? ==> |parts| >= 2 && parts[1] == HEADS_PREFIX + r.value
  {
    if |parts| < 2 then None
    else if StartsWith(parts[1], HEADS_PREFIX) then
      assert parts[1] == HEADS_PREFIX + parts[1][|HEADS_PREFIX|..];
      Some(parts[1][|HEADS_PREFIX|..])
    else None
  }

  function LineHeads(line: string): seq<string> {
    match PackedLineHead(line)
    case Some(h) => [h]
    case None => []
  }

  /** The branch names of the lines, in file order. */
  function HeadsOfLines(lines: seq<string>): (r: seq<string>)
    ensures |r| <= |lines|
  {
    if lines == [] then []
    else HeadsOfLines(lines[..|lines| - 1]) + LineHeads(lines[|lines| - 1])
  }

  /** The branch names a `packed-refs` text lists, in file order. */
  function PackedHeads(text: string): seq<string> {
    HeadsOfLines(Split(text, '\n'))
  }

  /** `parsePackedRefs`, and the identical loops of the two workers and of the
      snapshot fallback: the text is split on '\n' and each line examined. */
  method ParsePackedRefs(text: string) returns (heads: seq<string>)
    ensures heads == PackedHeads(text)
  {
    var lines := Split(text, '\n');
    heads := ParseLines(lines);
  }

  method ParseLines(lines: seq<string>) returns (heads: seq<string>)
    ensures heads == HeadsOfLines(lines)
  {
    heads := [];
    for i := 0 to |lines|
      invariant heads == HeadsOfLines(lines[..i])
    {
      assert lines[..i + 1][..i] == lines[..i];
      var l := Trim(lines[i]);
      if l == "" || l[0] == '#' || l[0] == '^' {
        continue;
      }
      var parts := Words(l);
      if |parts| < 2 {
        continue;
      }
      var ref := parts[1];
      if StartsWith(ref, HEADS_PREFIX) {
        heads := heads + [ref[|HEADS_PREFIX|..]];
      }
    }
    assert lines[..|lines|] == lines;
  }

  /** One packed ref as git writes it: `<oid> <refname>`. */
  datatype PackedRef = PackedRef(oid: string, name: string)

  predicate WellFormedRef(r: PackedRef) {
    |r.oid| > 0 && NoSpace(r.oid) && r.oid[0] != '#' && r.oid[0] != '^' &&
    |r.name| > 0 && NoSpace(r.name)
  }

  function RefLine(r: PackedRef): string {
    r.oid + " " + r.name
  }

  function RefLines(refs: seq<PackedRef>): (r: seq<string>)
    ensures |r| == |refs|
    ensures forall i :: 0 <= i < |refs| ==> r[i] == RefLine(refs[i])
  {
    if refs == [] then [] else RefLines(refs[..|refs| - 1]) + [RefLine(refs[|refs| - 1])]
  }

  /** The names of the refs under `refs/heads/`, with the prefix removed. */
  function BranchNames(refs: seq<PackedRef>): seq<string> {
    if refs == [] then []
    else
      var last := refs[|refs| - 1].name;
      BranchNames(refs[..|refs| - 1]) +
        (if StartsWith(last, HEADS_PREFIX) then [last[|HEADS_PREFIX|..]] else [])
  }

  /** The text of a `packed-refs` file: a header comment line (git writes
      `# pack-refs with: ...`), then one line per ref, each ended by '\n'. */
  function RenderPackedRefs(header: string, refs: seq<PackedRef>): string {
    Join([header] + RefLines(refs), '\n') + "\n"
  }

  predicate IsHeader(header: string) {
    |header| > 0 && header[0] == '#' && '\n' !in header
  }

  lemma RefLineHead(r: PackedRef)
    requires WellFormedRef(r)
    ensures LineHeads(RefLine(r)) ==
              (if StartsWith(r.name, HEADS_PREFIX) then [r.name[|HEADS_PREFIX|..]] else [])
  {
    RefLineTrimmed(r);
    WordsOfTwo(r.oid, r.name);
    FieldsHead(RefLine(r), r.oid, r.name);
  }

  lemma RefLineTrimmed(r: PackedRef)
    requires WellFormedRef(r)
    ensures Trim(RefLine(r)) == RefLine(r) && RefLine(r)[0] == r.oid[0]
  {
    var l := RefLine(r);
    assert l[0] == r.oid[0];
    assert l[|l| - 1] == r.name[|r.name| - 1];
    TrimUnpadded(l);
  }

  /** A trimmed line that is not a comment or peeled line and has two fields
      names the branch its second field names. */
  lemma FieldsHead(l: string, a: string, b: string)
    requires Trim(l) == l && |l| > 0 && l[0] != '#' && l[0] != '^'
    requires Words(l) == [a, b]
    ensures LineHeads(l) == (if StartsWith(b, HEADS_PREFIX) then [b[|HEADS_PREFIX|..]] else [])
  {
  }

  lemma HeadsOfAppendedLine(lines: seq<string>, l: string)
    ensures HeadsOfLines(lines + [l]) == HeadsOfLines(lines) + LineHeads(l)
  {
    assert (lines + [l])[..|lines|] == lines;
  }

  lemma EmptyLineHasNoHead()
    ensures LineHeads("") == []
  {
    assert Trim("") == "";
  }

  /** A comment line names no branch. */
  lemma CommentHasNoHead(l: string)
    requires |l| > 0 && l[0] == '#'
    ensures LineHeads(l) == []
  {
    assert !IsSpace(l[0]);
    TrimStartUnpadded(l);
  }

  lemma HeadsOfRefLines(header: string, refs: seq<PackedRef>)
    requires IsHeader(header)
    requires forall i :: 0 <= i < |refs| ==> WellFormedRef(refs[i])
    ensures HeadsOfLines([header] + RefLines(refs) + [""]) == BranchNames(refs)
  {
    HeadsOfAppendedLine([header] + RefLines(refs), "");
    EmptyLineHasNoHead();
    HeadsOfRefLinesNoTail(header, refs);
  }

  lemma {:induction false} HeadsOfRefLinesNoTail(header: string, refs: seq<PackedRef>)
    requires IsHeader(header)
    requires forall i :: 0 <= i < |refs| ==> WellFormedRef(refs[i])
    ensures HeadsOfLines([header] + RefLines(refs)) == BranchNames(refs)
  {
    var lines := [header] + RefLines(refs);
    if refs == [] {
      assert lines[..0] == [];
      CommentHasNoHead(header);
    } else {
      var init := refs[..|refs| - 1];
      var last := refs[|refs| - 1];
      assert lines == [header] + RefLines(init) + [RefLine(last)];
      HeadsOfAppendedLine([header] + RefLines(init), RefLine(last));
      HeadsOfRefLinesNoTail(header, init);
      RefLineHead(last);
    }
  }

  /** Reading back a `packed-refs` file recovers exactly its branch names, in
      order, whatever other refs (tags, remotes) it also lists. */
  lemma PackedRefsRoundTrip(header: string, refs: seq<PackedRef>)
    requires IsHeader(header)
    requires forall i :: 0 <= i < |refs| ==> WellFormedRef(refs[i])
    ensures PackedHeads(RenderPackedRefs(header, refs)) == BranchNames(refs)
  {
    var parts := [header] + RefLines(refs) + [""];
    RenderedLinesNoNewline(header, refs);
    JoinAppendEmpty([header] + RefLines(refs), '\n');
    SplitJoin(parts, '\n');
    HeadsOfRefLines(header, refs);
  }

  lemma RenderedLinesNoNewline(header: string, refs: seq<PackedRef>)
    requires IsHeader(header)
    requires forall i :: 0 <= i < |refs| ==> WellFormedRef(refs[i])
    ensures forall i :: 0 <= i < |[header] + RefLines(refs) + [""]| ==>
              '\n' !in ([header] + RefLines(refs) + [""])[i]
  {
    var parts := [header] + RefLines(refs) + [""];
    forall i | 0 <= i < |parts| ensures '\n' !in parts[i] {
      if 0 < i < |parts| - 1 {
        assert parts[i] == RefLine(refs[i - 1]);
        RefLineNoNewline(refs[i - 1]);
      }
    }
  }

  lemma RefLineNoNewline(r: PackedRef)
    requires WellFormedRef(r)
    ensures '\n' !in RefLine(r)
  {
    assert IsSpace('\n');
  }

  lemma {:induction false} JoinAppendEmpty(parts: seq<string>, sep: char)
    requires |parts| >= 1
    ensures Join(parts + [""], sep) == Join(parts, sep) + [sep]
  {
    if |parts| == 1 {
      assert parts + [""] == [parts[0], ""];
    } else {
      assert (parts + [""])[1..] == parts[1..] + [""];
      JoinAppendEmpty(parts[1..], sep);
    }
  }

  // ---------------------------------------------------------------------
  // HEAD

  /** The characters JavaScript's `.` does not match. */
  predicate IsLineTerminator(c: char) {
    c == '\n' || c == '\r' || c == 0x2028 as char || c == 0x2029 as char
  }

  /** The branch of a `HEAD` file: the trimmed text must match
      `^ref:\s+refs\/heads\/(.+)$`. A detached HEAD (a bare oid) gives none. */
  function HeadBranch(text: string): (r: Option<string>)
    ensures r.Some? ==> |r.value| > 0
    ensures r.Some? ==> forall i :: 0 <= i < |r.value| ==> !IsLineTerminator(r.value[i])
  {
    var t := Trim(text);
    if !StartsWith(t, "ref:") then None else HeadAfterRef(t[4..])
  }

  /** `\s+refs\/heads\/(.+)$` on what follows `ref:`. */
  function HeadAfterRef(rest: string): (r: Option<string>)
    ensures r.Some? ==> |r.value| > 0
    ensures r.Some? ==> forall i :: 0 <= i < |r.value| ==> !IsLineTerminator(r.value[i])
  {
    var after := TrimStart(rest);
    if |after| == |rest| || !StartsWith(after, HEADS_PREFIX) then None
    else SingleLineName(after[|HEADS_PREFIX|..])
  }

  /** `(.+)$`: one or more characters, none of them a line terminator. */
  function SingleLineName(name: string): (r: Option<string>)
    ensures r.Some? ==> r.value == name && |name| > 0
    ensures r.Some? <==> |name| > 0 && forall i :: 0 <= i < |name| ==> !IsLineTerminator(name[i])
  {
    if name == [] || exists i :: 0 <= i < |name| && IsLineTerminator(name[i]) then None
    else Some(name)
  }

  /** The text git writes to `HEAD` when a branch is checked out. */
  function SymbolicHead(branch: string): string {
    "ref: " + HEADS_PREFIX + branch + "\n"
  }

  /** Reading `HEAD` back gives the branch that was checked out. */
  lemma HeadRoundTrip(branch: string)
    requires |branch| > 0 && NoSpace(branch)
    ensures HeadBranch(SymbolicHead(branch)) == Some(branch)
  {
    var core := "ref:" + (" " + (HEADS_PREFIX + branch));
    SymbolicHeadTrimmed(branch, core);
    assert core[..4] == "ref:";
    assert core[4..] == " " + (HEADS_PREFIX + branch);
    HeadAfterSpace(branch);
  }

  lemma SymbolicHeadTrimmed(branch: string, core: string)
    requires |branch| > 0 && NoSpace(branch)
    requires core == "ref:" + (" " + (HEADS_PREFIX + branch))
    ensures Trim(SymbolicHead(branch)) == core
  {
    var text := SymbolicHead(branch);
    assert text == core + "\n";
    assert core[|core| - 1] == branch[|branch| - 1];
    TrimEndNewline(core);
    assert text[0] == 'r';
    TrimStartUnpadded(text);
  }

  lemma HeadAfterSpace(branch: string)
    requires |branch| > 0 && NoSpace(branch)
    ensures HeadAfterRef(" " + (HEADS_PREFIX + branch)) == Some(branch)
  {
    var x := HEADS_PREFIX + branch;
    assert (" " + x)[1..] == x;
    assert x[0] == 'r';
    TrimStartUnpadded(x);
    assert TrimStart(" " + x) == x;
    assert x[..|HEADS_PREFIX|] == HEADS_PREFIX;
    assert x[|HEADS_PREFIX|..] == branch;
    assert forall c :: IsLineTerminator(c) ==> IsSpace(c);
  }

  lemma TrimEndNewline(s: string)
    requires |s| > 0 && !IsSpace(s[|s| - 1])
    ensures TrimEnd(s + "\n") == s
  {
    var t := s + "\n";
    assert t[..|t| - 1] == s;
  }

  // ---------------------------------------------------------------------
  // The branch list and the default branch

  datatype BranchInfo = BranchInfo(branches: seq<string>, defaultBranch: Option<string>)

  /** The fallback list of both workers: loose heads then packed heads,
      de-duplicated and sorted. */
  function FallbackBranches(loose: seq<string>, packed: seq<string>): (r: seq<string>)
    ensures StrictlySorted(r)
    ensures Elems(r) == Elems(loose) + Elems(packed)
  {
    assert Elems(loose + packed) == Elems(loose) + Elems(packed);
    SortUnique(loose + packed)
  }

  /** `computeBranches` of the browser worker. `listed` is what the git
      library returned, `None` when it threw; the fallback is used when it
      threw or listed nothing. `head` is the branch `HEAD` names. */
  function ComputeBranches(listed: Option<seq<string>>, fallback: seq<string>,
                           head: Option<string>): (r: BranchInfo)
    ensures var base := if listed.None? || listed.value == [] then fallback else listed.value;
      Elems(r.branches) == Elems(base) + HeadSet(head)
    ensures var base := if listed.None? || listed.value == [] then fallback else listed.value;
      |base| <= |r.branches| <= |base| + 1 && r.branches[|r.branches| - |base|..] == base
    ensures head.Some? ==> r.defaultBranch == head
    ensures head.None? && r.defaultBranch.Some? ==>
      r.defaultBranch.value in r.branches && r.defaultBranch.value != ""
  {
    var base := if listed.None? || listed.value == [] then fallback else listed.value;
    var branches := if head.Some? && head.value != "" && head.value !in base then [head.value] + base else base;
    assert head.Some? && head.value != "" && head.value !in base ==>
      Elems(branches) == {head.value} + Elems(base);
    BranchInfo(branches, WebDefault(head, branches))
  }

  /** The head branch as a set, when it is a non-empty name. */
  function HeadSet(head: Option<string>): set<string> {
    if head.Some? && head.value != "" then {head.value} else {}
  }

  /** `headBranch ?? (main ?? master ?? (branches[0] || null))`. */
  function WebDefault(head: Option<string>, branches: seq<string>): (r: Option<string>)
    ensures head.Some? ==> r == head
    ensures head.None? && r.Some? ==> r.value in branches && r.value != ""
    ensures head.None? && "main" in branches ==> r == Some("main")
    ensures head.None? && r.None? ==> branches == [] || branches[0] == ""
  {
    if head.Some? then head
    else if "main" in branches then Some("main")
    else if "master" in branches then Some("master")
    else if |branches| > 0 && branches[0] != "" then Some(branches[0])
    else None
  }

  /** The default of the desktop worker: main, else master, else the first
      branch, else the working-directory sentinel. */
  function NodeDefault(branches: seq<string>): (r: string)
    ensures r in branches || (branches == [] && r == WORKDIR)
    ensures "main" in branches ==> r == "main"
    ensures "main" !in branches && "master" in branches ==> r == "master"
  {
    if "main" in branches then "main"
    else if "master" in branches then "master"
    else if |branches| > 0 then branches[0]
    else WORKDIR
  }

  /** What the desktop worker reports on `loadRepo` and `listBranches`: the
      listed branches, or the fallback only when listing threw (`None`),
      behind the sentinel. */
  function NodeBranches(listed: Option<seq<string>>, fallback: seq<string>): (r: BranchInfo)
    ensures |r.branches| > 0 && r.branches[0] == WORKDIR
    ensures r.branches[1..] == if listed.Some? then listed.value else fallback
    ensures r.defaultBranch.Some? && r.defaultBranch.value in r.branches
  {
    var branches := if listed.Some? then listed.value else fallback;
    BranchInfo([WORKDIR] + branches, Some(NodeDefault(branches)))
  }

  // ---------------------------------------------------------------------
  // The snapshot fallback of the repository hook

  predicate IsLooseHeadPath(p: string) {
    StartsWith(p, HEADS_PREFIX) && |p| > |HEADS_PREFIX|
  }

  /** The non-empty names of the captured files under `refs/heads/`. */
  function LooseNames(files: seq<FileEntry>): set<string> {
    if files == [] then {}
    else
      var f := files[|files| - 1];
      LooseNames(files[..|files| - 1]) +
        (if IsLooseHeadPath(f.path) then {f.path[|HEADS_PREFIX|..]} else {})
  }

  function SnapshotHead(files: seq<FileEntry>): Option<string> {
    match FindFile(files, "HEAD")
    case None => None
    case Some(data) => HeadBranch(Decode(data))
  }

  function SnapshotPacked(files: seq<FileEntry>): seq<string> {
    match FindFile(files, "packed-refs")
    case None => []
    case Some(data) => PackedHeads(Decode(data))
  }

  /** Every branch name the snapshot holds. */
  function SnapshotNames(files: seq<FileEntry>): set<string> {
    LooseNames(files) + Elems(SnapshotPacked(files))
  }

  /** `headBranch ?? (main ?? master ?? list[0] ?? null)`. */
  function SnapshotDefault(head: Option<string>, list: seq<string>): (r: Option<string>)
    ensures head.Some? ==> r == head
    ensures head.None? ==> (r.None? <==> list == [])
    ensures head.None? && r.Some? ==> r.value in list
    ensures head.None? && "main" in list ==> r == Some("main")
  {
    if head.Some? then head
    else if "main" in list then Some("main")
    else if "master" in list then Some("master")
    else if |list| > 0 then Some(list[0])
    else None
  }

  /** `branchesFromSnapshot`: the branches the captured `.git` files name,
      sorted, with the checked-out branch moved to the front, and the
      default the hook falls back to. */
  method BranchesFromSnapshot(files: seq<FileEntry>) returns (info: BranchInfo)
    ensures Elems(info.branches) == SnapshotNames(files) + HeadSet(SnapshotHead(files))
    ensures Distinct(info.branches)
    ensures SnapshotHead(files).Some? ==>
              info.branches[0] == SnapshotHead(files).value && StrictlySorted(info.branches[1..])
    ensures SnapshotHead(files).None? ==> StrictlySorted(info.branches)
    ensures info.defaultBranch == SnapshotDefault(SnapshotHead(files), info.branches)
  {
    var head: Option<string> := None;
    var headEntry := FindFile(files, "HEAD");
    if headEntry.Some? {
      head := HeadBranch(Decode(headEntry.value));
    }
    var heads := CollectHeads(files);
    var list := SortedNames(heads);
    list := HeadFirst(list, head);
    info := BranchInfo(list, SnapshotDefault(head, list));
  }

  /** The set of names the loop over the files and the packed-refs loop fill. */
  method CollectHeads(files: seq<FileEntry>) returns (heads: set<string>)
    ensures heads == SnapshotNames(files)
  {
    heads := {};
    for i := 0 to |files|
      invariant heads == LooseNames(files[..i])
    {
      assert files[..i + 1][..i] == files[..i];
      if StartsWith(files[i].path, HEADS_PREFIX) {
        var name := files[i].path[|HEADS_PREFIX|..];
        if name != "" {
          heads := heads + {name};
        }
      }
    }
    assert files[..|files|] == files;
    var packed := FindFile(files, "packed-refs");
    if packed.Some? {
      var packedHeads := ParsePackedRefs(Decode(packed.value));
      heads := heads + Elems(packedHeads);
    }
  }

  /** The sorted list with the checked-out branch first: prepended when it is
      not listed, moved from its sorted position otherwise. */
  function HeadFirst(list: seq<string>, head: Option<string>): (r: seq<string>)
    requires StrictlySorted(list)
    ensures Elems(r) == Elems(list) + HeadSet(head)
    ensures Distinct(r)
    ensures head.Some? && head.value != "" ==> |r| > 0 && r[0] == head.value && StrictlySorted(r[1..])
    ensures head.None? || head.value == "" ==> r == list
  {
    StrictlySortedDistinct(list);
    if head.None? || head.value == "" then list
    else if head.value !in list then
      assert forall i :: 1 <= i < |list| + 1 ==> ([head.value] + list)[i] == list[i - 1];
      [head.value] + list
    else
      var idx := IndexOf(list, head.value);
      if idx > 0 then
        MoveToFront(list, idx);
        [head.value] + (list[..idx] + list[idx + 1..])
      else
        assert list == [list[0]] + list[1..];
        list
  }

  lemma MoveToFront(list: seq<string>, idx: nat)
    requires StrictlySorted(list) && 0 < idx < |list|
    ensures StrictlySorted(list[..idx] + list[idx + 1..])
    ensures var r := [list[idx]] + (list[..idx] + list[idx + 1..]);
      Elems(r) == Elems(list) && Distinct(r) && r[1..] == list[..idx] + list[idx + 1..]
  {
    RemoveAtSorted(list, idx);
    var rest := list[..idx] + list[idx + 1..];
    var r := [list[idx]] + rest;
    StrictlySortedDistinct(rest);
    assert r[1..] == rest;
    forall i, j | 0 <= i < j < |r| ensures r[i] != r[j] {
      if i == 0 {
        assert r[j] in Elems(rest);
      } else {
        assert r[i] == rest[i - 1] && r[j] == rest[j - 1];
      }
    }
  }

  /** `list.indexOf(x)`: the first position of `x`, or -1. */
  function IndexOf(list: seq<string>, x: string): (r: int)
    ensures -1 <= r < |list|
    ensures r >= 0 ==> list[r] == x && x !in list[..r]
    ensures r == -1 <==> x !in list
  {
    if list == [] then -1
    else if list[0] == x then 0
    else
      var r := IndexOf(list[1..], x);
      if r == -1 then -1
      else
        assert list[..r + 1] == [list[0]] + list[1..][..r];
        r + 1
  }
}

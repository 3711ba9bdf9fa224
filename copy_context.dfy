/** The copy action of the page (`copyAllSelected` and `previewFile` of
    src/web/src/App.tsx): which sides of a file are read for its status,
    the section each selected file contributes, and the document handed
    to the clipboard. Reads, ref resolution and the patch generator are
    parameters. */
module CopyContext {
  import opened Common
  import opened Strings
  import opened Sorting
  import opened TextDiff
  import opened ExtLists
  import SelectedTree

  const MAX_CONTEXT: int := 999
  const MAX_SAFE_INTEGER: int := 9007199254740991

  /** The slider's top position means the whole file as context. */
  function ContextFor(raw: int): (ctx: int)
    ensures raw >= MAX_CONTEXT ==> ctx == MAX_SAFE_INTEGER
    ensures raw < MAX_CONTEXT ==> ctx == raw
    ensures ctx == MAX_SAFE_INTEGER <==> raw >= MAX_CONTEXT
    ensures ctx >= raw || raw > MAX_SAFE_INTEGER
  {
    if raw >= MAX_CONTEXT then MAX_SAFE_INTEGER else raw
  }

  /** The side before the change is read unless the file was added, the
      side after it unless the file was removed. */
  predicate NeedBase(status: FileStatus) {
    status != Add
  }

  predicate NeedCompare(status: FileStatus) {
    status != Remove
  }

  /** The preview also skips a side whose ref is unset. */
  function PreviewReads(status: FileStatus, baseRef: string, compareRef: string): (r: (bool, bool))
    ensures r.0 <==> status != Add && baseRef != ""
    ensures r.1 <==> status != Remove && compareRef != ""
    ensures status == Add ==> !r.0
    ensures status == Remove ==> !r.1
  {
    (NeedBase(status) && baseRef != "", NeedCompare(status) && compareRef != "")
  }

  /** The caption of an unset ref in the preview. */
  function RefCaption(ref: string): (c: string)
    ensures c != ""
    ensures ref != "" ==> c == ref
  {
    if ref == "" then "(unset)" else ref
  }

  /** The commit shown for a ref: `WORKDIR` for the working-directory
      sentinel, otherwise the first seven characters of its object id. */
  function CommitCaption(ref: string, oid: string): (c: string)
    ensures ref == WORKDIR ==> c == "WORKDIR"
    ensures ref != WORKDIR ==> StartsWith(oid, c) && |c| == if |oid| < 7 then |oid| else 7
  {
    if ref == WORKDIR then "WORKDIR"
    else if |oid| < 7 then oid
    else oid[..7]
  }

  /** `status.toUpperCase()` */
  function StatusCaption(status: FileStatus): string {
    match status
    case Modify => "MODIFY"
    case Add => "ADD"
    case Remove => "REMOVE"
    case Unchanged => "UNCHANGED"
  }

  lemma StatusCaptionInjective(a: FileStatus, b: FileStatus)
    ensures StatusCaption(a) == StatusCaption(b) <==> a == b
  {
  }

  function Header(path: string, status: FileStatus): string {
    "## FILE: " + path + " (" + StatusCaption(status) + ")\n\n"
  }

  /** The text of an added file in its fence: one final newline is taken
      off, as the fence supplies it. */
  function AddedBody(text: string): (b: string)
    ensures b + "\n" == EnsureFinalNewline(text)
    ensures b == text || b + "\n" == text
  {
    if EndsWith(text, "\n") then
      assert text == text[..|text| - 1] + "\n";
      text[..|text| - 1]
    else text
  }

  /** `res?.text ?? ''` */
  function RawText(side: Option<ReadSide>): (t: string)
    ensures side.Some? && side.value.text.Some? ==> t == side.value.text.value
    ensures !(side.Some? && side.value.text.Some?) ==> t == ""
  {
    if side.Some? && side.value.text.Some? then side.value.text.value else ""
  }

  function Fence(lang: string, body: string): string {
    "```" + lang + "\n" + body + "\n```\n\n"
  }

  const NO_TEXT: string := "_No textual content available._\n\n"

  /** The sides a file's section is built from: a side its status does not
      need is never read. */
  function BaseSide(status: FileStatus, read: ReadSide): Option<ReadSide> {
    if NeedBase(status) then Some(read) else None
  }

  function CompareSide(status: FileStatus, read: ReadSide): Option<ReadSide> {
    if NeedCompare(status) then Some(read) else None
  }

  /** A file is copied as binary when a side read says so or its extension
      looks binary. */
  predicate SectionBinary(path: string, status: FileStatus, baseRead: ReadSide, compareRead: ReadSide) {
    IsBinarySide(BaseSide(status, baseRead)) || IsBinarySide(CompareSide(status, compareRead)) ||
    IsLikelyBinaryPath(path)
  }

  /** The section of one file, or nothing when it is binary and binary
      files are left out. */
  function FileSection(patch: PatchFn, path: string, status: FileStatus, baseRead: ReadSide,
                       compareRead: ReadSide, includeBinary: bool, ctx: int): (r: Option<string>)
    ensures r.None? <==> !includeBinary && SectionBinary(path, status, baseRead, compareRead)
    ensures r.Some? ==> StartsWith(r.value, Header(path, status))
    ensures r.Some? && SectionBinary(path, status, baseRead, compareRead) ==> r.value == Header(path, status)
    ensures r.Some? && !SectionBinary(path, status, baseRead, compareRead) && status == Add ==>
      r.value == Header(path, status) + Fence(InferLangFromPath(path), AddedBody(RawText(Some(compareRead))))
    ensures r.Some? && !SectionBinary(path, status, baseRead, compareRead) && status == Unchanged ==>
      r.value == Header(path, status) + Fence(InferLangFromPath(path), RawText(Some(baseRead)))
  {
    var header := Header(path, status);
    var base := BaseSide(status, baseRead);
    var compare := CompareSide(status, compareRead);
    if SectionBinary(path, status, baseRead, compareRead) then
      if includeBinary then Some(header) else None
    else
      var body := TextBody(patch, path, status, base, compare, ctx);
      assert (header + body)[..|header|] == header;
      Some(header + body)
  }

  /** What follows the header of a text file: the content of an added or
      unchanged file in a fence, otherwise the diff or a note that there
      is none. */
  function TextBody(patch: PatchFn, path: string, status: FileStatus, base: Option<ReadSide>,
                    compare: Option<ReadSide>, ctx: int): string
  {
    if status == Add then Fence(InferLangFromPath(path), AddedBody(RawText(compare)))
    else if status == Unchanged then Fence(InferLangFromPath(path), RawText(base))
    else
      var d := BuildUnifiedDiffForStatus(patch, status, path, base, compare, Some(ctx));
      if d.Some? then "```diff\n" + d.value + "```\n\n" else NO_TEXT
  }

  /** A changed text file is copied as its diff. */
  lemma ChangedFileIsDiff(patch: PatchFn, path: string, status: FileStatus, baseRead: ReadSide,
                          compareRead: ReadSide, includeBinary: bool, ctx: int)
    requires status == Modify || status == Remove
    requires !SectionBinary(path, status, baseRead, compareRead)
    ensures var newText := if status == Modify then SideText(Some(compareRead)) else "";
      FileSection(patch, path, status, baseRead, compareRead, includeBinary, ctx) ==
      Some(Header(path, status) + ("```diff\n" +
           CreateUnifiedDiffForPath(patch, path, SideText(Some(baseRead)), newText, Some(ctx)) + "```\n\n"))
  {
    var d := BuildUnifiedDiffForStatus(patch, status, path, BaseSide(status, baseRead),
                                       CompareSide(status, compareRead), Some(ctx));
    assert d.Some?;
    assert d.value == CreateUnifiedDiffForPath(patch, path, SideText(Some(baseRead)),
      if status == Modify then SideText(Some(compareRead)) else "", Some(ctx));
  }

  /** An added file's section does not depend on what the base side would
      have returned, and a removed file's on what the compare side would. */
  lemma SectionReadRule(patch: PatchFn, path: string, r1: ReadSide, r2: ReadSide, other: ReadSide,
                        includeBinary: bool, ctx: int)
    ensures FileSection(patch, path, Add, r1, other, includeBinary, ctx)
         == FileSection(patch, path, Add, r2, other, includeBinary, ctx)
    ensures FileSection(patch, path, Remove, other, r1, includeBinary, ctx)
         == FileSection(patch, path, Remove, other, r2, includeBinary, ctx)
  {
  }

  /** `statusByPath.get(path) ?? 'unchanged'` */
  function StatusOf(statusByPath: map<string, FileStatus>, path: string): FileStatus {
    if path in statusByPath then statusByPath[path] else Unchanged
  }

  /** How to read one side: the worker's answer for a path at a fixed ref. */
  type Reader = string -> ReadSide

  /** What the copy needs besides the paths. */
  datatype Reads = Reads(statusByPath: map<string, FileStatus>, readBase: Reader, readCompare: Reader)

  function SectionOf(patch: PatchFn, rd: Reads, path: string, includeBinary: bool, ctx: int): Option<string> {
    FileSection(patch, path, StatusOf(rd.statusByPath, path), rd.readBase(path), rd.readCompare(path),
                includeBinary, ctx)
  }

  /** The sections of the given paths, in order. */
  function Sections(patch: PatchFn, rd: Reads, paths: seq<string>, includeBinary: bool, ctx: int): seq<string> {
    if paths == [] then []
    else
      var init := Sections(patch, rd, paths[..|paths| - 1], includeBinary, ctx);
      match SectionOf(patch, rd, paths[|paths| - 1], includeBinary, ctx)
      case Some(s) => init + [s]
      case None => init
  }

  /** The paths that get a section. */
  function Copied(patch: PatchFn, rd: Reads, paths: seq<string>, includeBinary: bool, ctx: int): seq<string> {
    if paths == [] then []
    else
      var init := Copied(patch, rd, paths[..|paths| - 1], includeBinary, ctx);
      var p := paths[|paths| - 1];
      if SectionOf(patch, rd, p, includeBinary, ctx).Some? then init + [p] else init
  }

  /** Sections and copied paths line up: section k starts with the header
      of copied path k. */
  lemma {:induction false} SectionsAligned(patch: PatchFn, rd: Reads, paths: seq<string>, includeBinary: bool, ctx: int)
    ensures var s := Sections(patch, rd, paths, includeBinary, ctx);
      var c := Copied(patch, rd, paths, includeBinary, ctx);
      |s| == |c| && forall k :: 0 <= k < |s| ==> StartsWith(s[k], Header(c[k], StatusOf(rd.statusByPath, c[k])))
  {
    if paths != [] {
      SectionsAligned(patch, rd, paths[..|paths| - 1], includeBinary, ctx);
    }
  }

  /** A path is copied exactly when it was given and binary files are
      included or it is not binary. */
  lemma {:induction false} CopiedExactly(patch: PatchFn, rd: Reads, paths: seq<string>, includeBinary: bool,
                                        ctx: int, p: string)
    ensures p in Copied(patch, rd, paths, includeBinary, ctx) <==>
      p in paths && (includeBinary ||
        !SectionBinary(p, StatusOf(rd.statusByPath, p), rd.readBase(p), rd.readCompare(p)))
  {
    if paths != [] {
      var init := paths[..|paths| - 1];
      CopiedExactly(patch, rd, init, includeBinary, ctx, p);
      assert paths == init + [paths[|paths| - 1]];
    }
  }

  /** With binary files included every given path is copied, in order. */
  lemma {:induction false} CopiedAll(patch: PatchFn, rd: Reads, paths: seq<string>, ctx: int)
    ensures Copied(patch, rd, paths, true, ctx) == paths
  {
    if paths != [] {
      CopiedAll(patch, rd, paths[..|paths| - 1], ctx);
      assert paths == paths[..|paths| - 1] + [paths[|paths| - 1]];
    }
  }

  /** `paths.filter((p) => !isLikelyBinaryPath(p))` */
  function WithoutLikelyBinary(paths: seq<string>): (r: seq<string>)
    ensures forall p :: p in r <==> p in paths && !IsLikelyBinaryPath(p)
  {
    if paths == [] then []
    else
      var init := WithoutLikelyBinary(paths[..|paths| - 1]);
      var p := paths[|paths| - 1];
      assert paths == paths[..|paths| - 1] + [p];
      if IsLikelyBinaryPath(p) then init else init + [p]
  }

  /** Dropping the likely-binary paths first does not change the sections
      when binary files are left out anyway. */
  lemma {:induction false} PrefilterHarmless(patch: PatchFn, rd: Reads, paths: seq<string>, ctx: int)
    ensures Sections(patch, rd, WithoutLikelyBinary(paths), false, ctx) == Sections(patch, rd, paths, false, ctx)
  {
    if paths != [] {
      var init := paths[..|paths| - 1];
      var p := paths[|paths| - 1];
      PrefilterHarmless(patch, rd, init, ctx);
      if !IsLikelyBinaryPath(p) {
        var w := WithoutLikelyBinary(init) + [p];
        assert w[..|w| - 1] == WithoutLikelyBinary(init);
      }
    }
  }

  /** The optional sections before the files. */
  function InstructionSection(instructions: string): string {
    if Trim(instructions) != "" then "## User Instructions\n\n" + instructions + "\n\n" else ""
  }

  function TreeSection(includeFileTree: bool, treeText: string): string {
    if includeFileTree && treeText != "" then "## File Tree\n\n```\n" + treeText + "```\n\n" else ""
  }

  function BranchLines(baseRef: string, baseCommit: string, compareRef: string, compareCommit: string): string {
    Join(["## Select branches",
          "- Base: " + baseRef + " (commit: " + baseCommit + ")",
          "- Compare: " + compareRef + " (commit: " + compareCommit + ")",
          ""], '\n')
  }

  /** `.filter(Boolean)` */
  function NonEmpty(parts: seq<string>): (r: seq<string>)
    ensures forall k :: 0 <= k < |r| ==> r[k] != ""
    ensures parts != [] && parts[0] != "" ==> r != [] && r[0] == parts[0]
  {
    if parts == [] then []
    else if parts[0] == "" then NonEmpty(parts[1..])
    else [parts[0]] + NonEmpty(parts[1..])
  }

  /** What the user asked for. */
  datatype Settings = Settings(includeFileTree: bool, includeBinary: bool, instructions: string, rawContext: int)

  /** The clipboard text: instructions, branches, tree and file sections,
      the non-empty ones joined by newlines. */
  function Document(patch: PatchFn, rd: Reads, st: Settings, baseRef: string, baseOid: string,
                    compareRef: string, compareOid: string, selected: seq<string>): string
  {
    var order := if st.includeFileTree then SortBy(selected, LessEq) else selected;
    var tree := if st.includeFileTree then SelectedTree.TreeText(order) else "";
    var toProcess := if st.includeBinary then order else WithoutLikelyBinary(order);
    var sections := Sections(patch, rd, toProcess, st.includeBinary, ContextFor(st.rawContext));
    Assemble(InstructionSection(st.instructions),
             BranchLines(baseRef, CommitCaption(baseRef, baseOid), compareRef, CommitCaption(compareRef, compareOid)),
             TreeSection(st.includeFileTree, tree), sections)
  }

  /** `[instr, context, tree, ...files].filter(Boolean).join('\n')` */
  function Assemble(instr: string, branchLines: string, treeSection: string, sections: seq<string>): string {
    Join(NonEmpty([instr, branchLines, treeSection] + sections), '\n')
  }

  lemma JoinStart(parts: seq<string>, sep: char)
    requires parts != []
    ensures StartsWith(Join(parts, sep), parts[0])
  {
    if |parts| > 1 {
      assert Join(parts, sep) == parts[0] + ([sep] + Join(parts[1..], sep));
    }
  }

  lemma BranchLinesOpening(baseRef: string, baseCommit: string, compareRef: string, compareCommit: string)
    ensures StartsWith(BranchLines(baseRef, baseCommit, compareRef, compareCommit), "## Select branches\n- Base: " + baseRef)
  {
    var second := "- Base: " + baseRef + " (commit: " + baseCommit + ")";
    var third := "- Compare: " + compareRef + " (commit: " + compareCommit + ")";
    var parts := ["## Select branches", second, third, ""];
    assert parts[1..] == [second, third, ""];
    assert [second, third, ""][1..] == [third, ""];
    var tail := Join([third, ""], '\n');
    var whole := Join(parts, '\n');
    assert whole == "## Select branches" + ['\n'] + Join([second, third, ""], '\n');
    assert Join([second, third, ""], '\n') == second + ['\n'] + tail;
    var opening := "## Select branches\n- Base: " + baseRef;
    assert whole == opening + (" (commit: " + baseCommit + ")" + ['\n'] + tail);
  }

  /** The assembled text opens with the instructions when there are any,
      and with the branch section otherwise. */
  lemma AssembleOpening(instr: string, branchLines: string, treeSection: string, sections: seq<string>)
    requires branchLines != ""
    ensures StartsWith(Assemble(instr, branchLines, treeSection, sections), if instr != "" then instr else branchLines)
  {
    var parts := [instr, branchLines, treeSection] + sections;
    if instr == "" {
      assert parts[1..] == [branchLines, treeSection] + sections;
    }
    JoinStart(NonEmpty(parts), '\n');
  }

  /** The document opens with the user's instructions when there are any
      and with the branch section otherwise. */
  lemma DocumentOpening(patch: PatchFn, rd: Reads, st: Settings, baseRef: string, baseOid: string,
                        compareRef: string, compareOid: string, selected: seq<string>)
    ensures var doc := Document(patch, rd, st, baseRef, baseOid, compareRef, compareOid, selected);
      (Trim(st.instructions) != "" ==> StartsWith(doc, "## User Instructions\n\n" + st.instructions)) &&
      (Trim(st.instructions) == "" ==> StartsWith(doc, "## Select branches\n- Base: " + baseRef))
  {
    var lines := BranchLines(baseRef, CommitCaption(baseRef, baseOid), compareRef, CommitCaption(compareRef, compareOid));
    var order := if st.includeFileTree then SortBy(selected, LessEq) else selected;
    var tree := if st.includeFileTree then SelectedTree.TreeText(order) else "";
    var toProcess := if st.includeBinary then order else WithoutLikelyBinary(order);
    var sections := Sections(patch, rd, toProcess, st.includeBinary, ContextFor(st.rawContext));
    var instr := InstructionSection(st.instructions);
    var doc := Assemble(instr, lines, TreeSection(st.includeFileTree, tree), sections);
    BranchLinesOpening(baseRef, CommitCaption(baseRef, baseOid), compareRef, CommitCaption(compareRef, compareOid));
    AssembleOpening(instr, lines, TreeSection(st.includeFileTree, tree), sections);
    if instr != "" {
      var opening := "## User Instructions\n\n" + st.instructions;
      assert instr == opening + "\n\n";
      assert instr[..|opening|] == opening;
      StartsWithTransitive(doc, instr, opening);
    } else {
      StartsWithTransitive(doc, lines, "## Select branches\n- Base: " + baseRef);
    }
  }

  /** The loop over the files read: each one pushes its section, if any. */
  method CollectSections(patch: PatchFn, rd: Reads, paths: seq<string>, includeBinary: bool, ctx: int)
    returns (sections: seq<string>)
    ensures sections == Sections(patch, rd, paths, includeBinary, ctx)
  {
    sections := [];
    for i := 0 to |paths|
      invariant sections == Sections(patch, rd, paths[..i], includeBinary, ctx)
    {
      assert paths[..i + 1][..i] == paths[..i];
      var s := SectionOf(patch, rd, paths[i], includeBinary, ctx);
      if s.Some? {
        sections := sections + [s.value];
      }
    }
    assert paths[..|paths|] == paths;
  }

  /** `copyAllSelected`: nothing is copied without a client and both refs;
      otherwise the document is assembled. `order` is the selection after
      the call: the tree rendering sorts the selection in place, so the
      files are copied in sorted order exactly when the tree is included. */
  method CopyAllSelected(patch: PatchFn, hasClient: bool, baseRef: string, baseOid: string,
                         compareRef: string, compareOid: string, selected: seq<string>,
                         rd: Reads, st: Settings) returns (doc: Option<string>, order: seq<string>)
    ensures !hasClient || baseRef == "" || compareRef == "" ==> doc == None && order == selected
    ensures hasClient && baseRef != "" && compareRef != "" ==>
      doc == Some(Document(patch, rd, st, baseRef, baseOid, compareRef, compareOid, selected))
    ensures multiset(order) == multiset(selected)
    ensures st.includeFileTree && doc.Some? ==> SortedBy(order, LessEq)
  {
    order := selected;
    if !hasClient || baseRef == "" || compareRef == "" {
      return None, order;
    }
    var baseCommit := CommitCaption(baseRef, baseOid);
    var compareCommit := CommitCaption(compareRef, compareOid);
    var treeText := "";
    if st.includeFileTree {
      treeText, order := SelectedTree.GenerateSelectedTreeString(selected);
    }
    var toProcess := if st.includeBinary then order else WithoutLikelyBinary(order);
    var sections := CollectSections(patch, rd, toProcess, st.includeBinary, ContextFor(st.rawContext));
    doc := Some(Assemble(InstructionSection(st.instructions), BranchLines(baseRef, baseCommit, compareRef, compareCommit),
                         TreeSection(st.includeFileTree, treeText), sections));
  }
}

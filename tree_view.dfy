/** The file-tree view (src/web/src/components/FileTreeView.tsx): which
    nodes are shown under the filter text and the changed-only switch, the
    rows rendered for them, the tri-state folder checkbox and the folder
    selection toggle. */
module TreeView {
  import opened Common
  import opened Strings
  import opened Sorting
  import opened FileTree

  /** `(filterText || '').trim().toLowerCase()`: empty means no query. */
  function Query(filterText: Option<string>): (q: string)
    ensures |q| <= |filterText.GetOr("")|
  {
    Lower(Trim(filterText.GetOr("")))
  }

  /** `matchesFilter`: no query matches everything; otherwise the
      lower-cased path or name contains the query, or (for a directory)
      some child matches. */
  predicate MatchesFilter(n: Node, q: string)
    decreases n
  {
    q == "" || Contains(Lower(n.path), q) || Contains(Lower(n.name), q) ||
    (n.DirNode? && exists i :: 0 <= i < |n.children| && MatchesFilter(n.children[i], q))
  }

  /** `nodeVisible`: with changed-only off everything is visible; a file is
      visible when it changed, a directory when some child is visible. */
  predicate NodeVisible(n: Node, changedOnly: bool)
    decreases n
  {
    !changedOnly ||
    (n.FileNode? && n.status != Unchanged) ||
    (n.DirNode? && exists i :: 0 <= i < |n.children| && NodeVisible(n.children[i], changedOnly))
  }

  /** `shouldShow`: the node matches the filter and, with changed-only on,
      is a changed file or a directory with some child to show. */
  predicate ShouldShow(n: Node, q: string, changedOnly: bool)
    decreases n
  {
    MatchesFilter(n, q) &&
    (!changedOnly ||
     (n.FileNode? && n.status != Unchanged) ||
     (n.DirNode? && exists i :: 0 <= i < |n.children| && ShouldShow(n.children[i], q, changedOnly)))
  }

  /** Without a query, `shouldShow` is `nodeVisible`. */
  lemma {:induction false} NoQueryShowIsVisible(n: Node, changedOnly: bool)
    ensures ShouldShow(n, "", changedOnly) == NodeVisible(n, changedOnly)
    decreases n
  {
    if n.DirNode? {
      forall i | 0 <= i < |n.children|
        ensures ShouldShow(n.children[i], "", changedOnly) == NodeVisible(n.children[i], changedOnly)
      {
        NoQueryShowIsVisible(n.children[i], changedOnly);
      }
    }
  }

  /** `f` is `n` or lies below it. */
  ghost predicate Descends(f: Node, n: Node)
    decreases n
  {
    f == n || (n.DirNode? && exists i :: 0 <= i < |n.children| && Descends(f, n.children[i]))
  }

  /** A node to show makes every directory above it one to show. */
  lemma {:induction false} ShownUpward(f: Node, n: Node, q: string, changedOnly: bool)
    requires Descends(f, n) && ShouldShow(f, q, changedOnly)
    ensures ShouldShow(n, q, changedOnly)
    decreases n
  {
    if f != n {
      var i :| 0 <= i < |n.children| && Descends(f, n.children[i]);
      ShownUpward(f, n.children[i], q, changedOnly);
    }
  }

  // ---------------------------------------------------------------------
  // gatherFiles and the folder checkbox

  /** `gatherFiles`: the paths of all files below a node, in tree order.
      It is the walk of `selectAll` with changed-only off. */
  function GatherFiles(n: Node): seq<string> {
    SelectPaths(n, false)
  }

  /** `gatherFiles` finds exactly the descendant files. */
  lemma {:induction false} GatherFilesExact(n: Node, p: string)
    ensures p in GatherFiles(n) <==> exists f :: Descends(f, n) && f.FileNode? && f.path == p
    decreases n
  {
    if n.DirNode? {
      if p in GatherFiles(n) {
        var i := SelectPathsOfMember(n.children, false, p);
        GatherFilesExact(n.children[i], p);
        var f :| Descends(f, n.children[i]) && f.FileNode? && f.path == p;
        assert Descends(f, n);
      }
      if exists f :: Descends(f, n) && f.FileNode? && f.path == p {
        var f :| Descends(f, n) && f.FileNode? && f.path == p;
        var i :| 0 <= i < |n.children| && Descends(f, n.children[i]);
        GatherFilesExact(n.children[i], p);
        SelectPathsOfHas(n.children, false, i, p);
      }
    }
  }

  /** `paths.filter((p) => selected.has(p)).length` */
  function SelectedCount(paths: seq<string>, selected: set<string>): (c: nat)
    ensures c <= |paths|
  {
    if paths == [] then 0
    else SelectedCount(paths[..|paths| - 1], selected) + (if paths[|paths| - 1] in selected then 1 else 0)
  }

  /** Every path is counted exactly when every path is selected. */
  lemma {:induction false} CountAll(paths: seq<string>, selected: set<string>)
    ensures SelectedCount(paths, selected) == |paths| <==> Elems(paths) <= selected
  {
    if paths != [] {
      var init := paths[..|paths| - 1];
      CountAll(init, selected);
      ElemsSnoc(init, paths[|paths| - 1]);
      assert paths == init + [paths[|paths| - 1]];
    }
  }

  /** No path is counted exactly when no path is selected. */
  lemma {:induction false} CountNone(paths: seq<string>, selected: set<string>)
    ensures SelectedCount(paths, selected) == 0 <==> Elems(paths) * selected == {}
  {
    if paths != [] {
      var init := paths[..|paths| - 1];
      var last := paths[|paths| - 1];
      CountNone(init, selected);
      ElemsSnoc(init, last);
      assert paths == init + [last];
      if last in selected {
        assert last in Elems(paths) * selected;
      }
    }
  }

  /** The checkbox of a folder row: `checked` and `indeterminate`. */
  datatype CheckState = CheckState(checked: bool, indeterminate: bool)

  function FolderCheck(files: seq<string>, selected: set<string>): CheckState {
    var count := SelectedCount(files, selected);
    var allSelected := |files| > 0 && count == |files|;
    CheckState(allSelected, !allSelected && count != 0)
  }

  /** The tri-state: checked iff there are files and all are selected,
      indeterminate iff some but not all are, clear iff none is. */
  lemma FolderCheckTriState(files: seq<string>, selected: set<string>)
    ensures FolderCheck(files, selected).checked <==> files != [] && Elems(files) <= selected
    ensures FolderCheck(files, selected).indeterminate <==>
      Elems(files) * selected != {} && !(Elems(files) <= selected)
    ensures !FolderCheck(files, selected).checked && !FolderCheck(files, selected).indeterminate <==>
      Elems(files) * selected == {}
  {
    CountAll(files, selected);
    CountNone(files, selected);
    if files == [] {
      assert Elems(files) == {};
    }
  }

  /** The paths of `paths` whose selection is `keep`, in order. */
  function KeepIf(paths: seq<string>, selected: set<string>, keep: bool): (r: seq<string>)
    ensures Elems(r) == set p | p in Elems(paths) && (p in selected) == keep
    ensures Distinct(paths) ==> Distinct(r)
  {
    if paths == [] then []
    else
      var init := paths[..|paths| - 1];
      var last := paths[|paths| - 1];
      var rest := KeepIf(init, selected, keep);
      assert paths == init + [last];
      ElemsSnoc(init, last);
      if (last in selected) == keep then
        ElemsSnoc(rest, last);
        assert Distinct(paths) ==> last !in Elems(init);
        rest + [last]
      else rest
  }

  /** `toggleFolderSelection`: nothing without files; when all are
      selected each selected one is toggled off, otherwise each unselected
      one is toggled on, through the tree hook's `toggleSelect`. */
  method ToggleFolderSelection(st: FileTreeState, files: seq<string>)
    modifies st
    ensures files == [] ==> st.selected == old(st.selected)
    ensures Distinct(files) && FolderCheck(files, old(st.selected)).checked ==>
      st.selected == old(st.selected) - Elems(files)
    ensures Distinct(files) && !FolderCheck(files, old(st.selected)).checked ==>
      st.selected == old(st.selected) + Elems(files)
    ensures unchanged(st`diffFiles, st`tree, st`showChangedOnly, st`expanded, st`computing, st`dirs, st`bound)
  {
    if |files| == 0 {
      return;
    }
    var allSelected := FolderCheck(files, st.selected).checked;
    var toToggle := KeepIf(files, st.selected, allSelected);
    ghost var before := st.selected;
    for i := 0 to |toToggle|
      invariant Distinct(files) ==>
        st.selected == if allSelected then before - Elems(toToggle[..i]) else before + Elems(toToggle[..i])
      invariant unchanged(st`diffFiles, st`tree, st`showChangedOnly, st`expanded, st`computing, st`dirs, st`bound)
    {
      ElemsSnoc(toToggle[..i], toToggle[i]);
      assert toToggle[..i + 1] == toToggle[..i] + [toToggle[i]];
      assert toToggle[i] in Elems(toToggle);
      assert (toToggle[i] in before) == allSelected;
      if Distinct(files) {
        assert toToggle[i] !in Elems(toToggle[..i]);
      }
      st.ToggleSelect(toToggle[i]);
    }
    assert toToggle[..|toToggle|] == toToggle;
    FolderCheckTriState(files, before);
  }

  // ---------------------------------------------------------------------
  // rendering

  /** What the view is given besides the tree. */
  datatype View = View(query: string, changedOnly: bool, expanded: set<string>, selected: set<string>)

  /** One rendered list item: a folder with its expand state, checkbox and
      caption (`name || '/'`), or a file with its status, checkbox and whether
      its preview button is disabled. */
  datatype Row =
    | FolderRow(path: string, caption: string, expanded: bool, check: CheckState)
    | FileRow(path: string, name: string, status: FileStatus, checked: bool, previewDisabled: bool)

  /** `renderTreeNodes`: the rows of each node in order, flattened. */
  function RenderNodes(ns: seq<Node>, v: View): seq<Row>
    decreases ns
  {
    if ns == [] then [] else RenderNodes(ns[..|ns| - 1], v) + RenderNode(ns[|ns| - 1], v)
  }

  /** The rows of one node: nothing when it should not show; a directory
      with no child to show is dropped under changed-only or a query, is
      expanded under a query or when its path is expanded, and renders its
      children only when expanded. */
  function RenderNode(n: Node, v: View): seq<Row>
    decreases n
  {
    if !ShouldShow(n, v.query, v.changedOnly) then []
    else
      match n
      case DirNode(name, path, children) =>
        var hasVisibleChildren := exists i :: 0 <= i < |children| && ShouldShow(children[i], v.query, v.changedOnly);
        if !hasVisibleChildren && (v.changedOnly || v.query != "") then []
        else
          var isExpanded := v.query != "" || path in v.expanded;
          [FolderRow(path, if name == "" then "/" else name, isExpanded, FolderCheck(GatherFiles(n), v.selected))] +
          (if isExpanded then RenderNodes(children, v) else [])
      case FileNode(name, path, status, binary) =>
        if v.changedOnly && status == Unchanged then []
        else [FileRow(path, name, status, path in v.selected, binary)]
  }

  /** The view of the whole tree: the rows of the root's children. */
  function RenderTree(tree: Option<Node>, v: View): seq<Row> {
    match tree
    case Some(DirNode(_, _, children)) => RenderNodes(children, v)
    case _ => []
  }

  lemma {:induction false} RenderNodesMember(ns: seq<Node>, v: View, r: Row) returns (i: nat)
    requires r in RenderNodes(ns, v)
    ensures i < |ns| && r in RenderNode(ns[i], v)
    decreases ns
  {
    var init := ns[..|ns| - 1];
    if r in RenderNode(ns[|ns| - 1], v) {
      i := |ns| - 1;
    } else {
      i := RenderNodesMember(init, v, r);
      assert ns[i] == init[i];
    }
  }

  lemma {:induction false} RenderNodesHas(ns: seq<Node>, v: View, i: nat, r: Row)
    requires i < |ns| && r in RenderNode(ns[i], v)
    ensures r in RenderNodes(ns, v)
    decreases ns
  {
    if i < |ns| - 1 {
      var init := ns[..|ns| - 1];
      assert ns[i] == init[i];
      RenderNodesHas(init, v, i, r);
    }
  }

  /** Every file row comes from a file below the node that should show,
      and carries its status, its selection and its binary guess. */
  lemma {:induction false} FileRowSource(n: Node, v: View, r: Row) returns (f: Node)
    requires r in RenderNode(n, v) && r.FileRow?
    ensures Descends(f, n) && f.FileNode? && ShouldShow(f, v.query, v.changedOnly)
    ensures f.path == r.path && f.name == r.name && f.status == r.status
    ensures r.checked == (f.path in v.selected) && r.previewDisabled == f.likelyBinary
    decreases n
  {
    match n
    case FileNode(_, _, _, _) =>
      f := n;
    case DirNode(name, path, children) =>
      assert r != RenderNode(n, v)[0];
      var i := RenderNodesMember(children, v, r);
      f := FileRowSource(children[i], v, r);
  }

  /** A shown file row matches the filter and, under changed-only, changed. */
  lemma FileRowsMatch(n: Node, v: View, r: Row)
    requires r in RenderNode(n, v) && r.FileRow?
    ensures v.query == "" || Contains(Lower(r.path), v.query) || Contains(Lower(r.name), v.query)
    ensures v.changedOnly ==> r.status != Unchanged
  {
    var f := FileRowSource(n, v, r);
  }

  /** Every directory below `n`, `n` included, is in `expanded`. */
  ghost predicate DirsExpanded(n: Node, expanded: set<string>)
    decreases n
  {
    n.DirNode? ==> n.path in expanded && forall i :: 0 <= i < |n.children| ==> DirsExpanded(n.children[i], expanded)
  }

  /** A file below `n` that should show gets a row when a query is active
      (folders open themselves to reveal matches) or when every folder on
      the way is expanded. */
  lemma {:induction false} FileRevealed(f: Node, n: Node, v: View)
    requires f.FileNode? && Descends(f, n) && ShouldShow(f, v.query, v.changedOnly)
    requires v.query != "" || DirsExpanded(n, v.expanded)
    ensures FileRow(f.path, f.name, f.status, f.path in v.selected, f.likelyBinary) in RenderNode(n, v)
    decreases n
  {
    ShownUpward(f, n, v.query, v.changedOnly);
    if f != n {
      var i :| 0 <= i < |n.children| && Descends(f, n.children[i]);
      var c := n.children[i];
      ShownUpward(f, c, v.query, v.changedOnly);
      FileRevealed(f, c, v);
      RenderNodesHas(n.children, v, i, FileRow(f.path, f.name, f.status, f.path in v.selected, f.likelyBinary));
    }
  }
}

/** `generateSelectedTreeString` of the page (src/web/src/App.tsx): the
    selected paths are sorted, merged into a tree of names split on '/',
    and drawn one line per node with box-drawing branches, directories
    before files and siblings by name. */
module SelectedTree {
  import opened Strings
  import opened Sorting

  /** A node of the tree: its name, whether some selected path ends here,
      and its children in insertion order (the `Map` of the source; a node
      without a `Map` has no children). */
  datatype TrieNode = TrieNode(name: string, isFile: bool, children: seq<TrieNode>)

  const ROOT: TrieNode := TrieNode("", false, [])

  /** `children.has(name)` / `children.get(name)`: the first child with
      that name, or -1. */
  function IndexOfName(cs: seq<TrieNode>, name: string): (i: int)
    ensures -1 <= i < |cs|
    ensures i >= 0 ==> cs[i].name == name
    ensures i < 0 ==> forall j :: 0 <= j < |cs| ==> cs[j].name != name
  {
    if cs == [] then -1
    else if cs[0].name == name then 0
    else
      var r := IndexOfName(cs[1..], name);
      if r < 0 then -1 else r + 1
  }

  /** One path's parts merged into the tree: each part is looked up among
      the current node's children and created when missing; the node of
      the last part is marked as a file. */
  function Insert(t: TrieNode, parts: seq<string>): (r: TrieNode)
    requires |parts| > 0
    ensures r.name == t.name && r.isFile == t.isFile
    ensures |r.children| > 0
    decreases |parts|
  {
    var i := IndexOfName(t.children, parts[0]);
    var child := if i >= 0 then t.children[i] else TrieNode(parts[0], false, []);
    var next := if |parts| == 1 then child.(isFile := true) else Insert(child, parts[1..]);
    t.(children := if i >= 0 then t.children[i := next] else t.children + [next])
  }

  /** The tree of a list of paths, inserted in order. */
  function Build(paths: seq<string>): TrieNode {
    if paths == [] then ROOT
    else Insert(Build(paths[..|paths| - 1]), Split(paths[|paths| - 1], '/'))
  }

  /** A folder is a node with children that no selected path ends at. */
  predicate IsFolder(n: TrieNode) {
    |n.children| > 0 && !n.isFile
  }

  /** The sibling comparator: folders first, then by name. */
  predicate EntryLe(a: TrieNode, b: TrieNode) {
    if IsFolder(a) != IsFolder(b) then IsFolder(a) else LessEq(a.name, b.name)
  }

  lemma EntryLeTotal()
    ensures Total(EntryLe)
  {
    forall a: TrieNode, b: TrieNode ensures EntryLe(a, b) || EntryLe(b, a) {
      if a.name != b.name {
        LessTotal(a.name, b.name);
      }
    }
  }

  /** The children of a node in drawing order. */
  function Entries(t: TrieNode): (es: seq<TrieNode>)
    ensures multiset(es) == multiset(t.children)
    ensures forall e :: e in es ==> e in t.children
  {
    var es := SortBy(t.children, EntryLe);
    assert forall e :: e in es ==> e in multiset(es);
    es
  }

  const BRANCH: string := "├── "
  const LAST_BRANCH: string := "└── "
  const PIPE_INDENT: string := "│   "
  const BLANK_INDENT: string := "    "

  /** `walk(n, indent)`: the lines below a node. */
  function Walk(t: TrieNode, indent: string): seq<string>
    decreases t
  {
    WalkEntries(t, Entries(t), indent)
  }

  /** The lines of the siblings `es` of `parent`: the last one is drawn
      with `└── ` and its children indented with blanks, the others with
      `├── ` and a continuing `│`. */
  function WalkEntries(parent: TrieNode, es: seq<TrieNode>, indent: string): seq<string>
    requires forall e :: e in es ==> e in parent.children
    decreases parent, |es|
  {
    if es == [] then []
    else
      var isLast := |es| == 1;
      assert es[0] in parent.children;
      [indent + (if isLast then LAST_BRANCH else BRANCH) + es[0].name] +
      Walk(es[0], indent + (if isLast then BLANK_INDENT else PIPE_INDENT)) +
      WalkEntries(parent, es[1..], indent)
  }

  /** The text for already sorted paths: the lines joined by '\n', with a
      final '\n' when there is any line. */
  function TreeText(paths: seq<string>): string {
    var body := Walk(Build(paths), "");
    Join(body, '\n') + (if |body| > 0 then "\n" else "")
  }

  /** `generateSelectedTreeString(paths)`. The source sorts the caller's
      array in place; `sorted` is that array afterwards. */
  method GenerateSelectedTreeString(paths: seq<string>) returns (r: string, sorted: seq<string>)
    ensures sorted == SortBy(paths, LessEq)
    ensures multiset(sorted) == multiset(paths) && SortedBy(sorted, LessEq)
    ensures r == TreeText(sorted)
  {
    sorted := SortBy(paths, LessEq);
    LessEqTotal();
    var root := ROOT;
    for i := 0 to |sorted|
      invariant root == Build(sorted[..i])
    {
      assert sorted[..i + 1][..i] == sorted[..i];
      root := Insert(root, Split(sorted[i], '/'));
    }
    assert sorted[..|sorted|] == sorted;
    var body := Walk(root, "");
    r := Join(body, '\n') + (if |body| > 0 then "\n" else "");
  }

  lemma LessEqTotal()
    ensures Total(LessEq)
  {
    forall a: string, b: string ensures LessEq(a, b) || LessEq(b, a) {
      if a != b {
        LessTotal(a, b);
      }
    }
  }

  // ---------------------------------------------------------------------
  // one line per node

  /** The number of nodes below `t`. */
  function Count(t: TrieNode): nat
    decreases t
  {
    CountOf(t, t.children)
  }

  function CountOf(parent: TrieNode, cs: seq<TrieNode>): nat
    requires forall e :: e in cs ==> e in parent.children
    decreases parent, |cs|
  {
    if cs == [] then 0
    else
      assert cs[0] in parent.children;
      1 + Count(cs[0]) + CountOf(parent, cs[1..])
  }

  lemma {:induction false} CountOfAppend(parent: TrieNode, a: seq<TrieNode>, b: seq<TrieNode>)
    requires forall e :: e in a + b ==> e in parent.children
    ensures CountOf(parent, a + b) == CountOf(parent, a) + CountOf(parent, b)
    decreases |a|
  {
    if a != [] {
      assert (a + b)[0] == a[0];
      assert (a + b)[1..] == a[1..] + b;
      CountOfAppend(parent, a[1..], b);
    } else {
      assert a + b == b;
    }
  }

  /** The count does not depend on the order of the siblings. */
  lemma {:induction false} CountOfPermutation(parent: TrieNode, a: seq<TrieNode>, b: seq<TrieNode>)
    requires multiset(a) == multiset(b)
    requires forall e :: e in a ==> e in parent.children
    requires forall e :: e in b ==> e in parent.children
    ensures CountOf(parent, a) == CountOf(parent, b)
    decreases |a|
  {
    if a != [] {
      var x := a[0];
      assert x in multiset(b);
      var j :| 0 <= j < |b| && b[j] == x;
      var left, right := b[..j], b[j + 1..];
      assert b == left + ([x] + right);
      RemoveMatched(a, b, j);
      CountOfPermutation(parent, a[1..], left + right);
      CountOfAppend(parent, left, [x] + right);
      CountOfAppend(parent, left, right);
      assert ([x] + right)[1..] == right;
    }
  }

  /** Whatever is a member of one of two permutations of each other is a
      member of the other. */
  lemma SameMembers(parent: TrieNode, a: seq<TrieNode>, b: seq<TrieNode>)
    requires multiset(a) == multiset(b)
    requires forall e :: e in a ==> e in parent.children
    ensures forall e :: e in b ==> e in parent.children
  {
    forall e | e in b ensures e in parent.children {
      assert e in multiset(a);
    }
  }

  /** Taking the same element out of two permutations of each other
      leaves permutations of each other. */
  lemma RemoveMatched<T>(a: seq<T>, b: seq<T>, j: nat)
    requires multiset(a) == multiset(b) && a != [] && j < |b| && b[j] == a[0]
    ensures multiset(a[1..]) == multiset(b[..j] + b[j + 1..])
  {
    assert a == [a[0]] + a[1..];
    assert b == b[..j] + [b[j]] + b[j + 1..];
    calc {
      multiset(a[1..]);
      multiset(a) - multiset{a[0]};
      multiset(b) - multiset{b[j]};
      multiset(b[..j]) + multiset(b[j + 1..]);
      multiset(b[..j] + b[j + 1..]);
    }
  }

  /** The drawing has exactly one line per node of the tree. */
  lemma {:induction false} WalkCount(t: TrieNode, indent: string)
    ensures |Walk(t, indent)| == Count(t)
    decreases t
  {
    WalkEntriesCount(t, Entries(t), indent);
    SameMembers(t, t.children, Entries(t));
    CountOfPermutation(t, t.children, Entries(t));
  }

  lemma {:induction false} WalkEntriesCount(parent: TrieNode, es: seq<TrieNode>, indent: string)
    requires forall e :: e in es ==> e in parent.children
    ensures |WalkEntries(parent, es, indent)| == CountOf(parent, es)
    decreases parent, |es|
  {
    if es != [] {
      var isLast := |es| == 1;
      assert es[0] in parent.children;
      WalkCount(es[0], indent + (if isLast then BLANK_INDENT else PIPE_INDENT));
      WalkEntriesCount(parent, es[1..], indent);
    }
  }

  /** Every line below a node starts with the indent it was drawn at. */
  lemma {:induction false} WalkIndented(t: TrieNode, indent: string)
    ensures forall k :: 0 <= k < |Walk(t, indent)| ==> StartsWith(Walk(t, indent)[k], indent)
    decreases t
  {
    WalkEntriesIndented(t, Entries(t), indent);
  }

  lemma {:induction false} WalkEntriesIndented(parent: TrieNode, es: seq<TrieNode>, indent: string)
    requires forall e :: e in es ==> e in parent.children
    ensures forall k :: 0 <= k < |WalkEntries(parent, es, indent)| ==>
      StartsWith(WalkEntries(parent, es, indent)[k], indent)
    decreases parent, |es|
  {
    if es != [] {
      var isLast := |es| == 1;
      var inner := indent + (if isLast then BLANK_INDENT else PIPE_INDENT);
      var head := indent + (if isLast then LAST_BRANCH else BRANCH) + es[0].name;
      assert es[0] in parent.children;
      var sub := Walk(es[0], inner);
      var rest := WalkEntries(parent, es[1..], indent);
      WalkIndented(es[0], inner);
      WalkEntriesIndented(parent, es[1..], indent);
      assert StartsWith(head, indent) by {
        assert head[..|indent|] == indent;
      }
      forall k | 0 <= k < |sub| ensures StartsWith(sub[k], indent) {
        assert inner[..|indent|] == indent;
        StartsWithTransitive(sub[k], inner, indent);
      }
      var all := [head] + sub + rest;
      forall k | 0 <= k < |all| ensures StartsWith(all[k], indent) {
        if k == 0 {
        } else if k <= |sub| {
          assert all[k] == sub[k - 1];
        } else {
          assert all[k] == rest[k - 1 - |sub|];
        }
      }
    }
  }

  /** Siblings are drawn folders first, each group by name. */
  lemma SiblingsOrdered(t: TrieNode)
    ensures SortedBy(Entries(t), EntryLe)
    ensures forall i, j :: 0 <= i < j < |Entries(t)| && IsFolder(Entries(t)[j]) ==> IsFolder(Entries(t)[i])
    ensures forall i, j :: 0 <= i < j < |Entries(t)| && IsFolder(Entries(t)[i]) == IsFolder(Entries(t)[j]) ==>
      LessEq(Entries(t)[i].name, Entries(t)[j].name)
  {
    EntryLeTotal();
    var es := Entries(t);
    forall i, j | 0 <= i < j < |es| ensures EntryLe(es[i], es[j]) {
      SortedChain(es, i, j);
    }
  }

  lemma {:induction false} SortedChain(es: seq<TrieNode>, i: nat, j: nat)
    requires SortedBy(es, EntryLe) && i < j < |es|
    ensures EntryLe(es[i], es[j])
    decreases j - i
  {
    if j > i + 1 {
      SortedChain(es, i, j - 1);
      EntryLeTransitive(es[i], es[j - 1], es[j]);
    }
  }

  lemma EntryLeTransitive(a: TrieNode, b: TrieNode, c: TrieNode)
    requires EntryLe(a, b) && EntryLe(b, c)
    ensures EntryLe(a, c)
  {
    if IsFolder(a) == IsFolder(b) && IsFolder(b) == IsFolder(c) && a.name != c.name {
      if Less(a.name, b.name) && Less(b.name, c.name) {
        LessTransitive(a.name, b.name, c.name);
      }
    }
  }

  // ---------------------------------------------------------------------
  // the comparator as written

  /** The value of `a.children && !a.isFile` in the source: `undefined`
      for a node that never received a `Map`, a boolean otherwise. */
  datatype DirFlag = Undefined | Flag(dir: bool)

  function WrittenDirFlag(n: TrieNode): DirFlag {
    if |n.children| == 0 then Undefined else Flag(!n.isFile)
  }

  /** `localeCompare`, as code-point order. */
  function NameCompare(a: string, b: string): int {
    if a == b then 0 else if Less(a, b) then -1 else 1
  }

  /** The sort callback as written: the flags are compared with `!==`, so
      `undefined` and `false` count as different, and the winner is the
      side whose flag is truthy. */
  function WrittenCompare(a: TrieNode, b: TrieNode): int {
    var da, db := WrittenDirFlag(a), WrittenDirFlag(b);
    if da != db then (if da == Flag(true) then -1 else 1)
    else NameCompare(a.name, b.name)
  }

  /** With "a", "a/b" and "b" selected, the root holds a file that also has
      children and a plain file; the written callback puts each after the
      other, so their order is up to the engine's sort. */
  lemma WrittenCompareInconsistent()
    ensures var both := TrieNode("a", true, [TrieNode("b", true, [])]);
      var leaf := TrieNode("b", true, []);
      Build(["a", "a/b", "b"]).children == [both, leaf] &&
      WrittenCompare(both, leaf) > 0 && WrittenCompare(leaf, both) > 0
  {
    ExampleParts();
    var paths := ["a", "a/b", "b"];
    assert paths[..2] == ["a", "a/b"];
    ExampleTwoPaths();
    assert IndexOfName([TrieNode("a", true, [TrieNode("b", true, [])])], "b") == -1;
  }

  lemma ExampleParts()
    ensures Split("a", '/') == ["a"] && Split("b", '/') == ["b"] && Split("a/b", '/') == ["a", "b"]
  {
    assert "a"[1..] == [] && "b"[1..] == [];
    assert ['a'] + "" == "a" && ['b'] + "" == "b";
    assert "a/b"[1..] == "/b" && "/b"[1..] == "b";
  }

  lemma ExampleTwoPaths()
    requires Split("a", '/') == ["a"] && Split("a/b", '/') == ["a", "b"]
    ensures Build(["a", "a/b"]) == TrieNode("", false, [TrieNode("a", true, [TrieNode("b", true, [])])])
  {
    assert ["a", "a/b"][..1] == ["a"] && ["a"][..0] == [];
    assert Build(["a"]) == TrieNode("", false, [TrieNode("a", true, [])]);
    assert Insert(TrieNode("a", true, []), ["b"]) == TrieNode("a", true, [TrieNode("b", true, [])]);
  }

  /** The callback as evidently intended: a node is a folder exactly when
      it has children and no selected path ends at it. */
  function Compare(a: TrieNode, b: TrieNode): (c: int)
    ensures c <= 0 <==> EntryLe(a, b)
    ensures c == 0 <==> IsFolder(a) == IsFolder(b) && a.name == b.name
  {
    if IsFolder(a) != IsFolder(b) then (if IsFolder(a) then -1 else 1)
    else NameCompare(a.name, b.name)
  }

  /** The intended callback is consistent: swapping its arguments flips its
      sign, which the written one fails on the pair above. */
  lemma CompareAntisymmetric(a: TrieNode, b: TrieNode)
    ensures Compare(a, b) == -Compare(b, a)
  {
    if IsFolder(a) == IsFolder(b) && a.name != b.name {
      if Less(a.name, b.name) {
        LessAsymmetric(a.name, b.name);
      } else {
        LessTotal(a.name, b.name);
      }
    }
  }

  // ---------------------------------------------------------------------
  // every selected path is in the tree

  /** The parts lead, name by name, to a node marked as a file. */
  ghost predicate HasFilePath(t: TrieNode, parts: seq<string>)
    decreases |parts|
  {
    |parts| > 0 &&
    exists i :: 0 <= i < |t.children| && t.children[i].name == parts[0] &&
      (if |parts| == 1 then t.children[i].isFile else HasFilePath(t.children[i], parts[1..]))
  }

  /** An inserted path is in the tree afterwards. */
  lemma {:induction false} InsertHas(t: TrieNode, parts: seq<string>)
    requires |parts| > 0
    ensures HasFilePath(Insert(t, parts), parts)
    decreases |parts|
  {
    var i := IndexOfName(t.children, parts[0]);
    var child := if i >= 0 then t.children[i] else TrieNode(parts[0], false, []);
    var next := if |parts| == 1 then child.(isFile := true) else Insert(child, parts[1..]);
    var r := Insert(t, parts);
    var k := if i >= 0 then i else |t.children|;
    assert r.children[k] == next;
    if |parts| > 1 {
      InsertHas(child, parts[1..]);
    }
  }

  /** Inserting a path keeps every path already in the tree. */
  lemma {:induction false} InsertKeeps(t: TrieNode, parts: seq<string>, q: seq<string>)
    requires |parts| > 0 && HasFilePath(t, q)
    ensures HasFilePath(Insert(t, parts), q)
    decreases |parts|
  {
    var i := IndexOfName(t.children, parts[0]);
    var child := if i >= 0 then t.children[i] else TrieNode(parts[0], false, []);
    var next := if |parts| == 1 then child.(isFile := true) else Insert(child, parts[1..]);
    var r := Insert(t, parts);
    var j :| 0 <= j < |t.children| && t.children[j].name == q[0] &&
      (if |q| == 1 then t.children[j].isFile else HasFilePath(t.children[j], q[1..]));
    if j != i {
      assert r.children[j] == t.children[j];
    } else {
      assert r.children[j] == next;
      if |q| > 1 && |parts| > 1 {
        InsertKeeps(child, parts[1..], q[1..]);
      } else if |q| > 1 {
        assert next.children == child.children;
        SameChildrenSamePaths(child, next, q[1..]);
      }
    }
  }

  lemma SameChildrenSamePaths(a: TrieNode, b: TrieNode, q: seq<string>)
    requires a.children == b.children && HasFilePath(a, q)
    ensures HasFilePath(b, q)
  {
  }

  /** Every selected path ends at a file node of the tree. */
  lemma {:induction false} BuildHasAll(paths: seq<string>, k: nat)
    requires k < |paths|
    ensures HasFilePath(Build(paths), Split(paths[k], '/'))
    decreases |paths|
  {
    var init := paths[..|paths| - 1];
    if k == |paths| - 1 {
      InsertHas(Build(init), Split(paths[k], '/'));
    } else {
      assert paths[k] == init[k];
      BuildHasAll(init, k);
      InsertKeeps(Build(init), Split(paths[|paths| - 1], '/'), Split(paths[k], '/'));
    }
  }

  // ---------------------------------------------------------------------
  // the text

  lemma BuildNonEmpty(paths: seq<string>)
    requires paths != []
    ensures |Build(paths).children| > 0
  {
  }

  /** No selected path gives the empty text; otherwise the text ends with
      a newline. */
  lemma TreeTextEmpty(paths: seq<string>)
    ensures TreeText(paths) == "" <==> paths == []
    ensures paths != [] ==> EndsWith(TreeText(paths), "\n")
  {
    var t := Build(paths);
    var body := Walk(t, "");
    WalkCount(t, "");
    if paths != [] {
      BuildNonEmpty(paths);
      assert Count(t) > 0;
    } else {
      assert t == ROOT;
      assert Entries(t) == [];
    }
  }
}

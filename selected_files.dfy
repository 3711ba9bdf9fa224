/** The panel listing the selected files
    (src/web/src/components/SelectedFilesPanel.tsx): one entry per selected
    path with its name, status, token count and binary hint, filtered by
    the search text and sorted by the chosen key, and the one-branch tree
    shown as a path's tooltip. Token counts come from elsewhere and are an
    input. */
module SelectedFiles {
  import opened Common
  import opened Strings
  import opened Sorting
  import ExtLists

  datatype SelectedEntry = SelectedEntry(path: string, name: string, status: FileStatus, tokens: int,
                                         likelyBinary: bool)

  datatype SortKey = TokensDesc | TokensAsc | NameAsc | NameDesc

  /** The panel opens sorted by token count, largest first. */
  const DEFAULT_SORT: SortKey := TokensDesc

  /** The part of a path after its last '/'. */
  function BaseName(path: string): (name: string)
    ensures '/' !in name
    ensures EndsWith(path, name)
    ensures '/' !in path ==> name == path
    ensures '/' in path ==> |path| - |name| - 1 >= 0 && path[|path| - |name| - 1] == '/'
  {
    var k := LastIndexOf(path, '/');
    if k < 0 then path
    else
      var name := path[k + 1..];
      assert forall c :: c in name ==> c != '/' by {
        forall j | 0 <= j < |name| ensures name[j] != '/' {
          assert name[j] == path[k + 1 + j];
        }
      }
      name
  }

  /** The entry of one selected path: a missing status reads as unchanged
      and a missing count as zero. */
  function EntryFor(path: string, statusByPath: map<string, FileStatus>, counts: map<string, int>): (e: SelectedEntry)
    ensures e.path == path && e.name == BaseName(path)
    ensures e.status == (if path in statusByPath then statusByPath[path] else Unchanged)
    ensures e.tokens == (if path in counts then counts[path] else 0)
  {
    SelectedEntry(path, BaseName(path),
                  if path in statusByPath then statusByPath[path] else Unchanged,
                  if path in counts then counts[path] else 0,
                  ExtLists.LikelyBinary(path))
  }

  function Entries(paths: seq<string>, statusByPath: map<string, FileStatus>, counts: map<string, int>): (es: seq<SelectedEntry>)
    ensures |es| == |paths|
    ensures forall i :: 0 <= i < |paths| ==> es[i] == EntryFor(paths[i], statusByPath, counts)
  {
    seq(|paths|, i requires 0 <= i < |paths| => EntryFor(paths[i], statusByPath, counts))
  }

  /** `(filterText || '').trim().toLowerCase()` */
  function Query(filterText: Option<string>): string {
    Lower(Trim(filterText.GetOr("")))
  }

  predicate EntryMatches(e: SelectedEntry, q: string) {
    Contains(Lower(e.path), q) || Contains(Lower(e.name), q)
  }

  /** An empty query keeps every entry; otherwise an entry is kept when its
      path or name, lower-cased, contains the query. */
  function FilterEntries(es: seq<SelectedEntry>, q: string): (r: seq<SelectedEntry>)
    ensures q == "" ==> r == es
    ensures q != "" ==> forall e :: e in r <==> e in es && EntryMatches(e, q)
    ensures |r| <= |es|
  {
    if q == "" then es
    else if es == [] then []
    else
      var init := FilterEntries(es[..|es| - 1], q);
      var e := es[|es| - 1];
      assert es == es[..|es| - 1] + [e];
      if EntryMatches(e, q) then init + [e] else init
  }

  /** The comparator of each sort key, as "may come first". */
  function Le(key: SortKey): (SelectedEntry, SelectedEntry) -> bool {
    match key
    case TokensDesc => (a: SelectedEntry, b: SelectedEntry) => a.tokens >= b.tokens
    case TokensAsc => (a: SelectedEntry, b: SelectedEntry) => a.tokens <= b.tokens
    case NameAsc => (a: SelectedEntry, b: SelectedEntry) => LessEq(a.name, b.name)
    case NameDesc => (a: SelectedEntry, b: SelectedEntry) => LessEq(b.name, a.name)
  }

  lemma LeTotal(key: SortKey)
    ensures Total(Le(key))
  {
    forall a: SelectedEntry, b: SelectedEntry ensures Le(key)(a, b) || Le(key)(b, a) {
      if a.name != b.name {
        LessTotal(a.name, b.name);
      }
    }
  }

  lemma LeTransitive(key: SortKey)
    ensures Transitive(Le(key))
  {
    forall a: SelectedEntry, b: SelectedEntry, c: SelectedEntry | Le(key)(a, b) && Le(key)(b, c)
      ensures Le(key)(a, c)
    {
      if key.NameAsc? && a.name != b.name && b.name != c.name {
        LessTransitive(a.name, b.name, c.name);
      } else if key.NameDesc? && a.name != b.name && b.name != c.name {
        LessTransitive(c.name, b.name, a.name);
      }
    }
  }

  /** `useMemo` of the panel: the entries, filtered and sorted. The source
      builds the entries in a loop. */
  method Items(selected: seq<string>, statusByPath: map<string, FileStatus>, counts: map<string, int>,
               filterText: Option<string>, key: SortKey) returns (items: seq<SelectedEntry>)
    ensures var q := Query(filterText);
      multiset(items) == multiset(FilterEntries(Entries(selected, statusByPath, counts), q))
    ensures SortedBy(items, Le(key))
    ensures items == SortBy(FilterEntries(Entries(selected, statusByPath, counts), Query(filterText)), Le(key))
    ensures var filtered := FilterEntries(Entries(selected, statusByPath, counts), Query(filterText));
      forall e :: Ties(items, Le(key), e) == Ties(filtered, Le(key), e)
  {
    var entries: seq<SelectedEntry> := [];
    for i := 0 to |selected|
      invariant |entries| == i
      invariant forall k :: 0 <= k < i ==> entries[k] == EntryFor(selected[k], statusByPath, counts)
    {
      entries := entries + [EntryFor(selected[i], statusByPath, counts)];
    }
    assert entries == Entries(selected, statusByPath, counts);
    var filtered := FilterEntries(entries, Query(filterText));
    LeTotal(key);
    items := SortBy(filtered, Le(key));
    LeTransitive(key);
    forall e ensures Ties(items, Le(key), e) == Ties(filtered, Le(key), e) {
      SortByStable(filtered, Le(key), e);
    }
  }

  /** The default order lists the largest token counts first. */
  lemma {:induction false} TokensDescOrdered(items: seq<SelectedEntry>, i: nat, j: nat)
    requires SortedBy(items, Le(TokensDesc)) && i <= j < |items|
    ensures items[i].tokens >= items[j].tokens
    decreases j - i
  {
    if i < j {
      TokensDescOrdered(items, i, j - 1);
      assert Le(TokensDesc)(items[j - 1], items[j]);
    }
  }

  lemma {:induction false} TokensAscOrdered(items: seq<SelectedEntry>, i: nat, j: nat)
    requires SortedBy(items, Le(TokensAsc)) && i <= j < |items|
    ensures items[i].tokens <= items[j].tokens
    decreases j - i
  {
    if i < j {
      TokensAscOrdered(items, i, j - 1);
      assert Le(TokensAsc)(items[j - 1], items[j]);
    }
  }

  /** A name is the tail of its path, so the name test never keeps an
      entry the path test alone would drop. */
  lemma NameMatchImpliesPathMatch(path: string, statusByPath: map<string, FileStatus>, counts: map<string, int>,
                                  q: string)
    ensures var e := EntryFor(path, statusByPath, counts);
      EntryMatches(e, q) <==> Contains(Lower(path), q)
  {
    TailContains(path, BaseName(path), q);
  }

  lemma TailContains(path: string, name: string, q: string)
    requires EndsWith(path, name)
    ensures Contains(Lower(name), q) ==> Contains(Lower(path), q)
  {
    if Contains(Lower(name), q) {
      var i :| 0 <= i <= |Lower(name)| - |q| && OccursAt(Lower(name), q, i);
      var off := |path| - |name|;
      LowerSuffix(path, |name|);
      assert Lower(path)[off..] == Lower(name);
      assert Lower(path)[off + i..off + i + |q|] == Lower(name)[i..i + |q|];
      assert OccursAt(Lower(path), q, off + i);
    }
  }

  const TOOLTIP_BRANCH: string := "└── "

  /** Line `i` of a path's tooltip: four spaces per level, the branch and
      the `i`-th part. */
  function TooltipLine(parts: seq<string>, i: nat): string
    requires i < |parts|
  {
    Spaces(i * 4) + TOOLTIP_BRANCH + parts[i]
  }

  /** `pathTreeTooltip`: the lines built in a loop and joined by '\n'. */
  method PathTreeTooltip(path: string) returns (tip: string, lines: seq<string>)
    ensures |lines| == |Split(path, '/')|
    ensures forall i :: 0 <= i < |lines| ==> lines[i] == TooltipLine(Split(path, '/'), i)
    ensures tip == Join(lines, '\n')
  {
    var parts := Split(path, '/');
    lines := [];
    for i := 0 to |parts|
      invariant |lines| == i
      invariant forall k :: 0 <= k < i ==> lines[k] == TooltipLine(parts, k)
    {
      lines := lines + [Spaces(i * 4) + TOOLTIP_BRANCH + parts[i]];
    }
    tip := Join(lines, '\n');
  }

  /** The tooltip has one line per path part, each ending with that part,
      so the parts can be read back from it. */
  lemma TooltipRoundTrip(path: string, lines: seq<string>)
    requires '\n' !in path
    requires |lines| == |Split(path, '/')|
    requires forall i :: 0 <= i < |lines| ==> lines[i] == TooltipLine(Split(path, '/'), i)
    ensures Split(Join(lines, '\n'), '\n') == lines
    ensures forall i :: 0 <= i < |lines| ==>
      EndsWith(lines[i], Split(path, '/')[i]) && StartsWith(lines[i], Spaces(4 * i) + TOOLTIP_BRANCH)
  {
    var parts := Split(path, '/');
    forall i | 0 <= i < |lines| ensures '\n' !in lines[i] {
      PartNoNewline(path, i);
      assert lines[i] == Spaces(i * 4) + TOOLTIP_BRANCH + parts[i];
    }
    SplitJoin(lines, '\n');
    forall i | 0 <= i < |lines|
      ensures EndsWith(lines[i], parts[i]) && StartsWith(lines[i], Spaces(4 * i) + TOOLTIP_BRANCH)
    {
      var head := Spaces(i * 4) + TOOLTIP_BRANCH;
      assert lines[i] == head + parts[i];
      assert lines[i][..|head|] == head;
      assert lines[i][|lines[i]| - |parts[i]|..] == parts[i];
    }
  }

  /** A part of a path holds only characters of the path. */
  lemma PartNoNewline(path: string, i: nat)
    requires '\n' !in path && i < |Split(path, '/')|
    ensures '\n' !in Split(path, '/')[i]
  {
    JoinSplit(path, '/');
    PartInJoin(Split(path, '/'), '/', i);
  }

  lemma {:induction false} PartInJoin(parts: seq<string>, sep: char, i: nat)
    requires i < |parts|
    ensures forall c :: c in parts[i] ==> c in Join(parts, sep)
  {
    if |parts| > 1 {
      assert Join(parts, sep) == parts[0] + [sep] + Join(parts[1..], sep);
      if i > 0 {
        PartInJoin(parts[1..], sep, i - 1);
      }
    }
  }
}

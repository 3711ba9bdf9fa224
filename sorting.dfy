/** The two sorts the source relies on: `Array.from(new Set(xs)).sort()` on
    strings, and the stable `Array.prototype.sort` with a comparator. */
module Sorting {
  import opened Strings

  function Elems(s: seq<string>): set<string> {
    set x | x in s
  }

  lemma ElemsSnoc(s: seq<string>, x: string)
    ensures Elems(s + [x]) == Elems(s) + {x}
  {
  }

  predicate StrictlySorted(s: seq<string>) {
    forall i :: 0 < i < |s| ==> Less(s[i - 1], s[i])
  }

  /** Inserts `x` into a strictly sorted list unless it is already there. */
  function InsertUnique(x: string, s: seq<string>): (r: seq<string>)
    requires StrictlySorted(s)
    ensures StrictlySorted(r)
    ensures Elems(r) == Elems(s) + {x}
    ensures |r| > 0 && (r[0] == x || (|s| > 0 && r[0] == s[0]))
  {
    if s == [] then [x]
    else if x == s[0] then s
    else if Less(x, s[0]) then [x] + s
    else
      LessTotal(x, s[0]);
      var t := InsertUnique(x, s[1..]);
      assert Elems(s) == {s[0]} + Elems(s[1..]);
      assert Elems([s[0]] + t) == {s[0]} + Elems(t);
      [s[0]] + t
  }

  /** `Array.from(new Set(xs)).sort()`: the distinct strings of `xs` in ascending order. */
  function SortUnique(xs: seq<string>): (r: seq<string>)
    ensures StrictlySorted(r)
    ensures Elems(r) == Elems(xs)
  {
    if xs == [] then []
    else
      assert Elems(xs) == {xs[0]} + Elems(xs[1..]);
      InsertUnique(xs[0], SortUnique(xs[1..]))
  }

  /** `Array.from(set).sort()`: the members of a set of names in ascending order. */
  method SortedNames(names: set<string>) returns (list: seq<string>)
    ensures StrictlySorted(list) && Elems(list) == names
  {
    list := [];
    var rest := names;
    while rest != {}
      invariant StrictlySorted(list)
      invariant Elems(list) + rest == names
      decreases rest
    {
      var x :| x in rest;
      list := InsertUnique(x, list);
      rest := rest - {x};
    }
  }

  lemma {:induction false} StrictlySortedPairwise(s: seq<string>, i: int, j: int)
    requires StrictlySorted(s)
    requires 0 <= i < j < |s|
    ensures Less(s[i], s[j])
  {
    if i < j - 1 {
      StrictlySortedPairwise(s, i, j - 1);
      LessTransitive(s[i], s[j - 1], s[j]);
    }
  }

  /** A strictly sorted list has no duplicates. */
  lemma StrictlySortedDistinct(s: seq<string>)
    requires StrictlySorted(s)
    ensures forall i, j :: 0 <= i < j < |s| ==> s[i] != s[j]
  {
    forall i, j | 0 <= i < j < |s| ensures s[i] != s[j] {
      StrictlySortedPairwise(s, i, j);
      LessIrreflexive(s[i]);
    }
  }

  /** There is only one strictly sorted list of a given set of strings, so
      SortUnique is fully determined by its two postconditions. */
  lemma {:induction false} StrictlySortedUnique(a: seq<string>, b: seq<string>)
    requires StrictlySorted(a) && StrictlySorted(b)
    requires Elems(a) == Elems(b)
    ensures a == b
  {
    if a == [] {
      assert forall i :: 0 <= i < |b| ==> b[i] in Elems(a);
    } else {
      assert b != [] by { assert a[0] in Elems(a); }
      assert a[0] == b[0] by {
        assert a[0] in Elems(b);
        assert b[0] in Elems(a);
        var i :| 0 <= i < |b| && b[i] == a[0];
        var j :| 0 <= j < |a| && a[j] == b[0];
        if a[0] != b[0] {
          StrictlySortedPairwise(b, 0, i);
          StrictlySortedPairwise(a, 0, j);
          LessAsymmetric(a[0], b[0]);
        }
      }
      MinimumNotInTail(a);
      MinimumNotInTail(b);
      assert Elems(a) == {a[0]} + Elems(a[1..]);
      assert Elems(b) == {b[0]} + Elems(b[1..]);
      StrictlySortedUnique(a[1..], b[1..]);
      assert a == [a[0]] + a[1..] && b == [b[0]] + b[1..];
    }
  }

  predicate Distinct(s: seq<string>) {
    forall i, j :: 0 <= i < j < |s| ==> s[i] != s[j]
  }

  /** Removing one element keeps a list strictly sorted. */
  lemma RemoveAtSorted(s: seq<string>, k: nat)
    requires StrictlySorted(s) && k < |s|
    ensures StrictlySorted(s[..k] + s[k + 1..])
    ensures Elems(s[..k] + s[k + 1..]) == Elems(s) - {s[k]}
  {
    var t := s[..k] + s[k + 1..];
    forall i | 0 < i < |t| ensures Less(t[i - 1], t[i]) {
      if i == k {
        assert t[i - 1] == s[k - 1] && t[i] == s[k + 1];
        StrictlySortedPairwise(s, k - 1, k + 1);
      } else if i < k {
        assert t[i - 1] == s[i - 1] && t[i] == s[i];
      } else {
        assert t[i - 1] == s[i] && t[i] == s[i + 1];
      }
    }
    StrictlySortedDistinct(s);
    assert s == s[..k] + [s[k]] + s[k + 1..];
    assert Elems(s) == Elems(s[..k]) + {s[k]} + Elems(s[k + 1..]);
    assert Elems(t) == Elems(s[..k]) + Elems(s[k + 1..]);
  }

  lemma MinimumNotInTail(s: seq<string>)
    requires StrictlySorted(s) && |s| > 0
    ensures s[0] !in Elems(s[1..])
  {
    if s[0] in Elems(s[1..]) {
      var k :| 1 <= k < |s| && s[k] == s[0];
      StrictlySortedPairwise(s, 0, k);
      LessIrreflexive(s[0]);
    }
  }

  // ---------------------------------------------------------------------
  // Stable sort with a comparator

  /** `le(a, b)` holds when the comparator does not put `b` before `a`. */
  ghost predicate Total<T(!new)>(le: (T, T) -> bool) {
    forall a, b :: le(a, b) || le(b, a)
  }

  ghost predicate SortedBy<T>(s: seq<T>, le: (T, T) -> bool) {
    forall i :: 0 < i < |s| ==> le(s[i - 1], s[i])
  }

  function InsertBy<T(!new)>(x: T, s: seq<T>, le: (T, T) -> bool): (r: seq<T>)
    ensures multiset(r) == multiset(s) + multiset{x}
    ensures |r| > 0 && (r[0] == x || (|s| > 0 && r[0] == s[0]))
    ensures Total(le) && SortedBy(s, le) ==> SortedBy(r, le)
  {
    if s == [] then [x]
    else if le(x, s[0]) then [x] + s
    else
      var t := InsertBy(x, s[1..], le);
      assert s == [s[0]] + s[1..];
      [s[0]] + t
  }

  /** A stable insertion sort: the list the source's `sort(cmp)` returns. */
  function SortBy<T(!new)>(xs: seq<T>, le: (T, T) -> bool): (r: seq<T>)
    ensures multiset(r) == multiset(xs)
    ensures Total(le) ==> SortedBy(r, le)
  {
    if xs == [] then []
    else
      assert xs == [xs[0]] + xs[1..];
      InsertBy(xs[0], SortBy(xs[1..], le), le)
  }

  ghost predicate Transitive<T(!new)>(le: (T, T) -> bool) {
    forall a, b, c :: le(a, b) && le(b, c) ==> le(a, c)
  }

  /** The elements of `s` the comparator cannot tell apart from `e`, in
      their order in `s`. */
  function Ties<T>(s: seq<T>, le: (T, T) -> bool, e: T): seq<T> {
    if s == [] then []
    else (if le(s[0], e) && le(e, s[0]) then [s[0]] else []) + Ties(s[1..], le, e)
  }

  /** Inserting `x` puts it before every element it ties with. */
  lemma InsertByTies<T(!new)>(x: T, s: seq<T>, le: (T, T) -> bool, e: T)
    requires Transitive(le)
    ensures Ties(InsertBy(x, s, le), le, e) == Ties([x] + s, le, e)
  {
    TiesCons(x, s, le, e);
    if le(x, e) && le(e, x) {
      forall y | le(y, e) && le(e, y) ensures le(x, y) {
        NoTieAcrossEither(x, y, le, e);
      }
      InsertTie(x, s, le, e);
    } else {
      InsertNoTie(x, s, le, e);
    }
  }

  lemma {:induction false} InsertNoTie<T(!new)>(x: T, s: seq<T>, le: (T, T) -> bool, e: T)
    requires !(le(x, e) && le(e, x))
    ensures Ties(InsertBy(x, s, le), le, e) == Ties(s, le, e)
  {
    if s == [] {
    } else if le(x, s[0]) {
      TiesCons(x, s, le, e);
    } else {
      var s0, rest := s[0], s[1..];
      InsertNoTie(x, rest, le, e);
      TiesCons(s0, InsertBy(x, rest, le), le, e);
      assert s == [s0] + rest;
      TiesCons(s0, rest, le, e);
    }
  }

  lemma {:induction false} InsertTie<T(!new)>(x: T, s: seq<T>, le: (T, T) -> bool, e: T)
    requires le(x, e) && le(e, x)
    requires forall y :: le(y, e) && le(e, y) ==> le(x, y)
    ensures Ties(InsertBy(x, s, le), le, e) == [x] + Ties(s, le, e)
  {
    if s == [] {
    } else if le(x, s[0]) {
      TiesCons(x, s, le, e);
    } else {
      var s0, rest := s[0], s[1..];
      var t := InsertBy(x, rest, le);
      assert InsertBy(x, s, le) == [s0] + t;
      assert !(le(s0, e) && le(e, s0));
      InsertTie(x, rest, le, e);
      TiesSkip(s0, t, le, e);
      assert s == [s0] + rest;
      TiesSkip(s0, rest, le, e);
    }
  }

  lemma TiesSkip<T>(y: T, t: seq<T>, le: (T, T) -> bool, e: T)
    requires !(le(y, e) && le(e, y))
    ensures Ties([y] + t, le, e) == Ties(t, le, e)
  {
    TiesCons(y, t, le, e);
  }

  lemma TiesCons<T>(y: T, t: seq<T>, le: (T, T) -> bool, e: T)
    ensures Ties([y] + t, le, e) == (if le(y, e) && le(e, y) then [y] else []) + Ties(t, le, e)
  {
    assert ([y] + t)[1..] == t;
  }

  lemma NoTieAcrossEither<T(!new)>(x: T, y: T, le: (T, T) -> bool, e: T)
    requires Transitive(le) && le(x, e) && le(e, y)
    ensures le(x, y)
  {
  }

  /** The sort is stable: elements that tie keep their relative order. */
  lemma {:induction false} SortByStable<T(!new)>(xs: seq<T>, le: (T, T) -> bool, e: T)
    requires Transitive(le)
    ensures Ties(SortBy(xs, le), le, e) == Ties(xs, le, e)
  {
    if xs != [] {
      var rest := SortBy(xs[1..], le);
      SortByStable(xs[1..], le, e);
      InsertByTies(xs[0], rest, le, e);
      assert ([xs[0]] + rest)[1..] == rest;
    }
  }
}

/** `toPosix` of the browser build's path service
    (src/web/src/platform/paths.ts): every run of backslashes becomes one
    '/', and then the first run of '/' is collapsed to one. */
module Paths {

  /** `s` without its leading run of `c`. */
  function DropRun(s: string, c: char): (r: string)
    ensures |r| <= |s| && r == s[|s| - |r|..]
    ensures r == [] || r[0] != c
    ensures forall i :: 0 <= i < |s| - |r| ==> s[i] == c
  {
    if s != [] && s[0] == c then DropRun(s[1..], c) else s
  }

  /** `s.replace(/\\+/g, '/')` */
  function ReplaceBackslashRuns(s: string): (r: string)
    ensures '\\' !in r
    ensures '\\' !in s ==> r == s
    decreases |s|
  {
    if s == [] then []
    else if s[0] == '\\' then "/" + ReplaceBackslashRuns(DropRun(s, '\\'))
    else [s[0]] + ReplaceBackslashRuns(s[1..])
  }

  /** `s.replace(/\/+/, '/')`: without the `g` flag only the first run changes. */
  function CollapseFirstSlashRun(s: string): (r: string)
    ensures '\\' !in s ==> '\\' !in r
  {
    if s == [] then []
    else if s[0] == '/' then "/" + DropRun(s, '/')
    else [s[0]] + CollapseFirstSlashRun(s[1..])
  }

  function ToPosix(p: string): (r: string)
    ensures p == "" ==> r == ""
    ensures '\\' !in r
  {
    if p == "" then p else CollapseFirstSlashRun(ReplaceBackslashRuns(p))
  }

  /** The characters that are neither '/' nor '\'. */
  function Content(s: string): string {
    if s == [] then []
    else if s[0] == '/' || s[0] == '\\' then Content(s[1..])
    else [s[0]] + Content(s[1..])
  }

  lemma {:induction false} ContentDropRun(s: string, c: char)
    requires c == '/' || c == '\\'
    ensures Content(DropRun(s, c)) == Content(s)
  {
    if s != [] && s[0] == c {
      ContentDropRun(s[1..], c);
    }
  }

  lemma {:induction false} ContentReplace(s: string)
    ensures Content(ReplaceBackslashRuns(s)) == Content(s)
    decreases |s|
  {
    if s == [] {
    } else if s[0] == '\\' {
      var d := DropRun(s, '\\');
      ContentReplace(d);
      ContentDropRun(s, '\\');
      assert ("/" + ReplaceBackslashRuns(d))[1..] == ReplaceBackslashRuns(d);
    } else {
      ContentReplace(s[1..]);
      assert ([s[0]] + ReplaceBackslashRuns(s[1..]))[1..] == ReplaceBackslashRuns(s[1..]);
    }
  }

  lemma {:induction false} ContentCollapse(s: string)
    ensures Content(CollapseFirstSlashRun(s)) == Content(s)
  {
    if s == [] {
    } else if s[0] == '/' {
      ContentDropRun(s, '/');
      assert ("/" + DropRun(s, '/'))[1..] == DropRun(s, '/');
    } else {
      ContentCollapse(s[1..]);
      assert ([s[0]] + CollapseFirstSlashRun(s[1..]))[1..] == CollapseFirstSlashRun(s[1..]);
    }
  }

  /** Only separators change: every other character survives, in order. */
  lemma ToPosixKeepsContent(p: string)
    ensures Content(ToPosix(p)) == Content(p)
  {
    if p != "" {
      ContentReplace(p);
      ContentCollapse(ReplaceBackslashRuns(p));
    }
  }

  lemma {:induction false} CollapseIdempotent(s: string)
    ensures CollapseFirstSlashRun(CollapseFirstSlashRun(s)) == CollapseFirstSlashRun(s)
  {
    if s == [] {
    } else if s[0] == '/' {
      var d := DropRun(s, '/');
      var u := "/" + d;
      assert u[1..] == d;
      assert DropRun(u, '/') == DropRun(d, '/');
    } else {
      CollapseIdempotent(s[1..]);
      var t := [s[0]] + CollapseFirstSlashRun(s[1..]);
      assert t[0] == s[0] && t[1..] == CollapseFirstSlashRun(s[1..]);
    }
  }

  lemma ToPosixIdempotent(p: string)
    ensures ToPosix(ToPosix(p)) == ToPosix(p)
  {
    if p != "" {
      var t := ReplaceBackslashRuns(p);
      CollapseIdempotent(t);
      var r := CollapseFirstSlashRun(t);
      if r != "" {
        assert ReplaceBackslashRuns(r) == r;
      }
    }
  }

  /** `n` copies of `c`. */
  function Run(c: char, n: nat): (r: string)
    ensures |r| == n && forall i :: 0 <= i < n ==> r[i] == c
  {
    seq(n, _ => c)
  }

  lemma {:induction false} DropWholeRun(c: char, n: nat, s: string)
    requires s == [] || s[0] != c
    ensures DropRun(Run(c, n) + s, c) == s
  {
    if n > 0 {
      assert (Run(c, n) + s)[1..] == Run(c, n - 1) + s;
      DropWholeRun(c, n - 1, s);
    } else {
      assert Run(c, n) + s == s;
    }
  }

  /** A whole run of backslashes, however long, becomes a single '/'. */
  lemma ReplaceRun(n: nat, s: string)
    requires n >= 1 && (s == [] || s[0] != '\\')
    ensures ReplaceBackslashRuns(Run('\\', n) + s) == "/" + ReplaceBackslashRuns(s)
  {
    DropWholeRun('\\', n, s);
  }

  /** Text without backslashes passes through unchanged. */
  lemma {:induction false} ReplacePlain(a: string, s: string)
    requires '\\' !in a
    ensures ReplaceBackslashRuns(a + s) == a + ReplaceBackslashRuns(s)
  {
    if a != [] {
      assert (a + s)[0] == a[0] && a[0] != '\\';
      assert (a + s)[1..] == a[1..] + s;
      assert '\\' !in a[1..] by {
        forall i | 0 <= i < |a| - 1 ensures a[1..][i] != '\\' { assert a[1..][i] == a[i + 1]; }
      }
      ReplacePlain(a[1..], s);
      var r := ReplaceBackslashRuns(s);
      assert ReplaceBackslashRuns(a + s) == [a[0]] + ReplaceBackslashRuns(a[1..] + s);
      assert [a[0]] + (a[1..] + r) == ([a[0]] + a[1..]) + r;
      assert [a[0]] + a[1..] == a;
    } else {
      assert a + s == s;
    }
  }

  /** Text without '/' passes through the collapse unchanged. */
  lemma {:induction false} CollapsePlain(a: string, s: string)
    requires '/' !in a
    ensures CollapseFirstSlashRun(a + s) == a + CollapseFirstSlashRun(s)
  {
    if a != [] {
      assert (a + s)[0] == a[0] && a[0] != '/';
      assert (a + s)[1..] == a[1..] + s;
      assert '/' !in a[1..] by {
        forall i | 0 <= i < |a| - 1 ensures a[1..][i] != '/' { assert a[1..][i] == a[i + 1]; }
      }
      CollapsePlain(a[1..], s);
      assert [a[0]] + a[1..] == a;
    } else {
      assert a + s == s;
    }
  }

  /** Only the first run of '/' is collapsed: a later "//" survives. */
  lemma ToPosixFirstRunOnly(x: string, y: string)
    requires x != "" && '/' !in x && '\\' !in x
    requires '\\' !in y && (y == [] || y[0] != '/')
    ensures ToPosix(x + "//" + y) == x + "/" + y
  {
    NoBackslashJoined(x, y);
    CollapseAfterPlain(x, y);
  }

  lemma NoBackslashJoined(x: string, y: string)
    requires '\\' !in x && '\\' !in y
    ensures '\\' !in x + "//" + y
  {
    var p := x + "//" + y;
    forall i | 0 <= i < |p| ensures p[i] != '\\' {
      if i < |x| {
        assert p[i] == x[i];
      } else if i >= |x| + 2 {
        assert p[i] == y[i - |x| - 2];
      }
    }
  }

  lemma CollapseAfterPlain(x: string, y: string)
    requires '/' !in x && (y == [] || y[0] != '/')
    ensures CollapseFirstSlashRun(x + "//" + y) == x + "/" + y
  {
    assert x + "//" + y == x + ("//" + y);
    CollapsePlain(x, "//" + y);
    CollapseDoubleSlash(y);
    assert x + ("/" + y) == x + "/" + y;
  }

  lemma CollapseDoubleSlash(y: string)
    requires y == [] || y[0] != '/'
    ensures CollapseFirstSlashRun("//" + y) == "/" + y
  {
    assert Run('/', 2) == "//";
    DropWholeRun('/', 2, y);
  }
}

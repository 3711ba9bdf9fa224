/** The unified-diff helpers of the browser build (src/web/src/utils/diff.ts).
    The patch generator itself (`createTwoFilesPatch` of the `diff`
    library) is a parameter of the model. */
module TextDiff {
  import opened Common
  import opened Strings

  /** `s[i..i+2]` is a carriage return followed by a line feed. */
  predicate CrLfAt(s: string, i: int) {
    0 <= i && i + 1 < |s| && s[i] == '\r' && s[i + 1] == '\n'
  }

  predicate HasCrLf(s: string) {
    exists i :: 0 <= i < |s| && CrLfAt(s, i)
  }

  /** `s[i..i+3]` is CR CR LF. */
  predicate CrCrLfAt(s: string, i: int) {
    0 <= i && i + 2 < |s| && s[i] == '\r' && s[i + 1] == '\r' && s[i + 2] == '\n'
  }

  /** `text.replace(/\r\n/g, '\n')`: one left-to-right pass replacing each
      CR LF pair by LF. */
  function NormalizeEol(text: string): (r: string)
    ensures |r| <= |text|
    ensures |text| > 0 ==> |r| > 0
    ensures |text| > 0 ==> (r[0] == '\n' <==> text[0] == '\n' || CrLfAt(text, 0))
  {
    if |text| >= 2 && text[0] == '\r' && text[1] == '\n' then "\n" + NormalizeEol(text[2..])
    else if text == [] then []
    else [text[0]] + NormalizeEol(text[1..])
  }

  /** Text without a CR LF pair is left untouched: lone CR and LF survive. */
  lemma {:induction false} NormalizeEolIdentity(text: string)
    requires !HasCrLf(text)
    ensures NormalizeEol(text) == text
  {
    if text != [] {
      assert !CrLfAt(text, 0);
      assert !HasCrLf(text[1..]) by {
        forall i | 0 <= i < |text| - 1 ensures !CrLfAt(text[1..], i) {
          assert CrLfAt(text[1..], i) ==> CrLfAt(text, i + 1);
        }
      }
      NormalizeEolIdentity(text[1..]);
      assert [text[0]] + text[1..] == text;
    }
  }

  /** Cutting the text anywhere but inside a CR LF pair lets each part be
      normalized on its own. */
  lemma {:induction false} NormalizeEolAppend(u: string, v: string)
    requires !(|u| > 0 && |v| > 0 && u[|u| - 1] == '\r' && v[0] == '\n')
    ensures NormalizeEol(u + v) == NormalizeEol(u) + NormalizeEol(v)
  {
    var w := u + v;
    if u == [] {
      assert w == v;
      assert NormalizeEol(u) == [];
    } else {
      var k := if |u| >= 2 && u[0] == '\r' && u[1] == '\n' then 2 else 1;
      var head := if k == 2 then "\n" else [u[0]];
      assert w[k..] == u[k..] + v;
      NormalizeEolAppend(u[k..], v);
      Step(u, k, head);
      assert NormalizeEol(w) == head + NormalizeEol(w[k..]) by {
        if k == 1 {
          assert |u| == 1 ==> |v| > 0 ==> w[1] == v[0];
          assert |u| >= 2 ==> w[1] == u[1];
        }
        Step(w, k, head);
      }
      Assoc(head, NormalizeEol(u[k..]), NormalizeEol(v));
    }
  }

  /** One step of the replacement: a CR LF pair or a single character. */
  lemma Step(w: string, k: nat, head: string)
    requires 1 <= k <= 2 && k <= |w|
    requires k == 2 <==> |w| >= 2 && w[0] == '\r' && w[1] == '\n'
    requires head == if k == 2 then "\n" else [w[0]]
    ensures NormalizeEol(w) == head + NormalizeEol(w[k..])
  {
  }

  lemma Assoc(a: string, b: string, c: string)
    ensures a + (b + c) == (a + b) + c
  {
  }

  /** A character that is not part of a CR LF pair is kept where it is,
      lone CR and lone LF included. */
  lemma NormalizeEolKeepsLoneChar(u: string, c: char, v: string)
    requires c == '\r' ==> v == [] || v[0] != '\n'
    requires c == '\n' ==> u == [] || u[|u| - 1] != '\r'
    ensures NormalizeEol(u + ([c] + v)) == NormalizeEol(u) + ([c] + NormalizeEol(v))
  {
    assert ([c] + v)[0] == c;
    NormalizeEolAppend(u, [c] + v);
    NormalizeEolAppend([c], v);
    NormalizeEolSingle(c);
  }

  lemma NormalizeEolSingle(c: char)
    ensures NormalizeEol([c]) == [c]
  {
    assert [c][1..] == [];
    Step([c], 1, [c]);
  }

  /** Every CR LF pair of the input becomes one LF, whatever surrounds it. */
  lemma NormalizeEolReplacesPair(u: string, v: string)
    ensures NormalizeEol(u + ("\r\n" + v)) == NormalizeEol(u) + ("\n" + NormalizeEol(v))
  {
    assert ("\r\n" + v)[0] == '\r';
    NormalizeEolAppend(u, "\r\n" + v);
    assert ("\r\n" + v)[2..] == v;
    Step("\r\n" + v, 2, "\n");
  }

  /** Unless the input holds CR CR LF, no CR LF pair is left in the output. */
  lemma {:induction false} NormalizeEolRemovesCrLf(text: string)
    requires forall i :: 0 <= i < |text| ==> !CrCrLfAt(text, i)
    ensures !HasCrLf(NormalizeEol(text))
  {
    if text == [] {
    } else if |text| >= 2 && text[0] == '\r' && text[1] == '\n' {
      var rest := text[2..];
      assert forall i :: 0 <= i < |rest| ==> !CrCrLfAt(rest, i) by {
        forall i | 0 <= i < |rest| ensures !CrCrLfAt(rest, i) { assert CrCrLfAt(rest, i) ==> CrCrLfAt(text, i + 2); }
      }
      NormalizeEolRemovesCrLf(rest);
      var r := "\n" + NormalizeEol(rest);
      forall i | 0 <= i < |r| ensures !CrLfAt(r, i) {
        if i >= 1 { assert CrLfAt(r, i) ==> CrLfAt(NormalizeEol(rest), i - 1); }
      }
    } else {
      var rest := text[1..];
      assert forall i :: 0 <= i < |rest| ==> !CrCrLfAt(rest, i) by {
        forall i | 0 <= i < |rest| ensures !CrCrLfAt(rest, i) { assert CrCrLfAt(rest, i) ==> CrCrLfAt(text, i + 1); }
      }
      NormalizeEolRemovesCrLf(rest);
      var r := [text[0]] + NormalizeEol(rest);
      forall i | 0 <= i < |r| ensures !CrLfAt(r, i) {
        if i >= 1 {
          assert CrLfAt(r, i) ==> CrLfAt(NormalizeEol(rest), i - 1);
        } else if text[0] == '\r' && |rest| > 0 {
          assert !CrLfAt(text, 0);
          assert !CrCrLfAt(text, 0);
        }
      }
    }
  }

  /** CR CR LF is the exception: its CR LF becomes LF after the first CR,
      which leaves a CR LF pair behind. */
  lemma NormalizeEolKeepsCrBeforeCrLf()
    ensures NormalizeEol("\r\r\n") == "\r\n"
  {
    assert NormalizeEol("\r\n") == "\n" + NormalizeEol("");
  }

  /** `text.endsWith('\n') ? text : text + '\n'` */
  function EnsureFinalNewline(text: string): (r: string)
    ensures EndsWith(r, "\n")
    ensures EndsWith(text, "\n") ==> r == text
    ensures r == text || r == text + "\n"
  {
    if EndsWith(text, "\n") then text else text + "\n"
  }

  lemma EnsureFinalNewlineIdempotent(text: string)
    ensures EnsureFinalNewline(EnsureFinalNewline(text)) == EnsureFinalNewline(text)
  {
  }

  /** The patch generator: old name, new name, old text, new text, context lines. */
  type PatchFn = (string, string, string, string, int) -> string

  const DEFAULT_CONTEXT: int := 3

  /** `createUnifiedDiffForPath(path, oldText, newText, {context})`. */
  function CreateUnifiedDiffForPath(patch: PatchFn, path: string, oldText: string, newText: string,
                                    context: Option<int>): (r: string)
    ensures EndsWith(r, "\n")
    ensures var p := patch("a/" + path, "b/" + path, NormalizeEol(oldText), NormalizeEol(newText),
                           context.GetOr(DEFAULT_CONTEXT));
            r == p || r == p + "\n"
  {
    var ctx := context.GetOr(DEFAULT_CONTEXT);
    EnsureFinalNewline(patch("a/" + path, "b/" + path, NormalizeEol(oldText), NormalizeEol(newText), ctx))
  }

  /** Without an explicit context the diff uses three lines of context. */
  lemma DefaultContextIsThree(patch: PatchFn, path: string, oldText: string, newText: string)
    ensures CreateUnifiedDiffForPath(patch, path, oldText, newText, None)
         == CreateUnifiedDiffForPath(patch, path, oldText, newText, Some(3))
  {
  }

  /** What a worker read returned for one side: `{binary, text, notFound?}`,
      with an absent `notFound` read as false. */
  datatype ReadSide = ReadSide(binary: bool, text: Option<string>, notFound: bool)

  predicate IsBinarySide(side: Option<ReadSide>) {
    side.Some? && side.value.binary
  }

  /** The text a side contributes: '' when binary, missing or absent. */
  function SideText(side: Option<ReadSide>): (t: string)
    ensures side.None? || side.value.binary || side.value.notFound || side.value.text.None? ==> t == ""
    ensures side.Some? && !side.value.binary && !side.value.notFound && side.value.text.Some? ==>
              t == side.value.text.value
  {
    if side.Some? && (side.value.binary || side.value.notFound) then ""
    else if side.Some? && side.value.text.Some? then side.value.text.value
    else ""
  }

  /** `buildUnifiedDiffForStatus`: a diff for changed paths, the full base
      text for unchanged ones, nothing when no text can be produced. */
  function BuildUnifiedDiffForStatus(patch: PatchFn, status: FileStatus, path: string,
                                     base: Option<ReadSide>, compare: Option<ReadSide>,
                                     context: Option<int>): (r: Option<string>)
    ensures r.None? <==>
      (status == Modify && (IsBinarySide(base) || IsBinarySide(compare))) ||
      (status == Add && IsBinarySide(compare)) ||
      (status == Remove && IsBinarySide(base)) ||
      (status == Unchanged && (IsBinarySide(base) || SideText(base) == ""))
    ensures r.Some? && status != Unchanged ==> EndsWith(r.value, "\n")
    ensures r.Some? && status == Unchanged ==> r.value == SideText(base)
    ensures r.Some? && status == Add ==>
      r.value == CreateUnifiedDiffForPath(patch, path, "", SideText(compare), Some(context.GetOr(DEFAULT_CONTEXT)))
    ensures r.Some? && status == Remove ==>
      r.value == CreateUnifiedDiffForPath(patch, path, SideText(base), "", Some(context.GetOr(DEFAULT_CONTEXT)))
    ensures r.Some? && status == Modify ==>
      r.value == CreateUnifiedDiffForPath(patch, path, SideText(base), SideText(compare), Some(context.GetOr(DEFAULT_CONTEXT)))
  {
    var ctx := Some(context.GetOr(DEFAULT_CONTEXT));
    var oldText := SideText(base);
    var newText := SideText(compare);
    match status
    case Modify =>
      if IsBinarySide(base) || IsBinarySide(compare) then None
      else Some(CreateUnifiedDiffForPath(patch, path, oldText, newText, ctx))
    case Add =>
      if IsBinarySide(compare) then None
      else Some(CreateUnifiedDiffForPath(patch, path, "", newText, ctx))
    case Remove =>
      if IsBinarySide(base) then None
      else Some(CreateUnifiedDiffForPath(patch, path, oldText, "", ctx))
    case Unchanged =>
      if IsBinarySide(base) then None
      else if oldText == "" then None
      else Some(oldText)
  }

  /** An added file's diff ignores whatever the base side returned, and a
      removed file's diff ignores the compare side. */
  lemma AddIgnoresBase(patch: PatchFn, path: string, b1: Option<ReadSide>, b2: Option<ReadSide>,
                       compare: Option<ReadSide>, context: Option<int>)
    ensures BuildUnifiedDiffForStatus(patch, Add, path, b1, compare, context)
         == BuildUnifiedDiffForStatus(patch, Add, path, b2, compare, context)
  {
  }

  /** A side reported missing diffs like an empty file. */
  lemma NotFoundIsEmpty(patch: PatchFn, path: string, base: Option<ReadSide>, t: Option<string>,
                        context: Option<int>)
    ensures BuildUnifiedDiffForStatus(patch, Modify, path, base, Some(ReadSide(false, t, true)), context)
         == BuildUnifiedDiffForStatus(patch, Modify, path, base, Some(ReadSide(false, Some(""), false)), context)
  {
  }
}

/** The file preview dialog, in both of its versions
    (src/web/src/components/PreviewModal.tsx and
    web/src/components/PreviewModal.tsx, whose computations agree): the
    two texts handed to the diff viewer, the binary notice, the caption of
    each side and the status badge. */
module Preview {
  import opened Common
  import opened Strings
  import TextDiff
  import CopyContext

  /** `side?.binary ? null : (typeof side?.text === 'string' ? side.text : null)` */
  function ShownText(side: Option<TextDiff.ReadSide>): (t: Option<string>)
    ensures t.Some? <==> side.Some? && !side.value.binary && side.value.text.Some?
    ensures t.Some? ==> t.value == side.value.text.value
  {
    if side.Some? && !side.value.binary then side.value.text else None
  }

  datatype Values = Values(oldValue: string, newValue: string)

  /** The old and new texts of the viewer: an added file has no old text,
      a removed one no new text, an unchanged one shows the base on both
      sides; a missing text reads as empty. */
  function ViewerValues(status: FileStatus, base: Option<TextDiff.ReadSide>, compare: Option<TextDiff.ReadSide>): (v: Values)
    ensures status == Add ==> v.oldValue == ""
    ensures status == Remove ==> v.newValue == ""
    ensures status == Unchanged ==> v.oldValue == v.newValue
    ensures status != Add ==> v.oldValue == ShownText(base).GetOr("")
    ensures status == Modify || status == Add ==> v.newValue == ShownText(compare).GetOr("")
  {
    var baseText := ShownText(base);
    var compareText := ShownText(compare);
    match status
    case Modify => Values(baseText.GetOr(""), compareText.GetOr(""))
    case Add => Values("", compareText.GetOr(""))
    case Remove => Values(baseText.GetOr(""), "")
    case Unchanged =>
      var same := baseText.GetOr("");
      Values(same, same)
  }

  /** The viewer is replaced by a notice when either side is binary. */
  predicate ShowsBinaryNotice(base: Option<TextDiff.ReadSide>, compare: Option<TextDiff.ReadSide>) {
    TextDiff.IsBinarySide(base) || TextDiff.IsBinarySide(compare)
  }

  /** The caption of one side: missing before binary, otherwise the length
      of the text shown. */
  function SideInfo(side: Option<TextDiff.ReadSide>, value: string): (info: string)
    ensures side.Some? && side.value.notFound ==> info == "not found"
    ensures side.Some? && !side.value.notFound && side.value.binary ==> info == "binary"
    ensures !(side.Some? && (side.value.notFound || side.value.binary)) ==>
      info == NatToString(|value|) + " chars"
  {
    if side.Some? && side.value.notFound then "not found"
    else if side.Some? && side.value.binary then "binary"
    else NatToString(|value|) + " chars"
  }

  /** When neither side is binary or missing, the viewer shows the very
      texts the copied diff is made from. */
  lemma ViewerMatchesDiffInput(status: FileStatus, base: TextDiff.ReadSide, compare: TextDiff.ReadSide)
    requires !base.binary && !compare.binary && !base.notFound && !compare.notFound
    ensures var v := ViewerValues(status, CopyContext.BaseSide(status, base), CopyContext.CompareSide(status, compare));
      var b := CopyContext.BaseSide(status, base);
      var c := CopyContext.CompareSide(status, compare);
      v.oldValue == TextDiff.SideText(b) &&
      v.newValue == (if status == Unchanged then TextDiff.SideText(b) else TextDiff.SideText(c))
  {
  }

  /** The badge of the `web/` version. */
  function StatusBadge(status: FileStatus): (badge: string)
    ensures badge in {"MODIFIED", "ADDED", "REMOVED", "UNCHANGED"}
  {
    match status
    case Modify => "MODIFIED"
    case Add => "ADDED"
    case Remove => "REMOVED"
    case Unchanged => "UNCHANGED"
  }

  /** The badge of the `src/web/` version: the upper-cased status with a
      style class per change kind. */
  function BadgeClass(status: FileStatus): (c: string)
    ensures c == "" <==> status == Unchanged
  {
    match status
    case Modify => "m"
    case Add => "a"
    case Remove => "d"
    case Unchanged => ""
  }

  /** Each status has its own badge in both versions. */
  lemma BadgesDistinguishStatus(a: FileStatus, b: FileStatus)
    requires a != b
    ensures StatusBadge(a) != StatusBadge(b)
    ensures CopyContext.StatusCaption(a) != CopyContext.StatusCaption(b)
  {
    CopyContext.StatusCaptionInjective(a, b);
  }

  /** The saved split-view preference: only "true" and "false" are read,
      anything else means side by side. */
  function InitialSplitView(saved: Option<string>): (split: bool)
    ensures saved == Some("false") <==> !split
  {
    if saved == Some("true") || saved == Some("false") then saved == Some("true") else true
  }

  /** The viewer hides unchanged lines except for unchanged files. */
  predicate ShowDiffOnly(status: FileStatus) {
    status != Unchanged
  }
}

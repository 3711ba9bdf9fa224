/** The shared binary/text classifier used by the desktop worker and the UI
    (src/electron/shared/binary.ts): extension denylist, magic bytes, the
    XML/SVG override and the control-byte density heuristic. */
module Binary {
  import opened Common
  import opened Strings

  /** How many leading bytes the density heuristic looks at. */
  const SNIFF_BYTES: nat := 8192

  /** Extensions that mark a path as binary without looking at content. */
  const BINARY_EXTS: set<string> := {
    ".png", ".jpg", ".jpeg", ".gif", ".bmp", ".webp", ".ico",
    ".pdf", ".zip", ".rar", ".7z", ".tar", ".gz", ".tgz",
    ".mp3", ".wav", ".flac",
    ".mp4", ".mov", ".avi", ".mkv", ".webm",
    ".exe", ".dll", ".bin", ".dmg", ".pkg", ".iso",
    ".woff", ".woff2", ".ttf", ".otf",
    ".so", ".dylib", ".class", ".jar",
    ".psd", ".ai", ".sketch",
    ".wasm",
    ".svg"
  }

  /** An extension as listed: a dot, then at least one character, no second dot. */
  predicate WellFormedExt(e: string) {
    |e| >= 2 && e[0] == '.' && '.' !in e[1..]
  }

  lemma BinaryExtsWellFormed()
    ensures forall e :: e in BINARY_EXTS ==> WellFormedExt(e)
  {
  }

  /** The suffix of `path` from its last dot, lower-cased, is a listed extension. */
  function IsBinaryPath(path: string): (r: bool)
    ensures '.' !in path ==> !r
  {
    var i := LastIndexOf(path, '.');
    if i < 0 then false else Lower(path[i..]) in BINARY_EXTS
  }

  lemma {:induction false} LastIndexOfLower(s: string)
    ensures LastIndexOf(Lower(s), '.') == LastIndexOf(s, '.')
  {
    if s != [] {
      LastIndexOfLower(s[..|s| - 1]);
      assert Lower(s)[..|s| - 1] == Lower(s[..|s| - 1]);
    }
  }

  /** The classification ignores letter case. */
  lemma IsBinaryPathCaseInsensitive(path: string)
    ensures IsBinaryPath(Lower(path)) == IsBinaryPath(path)
  {
    LastIndexOfLower(path);
    var i := LastIndexOf(path, '.');
    if i >= 0 {
      assert Lower(path)[i..] == Lower(path[i..]);
      LowerIdempotent(path[i..]);
    }
  }

  /** When `lp`, the path lower-cased, ends with a well-formed extension,
      that extension starts at the path's last dot. */
  lemma LastDotAt(path: string, lp: string, e: string)
    requires WellFormedExt(e) && EndsWith(lp, e)
    requires |lp| == |path| && forall i :: 0 <= i < |path| ==> lp[i] == LowerChar(path[i])
    ensures LastIndexOf(path, '.') == |path| - |e|
  {
    var k := |lp| - |e|;
    assert lp[k] == e[0];
    forall j | k < j < |path| ensures path[j] != '.' {
      assert lp[j] == e[j - k];
      assert e[1..][j - k - 1] == e[j - k];
    }
    LastIndexOfAt(path, '.', k);
  }

  lemma LastDotOfSuffix(path: string, e: string)
    requires WellFormedExt(e) && EndsWith(Lower(path), e)
    ensures LastIndexOf(path, '.') == |path| - |e|
    ensures Lower(path[|path| - |e|..]) == e
  {
    LastDotAt(path, Lower(path), e);
    LowerSuffix(path, |e|);
  }

  lemma SuffixMeansBinary(path: string, e: string)
    requires e in BINARY_EXTS && EndsWith(Lower(path), e)
    ensures IsBinaryPath(path)
  {
    BinaryExtsWellFormed();
    LastDotOfSuffix(path, e);
  }

  lemma BinaryMeansSuffix(path: string)
    requires IsBinaryPath(path)
    ensures EndsWith(Lower(path), Lower(path[LastIndexOf(path, '.')..]))
  {
    LowerSuffix(path, |path| - LastIndexOf(path, '.'));
  }

  /** Equivalently: the lower-cased path ends with one of the listed extensions
      (every extension holds exactly one dot, at its start). */
  lemma IsBinaryPathBySuffix(path: string)
    ensures IsBinaryPath(path) <==> exists e :: e in BINARY_EXTS && EndsWith(Lower(path), e)
  {
    if IsBinaryPath(path) {
      BinaryMeansSuffix(path);
    }
    if e :| e in BINARY_EXTS && EndsWith(Lower(path), e) {
      SuffixMeansBinary(path, e);
    }
  }

  // ---------------------------------------------------------------------
  // Magic bytes

  /** `ascii` occurs in `bytes` at `offset`, wholly inside the buffer. */
  predicate MatchesAt(bytes: Bytes, ascii: string, offset: nat) {
    offset + |ascii| <= |bytes| &&
    forall i :: 0 <= i < |ascii| ==> bytes[offset + i] as int == ascii[i] as int
  }

  /** The source's `startsWith(bytes, ascii, offset)`: the bounds test first,
      then a comparison loop that never reads past the buffer. */
  method StartsWithAscii(bytes: Bytes, ascii: string, offset: nat) returns (r: bool)
    ensures r == MatchesAt(bytes, ascii, offset)
    ensures offset + |ascii| > |bytes| ==> !r
  {
    if offset + |ascii| > |bytes| {
      return false;
    }
    for i := 0 to |ascii|
      invariant forall k :: 0 <= k < i ==> bytes[offset + k] as int == ascii[k] as int
    {
      if bytes[offset + i] as int != ascii[i] as int {
        return false;
      }
    }
    return true;
  }

  predicate HasBinaryMagic(b: Bytes) {
    var len := |b|;
    // PNG
    (len >= 8 && b[0] == 0x89 && b[1] == 0x50 && b[2] == 0x4E && b[3] == 0x47 &&
      b[4] == 0x0D && b[5] == 0x0A && b[6] == 0x1A && b[7] == 0x0A) ||
    // JPEG
    (len >= 3 && b[0] == 0xFF && b[1] == 0xD8 && b[2] == 0xFF) ||
    // GIF
    MatchesAt(b, "GIF87a", 0) || MatchesAt(b, "GIF89a", 0) ||
    // PDF
    MatchesAt(b, "%PDF-", 0) ||
    // ZIP: "PK" then 03/05/07 then 04/06/08
    (len >= 4 && b[0] == 0x50 && b[1] == 0x4B && (b[2] == 0x03 || b[2] == 0x05 || b[2] == 0x07) &&
      (b[3] == 0x04 || b[3] == 0x06 || b[3] == 0x08)) ||
    // GZIP
    (len >= 3 && b[0] == 0x1F && b[1] == 0x8B && b[2] == 0x08) ||
    // MP3 (ID3)
    MatchesAt(b, "ID3", 0) ||
    // MP4 / ISO BMFF
    (len >= 12 && MatchesAt(b, "ftyp", 4)) ||
    // OGG
    MatchesAt(b, "OggS", 0) ||
    // Matroska / WebM
    (len >= 4 && b[0] == 0x1A && b[1] == 0x45 && b[2] == 0xDF && b[3] == 0xA3) ||
    // WOFF / WOFF2
    MatchesAt(b, "wOFF", 0) || MatchesAt(b, "wOF2", 0) ||
    // TTF / OTF
    (len >= 4 && ((b[0] == 0x00 && b[1] == 0x01 && b[2] == 0x00 && b[3] == 0x00) || MatchesAt(b, "OTTO", 0))) ||
    // Windows MZ / ELF
    MatchesAt(b, "MZ", 0) || (len >= 4 && b[0] == 0x7F && b[1] == 0x45 && b[2] == 0x4C && b[3] == 0x46)
  }

  const PNG_SIGNATURE: Bytes := [0x89, 0x50, 0x4E, 0x47, 0x0D, 0x0A, 0x1A, 0x0A]

  /** The eight-byte PNG signature, the gzip header ID1 ID2 CM(deflate) and
      the ZIP local-file-header signature are each recognised whatever follows. */
  lemma KnownSignatures(rest: Bytes)
    ensures HasBinaryMagic(PNG_SIGNATURE + rest)
    ensures HasBinaryMagic([0x1F, 0x8B, 0x08] + rest)
    ensures HasBinaryMagic([0x50, 0x4B, 0x03, 0x04] + rest)
    ensures HasBinaryMagic([0xFF, 0xD8, 0xFF] + rest)
  {
  }

  lemma MismatchAt(bytes: Bytes, ascii: string, offset: nat, k: nat)
    requires k < |ascii| && offset + k < |bytes|
    requires bytes[offset + k] as int != ascii[k] as int
    ensures !MatchesAt(bytes, ascii, offset)
  {
  }

  /** "ftyp" at offset 4 counts only in a buffer of at least twelve bytes. */
  lemma FtypNeedsTwelveBytes()
    ensures !HasBinaryMagic([0, 0, 0, 0, 0x66, 0x74, 0x79, 0x70])
    ensures HasBinaryMagic([0, 0, 0, 0, 0x66, 0x74, 0x79, 0x70, 0, 0, 0, 0])
  {
    FtypShort([0, 0, 0, 0, 0x66, 0x74, 0x79, 0x70]);
    FtypLong();
  }

  /** A buffer shorter than twelve bytes that opens with two zero bytes
      matches no signature: TrueType's, the only one that starts with a
      zero byte, has 1 as its second byte, and "ftyp" needs twelve bytes. */
  lemma FtypShort(b: Bytes)
    requires |b| < 12 && |b| >= 2 && b[0] == 0 && b[1] == 0
    ensures !HasBinaryMagic(b)
  {
    MismatchAt(b, "GIF87a", 0, 0);
    MismatchAt(b, "GIF89a", 0, 0);
    MismatchAt(b, "%PDF-", 0, 0);
    MismatchAt(b, "ID3", 0, 0);
    MismatchAt(b, "OggS", 0, 0);
    MismatchAt(b, "wOFF", 0, 0);
    MismatchAt(b, "wOF2", 0, 0);
    MismatchAt(b, "OTTO", 0, 0);
    MismatchAt(b, "MZ", 0, 0);
  }

  lemma FtypLong()
    ensures HasBinaryMagic([0, 0, 0, 0, 0x66, 0x74, 0x79, 0x70, 0, 0, 0, 0])
  {
    assert MatchesAt([0, 0, 0, 0, 0x66, 0x74, 0x79, 0x70, 0, 0, 0, 0], "ftyp", 4);
  }

  // ---------------------------------------------------------------------
  // XML / SVG override

  /** Bytes skipped before the '<': the UTF-8 byte-order-mark bytes and
      everything up to and including the space. */
  predicate Skippable(c: bv8) {
    c == 0xEF || c == 0xBB || c == 0xBF || c <= 0x20
  }

  /** The first position at or after `i` that is not skippable. */
  function SkipLead(bytes: Bytes, i: nat): (j: nat)
    requires i <= |bytes|
    ensures i <= j <= |bytes|
    ensures forall k :: i <= k < j ==> Skippable(bytes[k])
    ensures j < |bytes| ==> !Skippable(bytes[j])
    decreases |bytes| - i
  {
    if i < |bytes| && Skippable(bytes[i]) then SkipLead(bytes, i + 1) else i
  }

  predicate XmlSvgText(bytes: Bytes) {
    var i := SkipLead(bytes, 0);
    i < |bytes| && bytes[i] == 0x3C &&
    (MatchesAt(bytes, "?xml", i + 1) || MatchesAt(bytes, "svg", i + 1) ||
     MatchesAt(bytes, "!DOCTYPE svg", i + 1))
  }

  /** The source's `isXmlSvgText`: advance past lead bytes, expect '<', then
      one of the three openings. */
  method IsXmlSvgText(bytes: Bytes) returns (r: bool)
    ensures r == XmlSvgText(bytes)
  {
    var i := 0;
    while i < |bytes| && Skippable(bytes[i])
      invariant 0 <= i <= |bytes|
      invariant SkipLead(bytes, 0) == SkipLead(bytes, i)
    {
      i := i + 1;
    }
    if i >= |bytes| || bytes[i] != 0x3C {
      return false;
    }
    r := StartsWithAscii(bytes, "?xml", i + 1);
    if !r {
      r := StartsWithAscii(bytes, "svg", i + 1);
    }
    if !r {
      r := StartsWithAscii(bytes, "!DOCTYPE svg", i + 1);
    }
  }

  /** An XML declaration behind a byte-order mark and white space is recognised. */
  lemma XmlAfterBom(ws: Bytes, rest: Bytes)
    requires forall k :: 0 <= k < |ws| ==> ws[k] <= 0x20
    ensures XmlSvgText([0xEF, 0xBB, 0xBF] + ws + [0x3C, 0x3F, 0x78, 0x6D, 0x6C] + rest)
  {
    var b := [0xEF, 0xBB, 0xBF] + ws + [0x3C, 0x3F, 0x78, 0x6D, 0x6C] + rest;
    var j := 3 + |ws|;
    assert forall k :: 0 <= k < j ==> Skippable(b[k]);
    SkipLeadPast(b, 0, j);
    assert MatchesAt(b, "?xml", j + 1);
  }

  lemma {:induction false} SkipLeadPast(bytes: Bytes, i: nat, j: nat)
    requires i <= j < |bytes|
    requires forall k :: i <= k < j ==> Skippable(bytes[k])
    requires !Skippable(bytes[j])
    ensures SkipLead(bytes, i) == j
    decreases j - i
  {
    if i < j { SkipLeadPast(bytes, i + 1, j); }
  }

  // ---------------------------------------------------------------------
  // Control-byte density heuristic

  /** NUL weighs 2; bytes 1-6 and 14-31 weigh 1; tab, LF, VT, FF, CR, BEL,
      BS and everything from the space up weigh nothing. */
  function Weight(c: bv8): nat {
    if c == 0 then 2 else if c < 7 || (c > 13 && c < 32) then 1 else 0
  }

  /** Total weight of the first `n` bytes. */
  function Suspicion(bytes: Bytes, n: nat): nat
    requires n <= |bytes|
  {
    if n == 0 then 0 else Suspicion(bytes, n - 1) + Weight(bytes[n - 1])
  }

  function SampleLength(bytes: Bytes): (n: nat)
    ensures n <= |bytes| && n <= SNIFF_BYTES
    ensures n == |bytes| || n == SNIFF_BYTES
  {
    if |bytes| < SNIFF_BYTES then |bytes| else SNIFF_BYTES
  }

  /** `suspicious / n > 0.30`, stated exactly as `10 * suspicious > 3 * n`
      (for n at most 8192 the floating-point quotient decides the same way). */
  predicate LooksBinary(bytes: Bytes) {
    var n := SampleLength(bytes);
    n > 0 && 10 * Suspicion(bytes, n) > 3 * n
  }

  method LooksBinaryHeuristic(bytes: Bytes) returns (r: bool)
    ensures r == LooksBinary(bytes)
  {
    var n := if |bytes| < SNIFF_BYTES then |bytes| else SNIFF_BYTES;
    if n == 0 {
      return false;
    }
    var suspicious := 0;
    for i := 0 to n
      invariant suspicious == Suspicion(bytes, i)
    {
      var c := bytes[i];
      if c == 0 {
        suspicious := suspicious + 2;
      } else if c < 7 || (c > 13 && c < 32) {
        suspicious := suspicious + 1;
      }
    }
    r := 10 * suspicious > 3 * n;
  }

  function NulCount(bytes: Bytes, n: nat): nat
    requires n <= |bytes|
  {
    if n == 0 then 0 else NulCount(bytes, n - 1) + (if bytes[n - 1] == 0 then 1 else 0)
  }

  lemma {:induction false} SuspicionBounds(bytes: Bytes, n: nat)
    requires n <= |bytes|
    ensures 2 * NulCount(bytes, n) <= Suspicion(bytes, n) <= 2 * n
  {
    if n > 0 { SuspicionBounds(bytes, n - 1); }
  }

  /** Enough NUL bytes in the sample make it binary: more than 15% of it. */
  lemma NulDensityIsBinary(bytes: Bytes)
    requires 20 * NulCount(bytes, SampleLength(bytes)) > 3 * SampleLength(bytes)
    ensures LooksBinary(bytes)
  {
    SuspicionBounds(bytes, SampleLength(bytes));
  }

  /** A sample with no control bytes outside tab..CR, BEL and BS is text. */
  lemma {:induction false} PlainTextIsNotBinary(bytes: Bytes, n: nat)
    requires n <= |bytes|
    requires forall k :: 0 <= k < n ==> Weight(bytes[k]) == 0
    ensures Suspicion(bytes, n) == 0
  {
    if n > 0 { PlainTextIsNotBinary(bytes, n - 1); }
  }

  lemma {:induction false} SuspicionPrefix(a: Bytes, b: Bytes, n: nat)
    requires n <= |a|
    ensures Suspicion(a + b, n) == Suspicion(a, n)
  {
    if n > 0 {
      SuspicionPrefix(a, b, n - 1);
      assert (a + b)[n - 1] == a[n - 1];
    }
  }

  /** Nothing after the first 8192 bytes affects the heuristic. */
  lemma OnlySampleMatters(a: Bytes, b: Bytes)
    requires |a| >= SNIFF_BYTES
    ensures LooksBinary(a + b) == LooksBinary(a)
  {
    SuspicionPrefix(a, b, SNIFF_BYTES);
  }

  // ---------------------------------------------------------------------
  // The classifier

  /** A path hint counts only when it is a non-empty string. */
  predicate BinaryByPath(path: Option<string>) {
    path.Some? && path.value != "" && IsBinaryPath(path.value)
  }

  predicate DetectBinaryByContent(sample: Bytes, path: Option<string>) {
    if BinaryByPath(path) then
      !(EndsWith(Lower(path.value), ".svg") && XmlSvgText(sample))
    else if HasBinaryMagic(sample) then true
    else if XmlSvgText(sample) then false
    else LooksBinary(sample)
  }

  /** Without a sample only the extension decides. */
  predicate ShouldTreatAsBinary(path: string, sample: Option<Bytes>) {
    if sample.None? then IsBinaryPath(path) else DetectBinaryByContent(sample.value, Some(path))
  }

  /** A binary extension other than .svg is conclusive, whatever the content. */
  lemma BinaryExtensionWins(sample: Bytes, path: string)
    requires IsBinaryPath(path) && !EndsWith(Lower(path), ".svg")
    ensures DetectBinaryByContent(sample, Some(path))
  {
  }

  /** A .svg path whose content opens like XML or SVG is text. */
  lemma XmlSvgIsText(sample: Bytes, path: string)
    requires EndsWith(Lower(path), ".svg") && XmlSvgText(sample)
    ensures !DetectBinaryByContent(sample, Some(path))
  {
    assert BinaryByPath(Some(path)) by {
      assert ".svg" in BINARY_EXTS;
      SuffixMeansBinary(path, ".svg");
    }
  }

  /** Without a binary extension a magic signature wins over the XML override
      and the heuristic. */
  lemma MagicBeforeOverride(sample: Bytes, path: Option<string>)
    requires !BinaryByPath(path) && HasBinaryMagic(sample)
    ensures DetectBinaryByContent(sample, path)
  {
  }

  lemma ShouldTreatWithoutSample(path: string)
    ensures ShouldTreatAsBinary(path, None) == IsBinaryPath(path)
  {
  }

  /** A PNG signature is binary even under a neutral name such as x.dat. */
  lemma PngUnderNeutralName(rest: Bytes)
    ensures DetectBinaryByContent(PNG_SIGNATURE + rest, Some("x.dat"))
  {
    KnownSignatures(rest);
    assert !IsBinaryPath("x.dat") by {
      LastIndexOfAt("x.dat", '.', 1);
      assert Lower("x.dat"[1..]) == ".dat";
    }
  }
}

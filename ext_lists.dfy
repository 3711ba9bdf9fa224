/** The extension-only binary tests of the browser build and the desktop
    worker, and the language tag used for code fences. Each one lower-cases
    the path and asks whether it ends with one of a fixed list. */
module ExtLists {
  import opened Strings
  import Binary

  /** `exts.some(e => p.toLowerCase().endsWith(e))` */
  predicate EndsWithAny(path: string, exts: set<string>) {
    exists e :: e in exts && EndsWith(Lower(path), e)
  }

  /** The list of src/web/src/utils/binary.ts, repeated verbatim in the
      desktop worker (src/electron/workers/nodeGitWorker.ts). */
  const WEB_BINARY_EXTS: set<string> := {
    ".png", ".jpg", ".jpeg", ".gif", ".bmp", ".webp", ".ico",
    ".pdf", ".zip", ".rar", ".7z", ".tar", ".gz", ".tgz",
    ".mp3", ".wav", ".flac",
    ".mp4", ".mov", ".avi", ".mkv", ".webm",
    ".exe", ".dll", ".bin", ".dmg", ".pkg", ".iso",
    ".woff", ".woff2", ".ttf", ".otf",
    ".svg"
  }

  /** The shorter list the file tree and the selected-files panel use. */
  const UI_BINARY_EXTS: set<string> := {
    ".png", ".jpg", ".jpeg", ".gif", ".webp", ".svg", ".ico", ".pdf", ".zip", ".gz", ".tgz",
    ".rar", ".7z", ".mp4", ".mp3", ".wav", ".mov", ".avi", ".mkv", ".woff", ".woff2", ".ttf"
  }

  /** The list the copy action uses: the web list without ".svg". */
  const APP_BINARY_EXTS: set<string> := {
    ".png", ".jpg", ".jpeg", ".gif", ".bmp", ".webp", ".ico",
    ".pdf", ".zip", ".rar", ".7z", ".tar", ".gz", ".tgz",
    ".mp3", ".wav", ".flac", ".mp4", ".mov", ".avi", ".mkv", ".webm",
    ".exe", ".dll", ".bin", ".dmg", ".pkg", ".iso",
    ".woff", ".woff2", ".ttf", ".otf"
  }

  /** `isBinaryPath` of the browser build and `isBinaryPathLocal` of the desktop worker. */
  predicate IsBinaryPathWeb(path: string) {
    EndsWithAny(path, WEB_BINARY_EXTS)
  }

  /** `likelyBinary` of the file tree and `isLikelyBinary` of the selected-files panel. */
  predicate LikelyBinary(path: string) {
    EndsWithAny(path, UI_BINARY_EXTS)
  }

  /** `isLikelyBinaryPath` of the copy action. */
  predicate IsLikelyBinaryPath(path: string) {
    EndsWithAny(path, APP_BINARY_EXTS)
  }

  lemma ListsWellFormed()
    ensures forall e :: e in WEB_BINARY_EXTS ==> Binary.WellFormedExt(e)
    ensures UI_BINARY_EXTS <= WEB_BINARY_EXTS
    ensures APP_BINARY_EXTS == WEB_BINARY_EXTS - {".svg"}
  {
  }

  lemma WebListInShared()
    ensures WEB_BINARY_EXTS <= Binary.BINARY_EXTS
  {
  }

  /** A path ends with at most one well-formed extension. */
  lemma SuffixUnique(path: string, e1: string, e2: string)
    requires Binary.WellFormedExt(e1) && Binary.WellFormedExt(e2)
    requires EndsWith(Lower(path), e1) && EndsWith(Lower(path), e2)
    ensures e1 == e2
  {
    Binary.LastDotOfSuffix(path, e1);
    Binary.LastDotOfSuffix(path, e2);
  }

  /** Whatever the browser build calls binary by name, the shared classifier
      does too; the shared list adds library, archive and design formats. */
  lemma WebImpliesShared(path: string)
    requires IsBinaryPathWeb(path)
    ensures Binary.IsBinaryPath(path)
  {
    var e :| e in WEB_BINARY_EXTS && EndsWith(Lower(path), e);
    WebListInShared();
    Binary.SuffixMeansBinary(path, e);
  }

  /** Of two well-formed extensions a path ending with the second ends with
      the first only if they are the same. */
  lemma SuffixOnly(path: string, e1: string, e2: string)
    requires Binary.WellFormedExt(e1) && Binary.WellFormedExt(e2)
    requires EndsWith(Lower(path), e2)
    ensures EndsWith(Lower(path), e1) ==> e1 == e2
  {
    if EndsWith(Lower(path), e1) {
      SuffixUnique(path, e1, e2);
    }
  }

  /** A shared library (".so") is binary to the shared classifier but not
      to the browser build's list. */
  lemma SharedListIsLarger(path: string)
    requires EndsWith(Lower(path), ".so")
    ensures Binary.IsBinaryPath(path) && !IsBinaryPathWeb(path)
  {
    Binary.SuffixMeansBinary(path, ".so");
    ListsWellFormed();
    assert ".so" !in WEB_BINARY_EXTS;
    forall e | e in WEB_BINARY_EXTS ensures !EndsWith(Lower(path), e) {
      SuffixOnly(path, e, ".so");
    }
  }

  /** The tree's shorter list never flags a path the web list would not. */
  lemma UiImpliesWeb(path: string)
    requires LikelyBinary(path)
    ensures IsBinaryPathWeb(path)
  {
    ListsWellFormed();
  }

  /** The copy action's test is the web test with SVG files let through. */
  lemma AppIsWebWithoutSvg(path: string)
    ensures IsLikelyBinaryPath(path) <==> IsBinaryPathWeb(path) && !EndsWith(Lower(path), ".svg")
  {
    ListsWellFormed();
    if IsLikelyBinaryPath(path) && EndsWith(Lower(path), ".svg") {
      var e :| e in APP_BINARY_EXTS && EndsWith(Lower(path), e);
      SuffixUnique(path, e, ".svg");
      assert false;
    }
    if IsBinaryPathWeb(path) && !EndsWith(Lower(path), ".svg") {
      var e :| e in WEB_BINARY_EXTS && EndsWith(Lower(path), e);
      assert e in APP_BINARY_EXTS;
    }
  }

  /** The fence language for a path, by its lower-cased extension. */
  function InferLangFromPath(path: string): (lang: string)
    ensures lang in {"", "ts", "tsx", "js", "jsx", "json", "markdown", "css", "html"}
  {
    LangOfLower(Lower(path))
  }

  function LangOfLower(lower: string): (lang: string)
    ensures lang in {"", "ts", "tsx", "js", "jsx", "json", "markdown", "css", "html"}
  {
    if EndsWith(lower, ".ts") then "ts"
    else if EndsWith(lower, ".tsx") then "tsx"
    else if EndsWith(lower, ".js") then "js"
    else if EndsWith(lower, ".jsx") then "jsx"
    else if EndsWith(lower, ".json") then "json"
    else if EndsWith(lower, ".md") then "markdown"
    else if EndsWith(lower, ".css") then "css"
    else if EndsWith(lower, ".html") || EndsWith(lower, ".htm") then "html"
    else ""
  }

  const LANG_EXTS: set<string> := {".ts", ".tsx", ".js", ".jsx", ".json", ".md", ".css", ".html", ".htm"}

  /** A language is inferred exactly when the path has one of the known
      extensions, in any letter case. */
  lemma InferLangKnown(path: string)
    ensures InferLangFromPath(path) != "" <==> EndsWithAny(path, LANG_EXTS)
  {
    LangOfLowerKnown(Lower(path));
  }

  lemma LangOfLowerKnown(lower: string)
    ensures LangOfLower(lower) != "" <==> exists e :: e in LANG_EXTS && EndsWith(lower, e)
  {
    if LangOfLower(lower) != "" {
      var e := if EndsWith(lower, ".ts") then ".ts"
        else if EndsWith(lower, ".tsx") then ".tsx"
        else if EndsWith(lower, ".js") then ".js"
        else if EndsWith(lower, ".jsx") then ".jsx"
        else if EndsWith(lower, ".json") then ".json"
        else if EndsWith(lower, ".md") then ".md"
        else if EndsWith(lower, ".css") then ".css"
        else if EndsWith(lower, ".html") then ".html"
        else ".htm";
      assert e in LANG_EXTS && EndsWith(lower, e);
    } else {
      forall e | e in LANG_EXTS ensures !EndsWith(lower, e) {
      }
    }
  }

  lemma InferLangCaseInsensitive(path: string)
    ensures InferLangFromPath(Lower(path)) == InferLangFromPath(path)
  {
    LowerIdempotent(path);
  }

  /** ".ts" is tested before ".tsx" and ".js" before ".jsx" without shadowing them. */
  lemma InferLangDistinguishesX(path: string)
    ensures EndsWith(Lower(path), ".tsx") ==> InferLangFromPath(path) == "tsx"
    ensures EndsWith(Lower(path), ".jsx") ==> InferLangFromPath(path) == "jsx"
  {
    var lower := Lower(path);
    if EndsWith(lower, ".tsx") || EndsWith(lower, ".jsx") {
      assert lower[|lower| - 1] == 'x';
    }
  }
}

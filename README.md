# GitContext core, modelled in Dafny

GitContext compares two refs of a Git repository, or a ref and the working
directory (the `__WORKDIR__` sentinel), shows the changed files as a tree,
lets the user select files and copies a Markdown document made of the
selected files' diffs or contents to the clipboard. This project models the
parts of it that decide what is shown and what is copied:

- the binary classifiers: the shared one (extension list, magic bytes, the
  XML/SVG override, the control-byte density heuristic) and the
  extension-only lists of the browser build, the desktop worker, the file
  tree and the copy action (`Binary`, `ExtLists`);
- reading branch names from `packed-refs`, `HEAD` and `refs/heads`, and the
  default-branch choice of each variant (`Refs`);
- the tree diff of two refs, or of a ref and the working directory
  (`Git`), and the browser worker (`WebWorker`) and desktop worker
  (`NodeWorker`, with its LRU blob cache `BlobCache`) that answer
  `loadRepo`, `listBranches`, `listFiles`, `diff`, `readFile` and
  `resolveRef`;
- the browser file-system snapshot that the browser worker receives
  (`BrowserFs`), and the page side of the worker protocol: ids, the
  pending table, timeouts, disposal and worker errors (`WorkerClient`);
- the repository hook's branch defaults and reset (`RepoState`), the file
  tree hook (`FileTree`) and the tree view with its filter and tri-state
  folder checkboxes (`TreeView`);
- the copy action: the selected-files tree string (`SelectedTree`), the
  per-file sections and the assembled document (`CopyContext`), the
  unified-diff front end (`TextDiff`), the selected-files panel
  (`SelectedFiles`), the preview dialog (`Preview`), the column resizer
  (`Layout`), `toPosix` (`Paths`) and the error log (`Logger`).

Git objects, the file system and the tokenizer are not executed: a
repository is a value (`Git.GitView`, `BrowserFs.Entry`) whose answers the
model reads, and token counts are an input. Where the source updates state
in place (the worker client, the workers, the LRU cache, the file tree
hook, the resizer, the error log) the model is a class whose methods
change its fields; loops of the source are methods with loop invariants,
proved against functions that state what they compute.

## Model

| member | source | states |
|---|---|---|
| Binary.BinaryExtsWellFormed | src/electron/shared/binary.ts:13-25 | every listed extension is a dot followed by a non-empty name with no second dot |
| Binary.IsBinaryPath | src/electron/shared/binary.ts:27-32 | a path with no dot is never binary by name |
| Binary.IsBinaryPathCaseInsensitive | src/electron/shared/binary.ts:27-32 | the name test ignores letter case |
| Binary.SuffixMeansBinary | src/electron/shared/binary.ts:27-32 | a path whose lower-cased form ends with a listed extension is binary by name |
| Binary.BinaryMeansSuffix | src/electron/shared/binary.ts:27-32 | a path binary by name ends with its own extension, lower-cased |
| Binary.IsBinaryPathBySuffix | src/electron/shared/binary.ts:27-32 | the last-dot test equals "the lower-cased path ends with a listed extension", in both directions |
| Binary.StartsWithAscii | src/electron/shared/binary.ts:34-40 | the loop answers true exactly when the ASCII text lies in the buffer at the offset, and false whenever it would run past the end |
| Binary.KnownSignatures | src/electron/shared/binary.ts:43-80 | a PNG, gzip, ZIP or JPEG header followed by anything is binary magic |
| Binary.FtypShort | src/electron/shared/binary.ts:43-80 | a buffer of 2 to 11 bytes opening with two zero bytes matches no signature |
| Binary.FtypNeedsTwelveBytes | src/electron/shared/binary.ts:68 | "ftyp" at offset 4 counts in a 12-byte buffer and not in an 8-byte one |
| Binary.SkipLead | src/electron/shared/binary.ts:85-86 | the scan stops at the first byte that is neither a byte-order-mark byte nor at most 0x20, and everything it skipped is such a byte |
| Binary.IsXmlSvgText | src/electron/shared/binary.ts:83-90 | the loop answers exactly the predicate "after the lead bytes comes '<' then `?xml`, `svg` or `!DOCTYPE svg`" |
| Binary.XmlAfterBom | src/electron/shared/binary.ts:83-90 | an XML declaration behind a byte-order mark and white space is recognised |
| Binary.SampleLength | src/electron/shared/binary.ts:94 | the sample is the whole buffer or its first 8192 bytes, whichever is shorter |
| Binary.LooksBinaryHeuristic | src/electron/shared/binary.ts:93-104 | the loop's count gives exactly `10 * suspicious > 3 * n` over the sample, which is `suspicious / n > 0.30` without division; an empty buffer is text |
| Binary.SuspicionBounds | src/electron/shared/binary.ts:96-102 | the score is at least twice the NUL count and at most twice the sample length |
| Binary.NulDensityIsBinary | src/electron/shared/binary.ts:99-103 | more than 15% NUL bytes in the sample make a buffer binary |
| Binary.PlainTextIsNotBinary | src/electron/shared/binary.ts:100-101 | a sample with no control byte outside the whitespace range scores zero |
| Binary.OnlySampleMatters | src/electron/shared/binary.ts:94-104 | bytes after the first 8192 never change the verdict |
| Binary.BinaryExtensionWins | src/electron/shared/binary.ts:106-112 | a binary extension other than .svg decides, whatever the content |
| Binary.XmlSvgIsText | src/electron/shared/binary.ts:108-110 | a .svg path whose content opens like XML or SVG is text |
| Binary.MagicBeforeOverride | src/electron/shared/binary.ts:113-115 | without a binary extension a magic signature wins over the XML override |
| Binary.ShouldTreatWithoutSample | src/electron/shared/binary.ts:120-123 | without a sample only the extension decides |
| Binary.PngUnderNeutralName | src/electron/shared/binary.ts:106-117 | a PNG signature is binary under a name such as x.dat |
| ExtLists.ListsWellFormed | src/web/src/utils/binary.ts:3-11 | the browser list is well formed, the tree's list is a subset of it, and the copy action's list is it without .svg |
| ExtLists.WebListInShared | src/web/src/utils/binary.ts:3-11 | the browser list is contained in the shared list |
| ExtLists.SuffixUnique | src/web/src/utils/binary.ts:13-16 | a path ends with at most one well-formed extension |
| ExtLists.WebImpliesShared | src/electron/workers/nodeGitWorker.ts:20-32 | whatever the browser build and the desktop worker call binary by name, the shared classifier does too |
| ExtLists.SharedListIsLarger | src/electron/shared/binary.ts:20 | a ".so" path is binary to the shared classifier but not to the browser list |
| ExtLists.UiImpliesWeb | src/web/src/hooks/useFileTree.ts:42-47 | the tree's and the panel's shorter list never flags a path the browser list would not |
| ExtLists.AppIsWebWithoutSvg | src/web/src/App.tsx:737-747 | the copy action's test is exactly the browser test with .svg files let through |
| ExtLists.InferLangFromPath | src/web/src/App.tsx:725-736 | the fence language is one of the nine tags or empty |
| ExtLists.InferLangKnown | src/web/src/App.tsx:725-736 | a language is inferred exactly when the path ends with a known extension, in any letter case |
| ExtLists.InferLangCaseInsensitive | src/web/src/App.tsx:726 | lower-casing the path first changes nothing |
| ExtLists.InferLangDistinguishesX | src/web/src/App.tsx:727-730 | testing ".ts" before ".tsx" and ".js" before ".jsx" does not shadow the longer ones |
| Refs.SecondFieldHead | src/electron/workers/nodeGitWorker.ts:43-48 | a branch is read only from a second field of the form `refs/heads/<name>` |
| Refs.ParsePackedRefs | src/electron/workers/nodeGitWorker.ts:35-54 | the loop returns exactly the branch names the lines name, in file order |
| Refs.ParseLines | src/web/src/workers/gitWorker.ts:111-120 | the loop over the lines returns exactly `HeadsOfLines` of them |
| Refs.RefLineHead | src/web/src/workers/gitWorker.ts:112-119 | a line `<oid> refs/heads/<b>` names branch b; any other well-formed ref line names none |
| Refs.FieldsHead | src/web/src/workers/gitWorker.ts:112-119 | a trimmed two-field line names the second field's branch, if it is under refs/heads/ |
| Refs.EmptyLineHasNoHead | src/web/src/workers/gitWorker.ts:113 | an empty line names no branch |
| Refs.CommentHasNoHead | src/web/src/workers/gitWorker.ts:113 | a comment line names no branch |
| Refs.PackedRefsRoundTrip | src/web/src/workers/gitWorker.ts:108-123 | reading back a `packed-refs` file git wrote recovers exactly its branch names, in order |
| Refs.HeadBranch | src/web/src/workers/gitWorker.ts:146-149 | a branch read from HEAD is non-empty and holds no line terminator |
| Refs.SingleLineName | src/web/src/workers/gitWorker.ts:148 | `(.+)$` accepts exactly the non-empty names without a line terminator |
| Refs.HeadRoundTrip | src/web/src/workers/gitWorker.ts:146-149 | reading the HEAD git writes for a checked-out branch gives that branch |
| Refs.FallbackBranches | src/electron/workers/nodeGitWorker.ts:76-97 | the fallback list is strictly sorted and holds exactly the loose and packed names |
| Refs.ComputeBranches | src/web/src/workers/gitWorker.ts:129-164 | the list is the listed branches, or the fallback when listing threw or was empty, with the HEAD branch put in front when missing; HEAD's branch is the default |
| Refs.WebDefault | src/web/src/workers/gitWorker.ts:159-161 | HEAD's branch, else main, else master, else a non-empty first branch, else none |
| Refs.NodeDefault | src/electron/workers/nodeGitWorker.ts:98-100 | main, else master, else the first branch, else the working-directory sentinel |
| Refs.NodeBranches | src/electron/workers/nodeGitWorker.ts:98-101 | the sentinel comes first, then the listed branches, or the fallback only when listing threw; the default is in the list |
| Refs.SnapshotDefault | src/web/src/hooks/useGitRepository.ts:145 | HEAD's branch, else main, else master, else the first, and none only for an empty list |
| Refs.BranchesFromSnapshot | src/web/src/hooks/useGitRepository.ts:104-147 | the names are exactly the loose, packed and HEAD branches, without duplicates, sorted, with HEAD's branch first; the default follows `SnapshotDefault` |
| Refs.CollectHeads | src/web/src/hooks/useGitRepository.ts:113-133 | the loops collect exactly the loose names and the packed names |
| Refs.HeadFirst | src/web/src/hooks/useGitRepository.ts:134-144 | the HEAD branch is put first, prepended or moved, the rest staying sorted and every name kept once |
| Refs.MoveToFront | src/web/src/hooks/useGitRepository.ts:139-143 | moving an element of a sorted list to the front keeps the rest sorted and the names distinct |
| Refs.IndexOf | src/web/src/hooks/useGitRepository.ts:139 | the first position of the name, or -1 exactly when absent |
| Git.Classify | src/web/src/workers/gitWorker.ts:386-410 | a reported path is never the root, git's own directory, an ignored path or a directory, and is never reported as unchanged |
| Git.ClassifyByPresence | src/web/src/workers/gitWorker.ts:404-409 | for files with real ids: added exactly when only the compare side has the file, removed exactly when only the base side has it, modified exactly when both have it with different ids, not reported exactly when the sides agree |
| Git.ClassifySwapped | src/web/src/workers/gitWorker.ts:404-409 | swapping the sides of a diff swaps additions and removals and keeps modifications |
| Git.WalkDiff | src/web/src/workers/gitWorker.ts:381-413 | the loop reports exactly the visited paths the callback classifies, each with its classification, in the walk's depth-first order |
| Git.WalkOrder | src/web/src/workers/gitWorker.ts:381-382 | the loop lists the union of both sides' paths once each, in walk order |
| Git.InsertWalk | src/web/src/workers/gitWorker.ts:381-382 | inserting a path keeps the list in walk order and adds exactly that path |
| Git.WalkIrreflexive | src/web/src/workers/gitWorker.ts:381-382 | no path is visited before itself |
| Git.WalkTransitive | src/web/src/workers/gitWorker.ts:381-382 | the walk order is transitive |
| Git.WalkTotal | src/web/src/workers/gitWorker.ts:381-382 | of two different paths, one is visited before the other |
| Git.WalkAsymmetric | src/web/src/workers/gitWorker.ts:381-382 | two paths are never each visited before the other |
| Git.WalkParentFirst | src/web/src/workers/gitWorker.ts:381-382 | a directory is visited before everything beneath it |
| Git.WalkSubtreeContiguous | src/web/src/workers/gitWorker.ts:381-382 | a path visited between two paths under a prefix lies under that prefix: subtrees are visited whole |
| Git.WalkSiblings | src/web/src/workers/gitWorker.ts:381-382 | the entries of one directory are visited in the code-point order of their names |
| Git.WalkNoSlashIsLess | src/web/src/workers/gitWorker.ts:381-382 | on names without '/' the walk order is code-point order |
| Git.WalkIsNotCodePointOrder | src/web/src/workers/gitWorker.ts:381-382 | "a/b" is visited before "a-c", although "a-c" is smaller in code-point order |
| Git.WalkSortedPairwise | src/web/src/workers/gitWorker.ts:381-382 | in a list in walk order every element comes before every later one |
| Git.ChangesSound | src/web/src/workers/gitWorker.ts:413 | every kept result is the classification of a visited path |
| Git.ChangesComplete | src/web/src/workers/gitWorker.ts:413 | every visited path with a defined classification is kept |
| Git.ChangesSorted | src/web/src/workers/gitWorker.ts:381-413 | visiting paths in walk order keeps the results in walk order |
| Git.DiffWalk | src/web/src/workers/gitWorker.ts:377-415 | a diff of two resolved sides replies with exactly the walk's changes, in walk order |
| Git.SameSideUnchanged | src/web/src/workers/gitWorker.ts:406 | a side compared with itself reports nothing |
| Git.UnresolvedSide | src/web/src/workers/gitWorker.ts:353-366 | the error names the base when it is a real ref that did not resolve, otherwise the compare ref, and there is none exactly when both sides resolve |
| WebWorker.StoreName | src/web/src/workers/gitWorker.ts:218-219 | the store is named `gitfs-` followed by the key, or by `repo` when the key is empty |
| WebWorker.StripLeadingSlashes | src/web/src/workers/gitWorker.ts:231 | the result is the path with its whole leading run of '/' removed and no '/' left in front |
| WebWorker.WriteFiles | src/web/src/workers/gitWorker.ts:230-236 | the seeding loop leaves the store `WriteAll` describes: each file written to its target, in order |
| WebWorker.WriteAllUntouched | src/web/src/workers/gitWorker.ts:230-236 | a path no file is written to keeps what the store had |
| WebWorker.WriteAllLast | src/web/src/workers/gitWorker.ts:230-236 | a path holds the data of the last file written to it |
| WebWorker.WriteAllFrom | src/web/src/workers/gitWorker.ts:230-236 | every path of the result was in the store before or is some file's target |
| WebWorker.WorkTargetOutsideGit | src/web/src/workers/gitWorker.ts:257-260 | working-tree seeding never writes into `/.git` |
| WebWorker.WorkSeedKeepsGit | src/web/src/workers/gitWorker.ts:254-265 | the `.git` files seeded first survive the working-tree seeding unchanged |
| WebWorker.SeedStore | src/web/src/workers/gitWorker.ts:227-265 | the store after seeding from the snapshot, or from the directory handle when the snapshot is empty; the two errors when neither is usable |
| WebWorker.ListWorkdir | src/web/src/workers/gitWorker.ts:305-328 | the working-directory listing is sorted and holds exactly the store's files outside `.git`, without the leading '/' |
| WebWorker.SeededWorkFileListed | src/web/src/workers/gitWorker.ts:254-265 | every working file of the load request is listed afterwards |
| WebWorker.StaleFileStaysListed | src/web/src/workers/gitWorker.ts:218-223 | the persisted store is not cleared on load, so a working file from an earlier load stays listed after a later snapshot drops it |
| WebWorker.FallbackFromStore | src/web/src/workers/gitWorker.ts:75-127 | the fallback list is sorted and holds exactly the loose heads and the packed heads of the store |
| WebWorker.ComputeBranches | src/web/src/workers/gitWorker.ts:129-164 | the answer is the library's list or the store's fallback, with HEAD's branch in front when missing |
| WebWorker.HeadBranchOffered | src/web/src/workers/gitWorker.ts:154-161 | a HEAD that names a branch makes it offered and the default |
| WebWorker.ReadOf | src/web/src/workers/gitWorker.ts:419-435 | a present file is binary exactly by the density heuristic and has text exactly when it is not binary |
| WebWorker.ReadFileAnswer | src/web/src/workers/gitWorker.ts:437-480 | a read fails exactly when the ref is real and does not resolve; otherwise it is a well-formed read, missing when the blob or the file is absent |
| WebWorker.ReadFileIn | src/web/src/workers/gitWorker.ts:437-480 | the handler's branches give exactly `ReadFileAnswer` |
| WebWorker.ReadSeededWorkFile | src/web/src/workers/gitWorker.ts:445-450 | a seeded working file reads back as the bytes last written for it |
| WebWorker.DiffIn | src/web/src/workers/gitWorker.ts:336-416 | equal refs give an empty list, an unresolved side gives the error naming it, otherwise the reply holds exactly the walk's changes |
| WebWorker.WebGitWorker.constructor | src/web/src/workers/gitWorker.ts:67-71 | the worker starts with no store open |
| WebWorker.WebGitWorker.LoadRepo | src/web/src/workers/gitWorker.ts:216-295 | the named store is opened and seeded; a seeding error is the reply, otherwise the branches behind the sentinel |
| WebWorker.WebGitWorker.Query | src/web/src/workers/gitWorker.ts:297-546 | each request before a load fails with "not initialized"; afterwards each gets its handler's answer on the open store; an unknown type is an error |
| WebWorker.WebGitWorker.Handle | src/web/src/workers/gitWorker.ts:504-546 | every request gets one final reply with its own id; `loadRepo` leaves the named store open and seeded and answers as `LoadRepo` does; every other request leaves the worker as it was and gets `Query`'s answer |
| NodeWorker.LooksBinary | src/electron/workers/nodeGitWorker.ts:61-68 | the loop answers true exactly when a NUL byte occurs among the first 8000 bytes |
| NodeWorker.OnlyPrefixMatters | src/electron/workers/nodeGitWorker.ts:62 | appending bytes to a buffer of at least 8000 bytes never changes the verdict |
| NodeWorker.DiffersFromDensityHeuristic | src/electron/workers/nodeGitWorker.ts:61-68 | the desktop test and the shared density heuristic disagree in both directions on concrete buffers |
| NodeWorker.LooseHeads | src/electron/workers/nodeGitWorker.ts:77-88 | the stack walk of `refs/heads` collects exactly the file names below it, each prefixed by its directories |
| NodeWorker.FallbackBranches | src/electron/workers/nodeGitWorker.ts:76-97 | the fallback list is strictly sorted and holds exactly the loose heads and the `packed-refs` heads |
| NodeWorker.BranchList | src/electron/workers/nodeGitWorker.ts:98-101 | the reply carries the sentinel, then the library's branches or, only when listing threw, the fallback, with the default branch |
| NodeWorker.Decoded | src/electron/workers/nodeGitWorker.ts:170-172 | a present blob is binary exactly when it has an early NUL, and has text exactly when it is not binary |
| NodeWorker.ReadAnswer | src/electron/workers/nodeGitWorker.ts:142-183 | every read answer is well formed: binary reads carry no text, missing reads are neither binary nor carry text |
| NodeWorker.CacheKeyInjective | src/electron/workers/nodeGitWorker.ts:160 | with object ids free of ':', a cache key determines its commit and its path |
| NodeWorker.BeforeColonOfKey | src/electron/workers/nodeGitWorker.ts:160 | the text before the first ':' of a key is its object id |
| NodeWorker.CoherentHit | src/electron/workers/nodeGitWorker.ts:161-166 | a hit in a cache holding only decoded blobs is what reading the blob would give |
| NodeWorker.CoherentAfterSet | src/electron/workers/nodeGitWorker.ts:168-173 | storing a decoded blob, with or without an eviction, keeps every cached value equal to its blob's decoding |
| NodeWorker.WalkDirectory | src/electron/workers/nodeGitWorker.ts:191-211 | the recursive walk appends exactly the visible files: `.git` skipped at every depth, ignored files left out, in directory order |
| NodeWorker.VisibleFiltered | src/electron/workers/nodeGitWorker.ts:200-206 | the listing is the unfiltered listing with exactly the ignored files removed |
| NodeWorker.DiffIn | src/electron/workers/nodeGitWorker.ts:214-264 | equal refs give an empty list; otherwise the first unresolved side gives "Cannot resolve base/compare" naming it; otherwise the walk's changes |
| NodeWorker.NodeGitWorker.constructor | src/electron/workers/nodeGitWorker.ts:15-17 | no repository, no cache hits, an empty cache of 512 entries |
| NodeWorker.NodeGitWorker.ReadFile | src/electron/workers/nodeGitWorker.ts:142-183 | the answer is `ReadAnswer` and the cache stays coherent; the cache is touched only on the ref path of a resolvable ref, a hit counts once and is answered from the cache, a read blob is stored |
| NodeWorker.NodeGitWorker.ListFiles | src/electron/workers/nodeGitWorker.ts:184-213 | a ref lists the library's files, or none when it throws; the working directory lists the walk |
| NodeWorker.NodeGitWorker.Handle | src/electron/workers/nodeGitWorker.ts:70-104 | `loadRepo` records the path and answers the branch list; any other request before a load fails with "Repo not loaded"; afterwards it gets `QueryAnswer`, with the request's id; the blob cache is left as it was by every request but a read after a load, and a read keeps a coherent cache coherent |
| NodeWorker.NodeGitWorker.Query | src/electron/workers/nodeGitWorker.ts:105-267 | each request type gets its case's answer; an unknown type fails with "Unknown type: " and the type; only `readFile` touches the blob cache and its hit count, and it keeps a cache coherent with the repository's blobs |
| BlobCache.Without | src/electron/workers/nodeGitWorker.ts:16 | removing a key leaves exactly the other keys, keeps them distinct and shortens the order when the key was present |
| BlobCache.Touch | src/electron/workers/nodeGitWorker.ts:161 | a touched key is the most recent, the other keys stay, and no key appears twice |
| BlobCache.DistinctCard | src/electron/workers/nodeGitWorker.ts:16 | an order without repeats is as long as its set of keys |
| BlobCache.SetFits | src/electron/workers/nodeGitWorker.ts:173 | storing an entry keeps order and entries in step, within the capacity, once the oldest is evicted on overflow |
| BlobCache.SetEvicts | src/electron/workers/nodeGitWorker.ts:173 | on overflow the evicted key is the least recently used one and never the key just stored |
| BlobCache.Cache.constructor | src/electron/workers/nodeGitWorker.ts:16 | an empty cache with the given capacity |
| BlobCache.Cache.Get | src/electron/workers/nodeGitWorker.ts:161 | a stored key answers its entry and becomes the most recent; a missing key answers nothing and changes nothing |
| BlobCache.Cache.Set | src/electron/workers/nodeGitWorker.ts:173 | the key holds the value and is the most recent; when the cache overflows, exactly the least recently used key is evicted |
| BlobCache.DropOldest | src/electron/workers/nodeGitWorker.ts:173 | dropping the oldest key keeps the rest distinct and removes only that key |
| BlobCache.EvictsOldest | src/electron/workers/nodeGitWorker.ts:173 | an overflow happens only for a new key, and the key evicted is the oldest one before the store |
| BlobCache.WithoutAbsent | src/electron/workers/nodeGitWorker.ts:16 | removing an absent key changes nothing |
| BrowserFs.EnsurePermission | web/src/utils/fs.ts:38-43 | a conclusive query answer is final; only an inconclusive one leads to a request |
| BrowserFs.EnsurePermissionGranted | web/src/utils/fs.ts:11-43 | access is granted exactly when the query grants it, or the query is inconclusive (missing, throwing or 'prompt') and the request grants it or is missing |
| BrowserFs.Lookup | web/src/utils/fs.ts:55 | a found entry is one of the directory's entries with that name; nothing is found only when no entry has the name |
| BrowserFs.GetDirectoryHandle | web/src/utils/fs.ts:55 | the call succeeds exactly when the name is a directory of the folder |
| BrowserFs.GetFile | web/src/utils/fs.ts:75-77 | the call succeeds exactly when the name is a file of the folder |
| BrowserFs.GetSubDirectoryHandle | web/src/utils/fs.ts:49-58 | the loop reaches exactly the directory the segments lead to, or fails with the first failing step's error |
| BrowserFs.FirstErrorSticks | web/src/utils/fs.ts:54-56 | once a step fails, following more segments keeps that error |
| BrowserFs.ReadFileText | web/src/utils/fs.ts:68-70 | an empty path is refused with "Invalid path: empty" |
| BrowserFs.ReadFileTextFromDir | web/src/utils/fs.ts:64-78 | the method reads exactly `ReadFileText`: the parent directory, then the file, the first error deciding |
| BrowserFs.ReadNestedFile | web/src/utils/fs.ts:71-77 | a file inside a directory of the folder reads as its decoded bytes |
| BrowserFs.ReadTwoSegments | web/src/utils/fs.ts:71-77 | reading a two-segment path opens the directory, then the file, and fails with whichever fails first |
| BrowserFs.VerifyGitRepositoryRoot | web/src/utils/fs.ts:83-95 | the answer is the text of `.git/HEAD`, or the repository message when the failure is a `NotFoundError`, or otherwise the thrown error's message |
| BrowserFs.VerifyAcceptsRepository | web/src/utils/fs.ts:86-88 | a folder with `.git/HEAD` is accepted with the text of HEAD |
| BrowserFs.VerifyRejectsMissingHead | web/src/utils/fs.ts:89-93 | a folder without `.git`, or with a `.git` directory lacking HEAD, gets "Not a valid Git repository (missing .git/HEAD)" |
| BrowserFs.VerifyReportsMessage | web/src/utils/fs.ts:89-93 | a `.git` that is a file, or a `HEAD` that is a directory, is refused with the `TypeMismatchError`'s message, not its name |
| BrowserFs.WalkFiles | web/src/utils/fs.ts:137-150 | the recursive walk appends exactly the files below the directory, depth first in iteration order, paths joined with '/' |
| BrowserFs.SnapshotGitFiles | web/src/utils/fs.ts:125-154 | a folder without a `.git` directory fails with "Missing .git directory in selected folder"; otherwise every file of `.git` with its path relative to it |
| BrowserFs.WalkWorktree | web/src/utils/fs.ts:180-207 | the walk appends exactly the files that are neither ignored nor inside `.git` or an ignored directory |
| BrowserFs.SnapshotWorktreeFiles | web/src/utils/fs.ts:160-211 | the rules are the root `.gitignore` and `.git/info/exclude`, each when readable, and the files are the walk's |
| BrowserFs.SnapshotGitRefs | web/src/utils/fs.ts:220-269 | a missing `.git` is the error; otherwise HEAD, the files under `refs/heads` and `packed-refs`, each only when present, in that order |
| BrowserFs.WorkFilesNotIgnored | web/src/utils/fs.ts:189-195 | no file of the working-tree snapshot is ignored |
| BrowserFs.SkippedDirectoryNotEntered | web/src/utils/fs.ts:185-195 | the contents of `.git` and of an ignored directory never affect the snapshot |
| BrowserFs.WorkFilesRelative | web/src/utils/fs.ts:188 | every working-tree path is non-empty and has no leading '/' |
| BrowserFs.GitFilesRelative | web/src/utils/fs.ts:145-147 | every `.git` snapshot path is non-empty and has no leading '/' |
| BrowserFs.GitFilesOfMember | web/src/utils/fs.ts:139-149 | the files of one entry are among its directory's files |
| BrowserFs.RefsWithinGitSnapshot | web/src/utils/fs.ts:213-269 | whenever the refs snapshot succeeds, so does the full `.git` snapshot, and it holds every file the refs snapshot took |
| BrowserFs.GitFilesUnder | web/src/utils/fs.ts:245-247 | everything a walk under a prefix lists lies under that prefix and '/' |
| BrowserFs.RefsSnapshotPaths | web/src/utils/fs.ts:228-266 | the refs snapshot holds only HEAD, files under `refs/heads/` and `packed-refs` |
| WorkerClient.Find | src/web/src/utils/gitWorkerClient.ts:32-33 | an entry is found exactly when its id is pending, and it is that id's entry |
| WorkerClient.Delete | src/web/src/utils/gitWorkerClient.ts:34 | removing an id keeps every other entry and drops exactly that id |
| WorkerClient.DeleteIncreasing | src/web/src/utils/gitWorkerClient.ts:34 | removing an entry keeps the table in the order the requests were made |
| WorkerClient.Settle | src/web/src/utils/gitWorkerClient.ts:35-39 | an `ok` response resolves its own request with its data, an `error` response rejects it with its message, any other type settles nothing |
| WorkerClient.GitWorkerClient.constructor | src/web/src/utils/gitWorkerClient.ts:17-18 | ids start at 1 with nothing pending |
| WorkerClient.GitWorkerClient.Call | src/web/src/utils/gitWorkerClient.ts:72-104 | the request takes the next id, which no earlier request has; it is pending until answered, or rejected at once with the posting error, which leaves the table as it was |
| WorkerClient.GitWorkerClient.Receive | src/web/src/utils/gitWorkerClient.ts:21-40 | progress is forwarded and settles nothing; a response for a pending id removes exactly that entry and settles it once; a response for an unknown id, or a non-object, changes nothing |
| WorkerClient.GitWorkerClient.Timeout | src/web/src/utils/gitWorkerClient.ts:76-82 | the timer rejects only a request still pending, with the 60-second message naming its type, and removes it |
| WorkerClient.GitWorkerClient.Dispose | src/web/src/utils/gitWorkerClient.ts:42-48 | every pending request is rejected with "Worker disposed", in request order, and the table is emptied |
| WorkerClient.GitWorkerClient.WorkerError | src/web/src/utils/gitWorkerClient.ts:50-70 | every pending request is rejected with the one message describing the event, and the table is emptied |
| WorkerClient.GitWorkerClient.RejectAll | src/web/src/utils/gitWorkerClient.ts:44-47 | the loop rejects each pending request once, in request order, and leaves nothing pending |
| WorkerClient.DeleteFresh | src/web/src/utils/gitWorkerClient.ts:99-100 | dropping the request just added after a failed post restores the table |
| WorkerClient.DeleteAbsent | src/web/src/utils/gitWorkerClient.ts:34 | removing an id that is not pending changes nothing |
| WorkerClient.AnsweredOnce | src/web/src/utils/gitWorkerClient.ts:32-34 | after an id is removed it is not found again, so a second response for it is ignored |
| WorkerClient.RegisterFresh | src/web/src/utils/gitWorkerClient.ts:73-93 | a new id is neither pending nor settled, and registering it keeps the table ordered, below the counter and disjoint from the settled ids |
| WorkerClient.AppendKeepsIncreasing | src/web/src/utils/gitWorkerClient.ts:73 | ids handed out in turn keep the table in increasing order |
| RepoState.FirstOther | src/web/src/hooks/useGitRepository.ts:187 | the result differs from the excluded ref and is listed, or is '' |
| RepoState.FirstOtherIsFirst | src/web/src/hooks/useGitRepository.ts:187 | when some listed ref differs from the excluded one, the result is the first such ref |
| RepoState.NextBase | src/web/src/hooks/useGitRepository.ts:177-181 | the saved base when non-empty and listed, else the current base when non-empty and listed; the result is listed, the default, or '' |
| RepoState.NextCompare | src/web/src/hooks/useGitRepository.ts:183-190 | the compare ref is never the base unless it is ''; a listed saved compare that differs from the base is kept |
| RepoState.CompareFound | src/web/src/hooks/useGitRepository.ts:183-190 | when some listed ref differs from the base, the compare ref is a listed ref other than the base |
| RepoState.FirstLoadComparesWorktree | src/web/src/hooks/useGitRepository.ts:163-190 | on a first load of a repository with one branch, that branch is the base and the working directory the compare ref |
| RepoState.SavedSelectionRestored | src/web/src/hooks/useGitRepository.ts:174-190 | a saved selection of two different listed refs is restored as it was |
| RepoState.Repository.constructor | src/web/src/hooks/useGitRepository.ts:17-23 | no client, no folder, idle, no branches and no selection |
| RepoState.Repository.ApplyLoad | src/web/src/hooks/useGitRepository.ts:153-192 | the worker's branches are used unless the load threw or listed none; then the sentinel comes first, followed by the snapshot's branch names once each, HEAD's branch first and the rest sorted; the base and compare refs follow `NextBase` and `NextCompare` and differ unless the compare ref is '' |
| RepoState.Repository.Reset | src/web/src/hooks/useGitRepository.ts:272-284 | the client is disposed, leaving nothing of it pending, and every piece of repository state is cleared |
| FileTree.DirOfShorter | src/web/src/hooks/useFileTree.ts:33 | the directory part of a non-empty path is shorter than the path, so `ensureDir`'s recursion ends |
| FileTree.InitOfSplit | src/web/src/hooks/useFileTree.ts:50-52 | the segments of a path are its directory part's segments followed by its name |
| FileTree.DirAndNameDetermine | src/web/src/hooks/useFileTree.ts:50-54 | a path without a leading '/' is determined by its directory part and its name |
| FileTree.LeadingSlashShadows | src/web/src/hooks/useFileTree.ts:50-54 | "/x" and "x" have the same directory part and name, so only the first of them gets a file node |
| FileTree.ChildLeTotal | src/web/src/hooks/useFileTree.ts:68-71 | the sort comparator is total: directories first, then by name |
| FileTree.DirMap.constructor | src/web/src/hooks/useFileTree.ts:27-29 | the map holds only the root, with no children |
| FileTree.DirMap.EnsureDir | src/web/src/hooks/useFileTree.ts:31-40 | afterwards the directory is in the map; every directory it adds is the directory itself or one of its '/'-prefixes; no existing directory or file entry is lost; every directory stays attached to its parent and no child list gains a duplicate |
| FileTree.DirMap.AddFile | src/web/src/hooks/useFileTree.ts:49-64 | afterwards the path's directory holds a file of that name, labelled with its status (unchanged when the diff does not name it) and its binary guess; the only file path that can appear is this one, and every directory added is a proper '/'-prefix of it |
| FileTree.DirMap.AddAll | src/web/src/hooks/useFileTree.ts:49-64 | after the loop every path has a file under its directory, every file entry comes from one of the paths, and every directory but the root is a proper '/'-prefix of one of the paths |
| FileTree.DirMap.SortAll | src/web/src/hooks/useFileTree.ts:66-74 | every child list is reordered, not changed, into comparator order |
| FileTree.ReorderKeeps | src/web/src/hooks/useFileTree.ts:66-74 | sorting keeps every property of the map the tree is read from |
| FileTree.NodesOfSorted | src/web/src/hooks/useFileTree.ts:66-74 | sorted child lists give a tree sorted at every directory |
| FileTree.TreeSorted | src/web/src/hooks/useFileTree.ts:66-74 | the root's tree is sorted at every directory |
| FileTree.BuildTreeFromPaths | src/web/src/hooks/useFileTree.ts:26-76 | the tree is read off a well-formed map, sorted at every level, in which every path has a file and every file is one of the paths, each labelled with its status and binary guess, and whose directories, root aside, are proper '/'-prefixes of the paths |
| FileTree.ExactlyOneFileNode | src/web/src/hooks/useFileTree.ts:54 | a path without a leading '/' has exactly one file node, in its own directory's list, so a path repeated or on both sides is shown once |
| FileTree.PrefixIsDir | src/web/src/hooks/useFileTree.ts:31-40 | every proper '/'-prefix of an added path is a directory of the map |
| FileTree.AncestorOfDirOf | src/web/src/hooks/useFileTree.ts:31-40 | a directory `ensureDir` creates for a file's directory part, other than the root, is a proper '/'-prefix of the file's path |
| FileTree.FromPathsStep | src/web/src/hooks/useFileTree.ts:49-64 | one pass of the loop keeps every directory a proper '/'-prefix of some path added so far |
| FileTree.DirsArePrefixes | src/web/src/hooks/useFileTree.ts:31-64 | in the built map, a non-empty path is a directory exactly when it is a proper '/'-prefix of one of the paths |
| FileTree.ExpandAllArePrefixes | src/web/src/hooks/useFileTree.ts:168-179 | `expandAll` on a tree built from the paths expands exactly their proper '/'-prefixes |
| FileTree.CollectDirs | src/web/src/hooks/useFileTree.ts:171-177 | the walk collects exactly the paths of the directories below the node, the root's empty path left out |
| FileTree.CollectFiles | src/web/src/hooks/useFileTree.ts:188-195 | the walk collects exactly the files below the node, or only those not unchanged when showing changed files only |
| FileTree.TreeDirs | src/web/src/hooks/useFileTree.ts:168-179 | the directories of the built tree are exactly the directories of the map, root aside |
| FileTree.TreeFiles | src/web/src/hooks/useFileTree.ts:185-197 | the files the walk selects are exactly the selectable file entries of the map |
| FileTree.ExpansionIsPrefixes | src/web/src/hooks/useFileTree.ts:124-133 | the expanded set after a diff is exactly the proper '/'-prefixes of the changed paths |
| FileTree.ExpandsArePrefixes | src/web/src/hooks/useFileTree.ts:126-131 | the values `acc` takes are the joins of the first segments |
| FileTree.ExpandedAreDirs | src/web/src/hooks/useFileTree.ts:124-133 | every expanded prefix of a changed file in the tree is a directory of the tree |
| FileTree.Expansion | src/web/src/hooks/useFileTree.ts:124-133 | the nested loops build exactly the expansion set |
| FileTree.DiffMapKeys | src/web/src/hooks/useFileTree.ts:107-108 | the status map has exactly the paths of the diff entries as keys |
| FileTree.DiffMapLast | src/web/src/hooks/useFileTree.ts:108 | a path takes the status of its last entry in the diff |
| FileTree.StatusDefault | src/web/src/hooks/useFileTree.ts:59 | a file the diff does not name is shown as unchanged |
| FileTree.DiffMap | src/web/src/hooks/useFileTree.ts:107-108 | the loop builds exactly the status map |
| FileTree.SelectionMembers | src/web/src/hooks/useFileTree.ts:117-121 | a path is selected after a diff exactly when some entry for it is modified or added |
| FileTree.Selection | src/web/src/hooks/useFileTree.ts:117-121 | the loop builds exactly the selection |
| FileTree.Union | src/web/src/hooks/useFileTree.ts:110 | the union holds each path of either side once, and no other |
| FileTree.Toggle | src/web/src/hooks/useFileTree.ts:150-166 | the toggled path flips membership; every other path keeps it |
| FileTree.ToggleTwice | src/web/src/hooks/useFileTree.ts:150-166 | toggling the same path twice restores the set |
| FileTree.Rebuild | src/web/src/hooks/useFileTree.ts:107-133 | the tree is built from the union of both sides over the diff's status map, with a file for each path and a directory for each proper '/'-prefix of one, and nothing else; the selection and the expansion are those of the diff |
| FileTree.FileTreeState.constructor | src/web/src/hooks/useFileTree.ts:19-24 | no diff, no tree, changed files only, nothing expanded or selected, not computing |
| FileTree.FileTreeState.ComputeDiffAndTree | src/web/src/hooks/useFileTree.ts:78-148 | no client, a missing ref or equal refs clear the diff, tree, selection and expansion; otherwise a failed diff or listing leaves the tree, selection and expansion as they were and its message is rethrown; on success the tree, selection and expansion are those of the diff over the union of both listings, the tree holding exactly the listed files and their directory prefixes; computing ends false either way |
| FileTree.FileTreeState.Clear | src/web/src/hooks/useFileTree.ts:85-91 | the early exit empties the diff, the tree, the selection and the expansion |
| FileTree.FileTreeState.ApplyDiff | src/web/src/hooks/useFileTree.ts:99-145 | the diff is stored and computing ends; a failed listing leaves the tree, selection and expansion as they were, otherwise the state shows the diff over the union of both listings, whose tree holds exactly the listed files and their directory prefixes |
| FileTree.FileTreeState.ApplyLists | src/web/src/hooks/useFileTree.ts:105-133 | a failed listing changes nothing it would have replaced; otherwise the state shows the diff over the union, whose tree holds exactly the listed files and their directory prefixes |
| FileTree.FileTreeState.ToggleExpand | src/web/src/hooks/useFileTree.ts:150-157 | only the expansion changes, by toggling the path |
| FileTree.FileTreeState.ToggleSelect | src/web/src/hooks/useFileTree.ts:159-166 | only the selection changes, by toggling the path |
| FileTree.FileTreeState.ExpandAll | src/web/src/hooks/useFileTree.ts:168-179 | without a tree nothing changes; otherwise exactly the tree's directories are expanded |
| FileTree.FileTreeState.CollapseAll | src/web/src/hooks/useFileTree.ts:181-183 | nothing is expanded |
| FileTree.FileTreeState.SelectAll | src/web/src/hooks/useFileTree.ts:185-197 | without a tree nothing changes; otherwise exactly the tree's files are selected, only the changed ones when showing changed files only |
| FileTree.FileTreeState.DeselectAll | src/web/src/hooks/useFileTree.ts:199-201 | nothing is selected |
| TreeView.Query | src/web/src/components/FileTreeView.tsx:49 | the query is the trimmed, lower-cased filter text, never longer than it |
| TreeView.NoQueryShowIsVisible | src/web/src/components/FileTreeView.tsx:27-31 | without a query, `shouldShow` answers exactly what `nodeVisible` answers |
| TreeView.ShownUpward | src/web/src/components/FileTreeView.tsx:61-66 | a node to show makes every directory above it one to show |
| TreeView.GatherFilesExact | src/web/src/components/FileTreeView.tsx:80-86 | `gatherFiles` finds exactly the files below the node, whatever is shown |
| TreeView.SelectedCount | src/web/src/components/FileTreeView.tsx:88 | the count never exceeds the number of files |
| TreeView.CountAll | src/web/src/components/FileTreeView.tsx:88-89 | every file is counted exactly when every file is selected |
| TreeView.CountNone | src/web/src/components/FileTreeView.tsx:88-90 | no file is counted exactly when no file is selected |
| TreeView.FolderCheckTriState | src/web/src/components/FileTreeView.tsx:87-90 | a folder box is checked exactly when it has files and all are selected, indeterminate exactly when some but not all are, and clear exactly when none is |
| TreeView.KeepIf | src/web/src/components/FileTreeView.tsx:94-96 | the kept paths are exactly those whose selection is as asked, without repeats when the input has none |
| TreeView.ToggleFolderSelection | src/web/src/components/FileTreeView.tsx:92-98 | a folder without files changes nothing; a fully selected folder's files are all deselected, otherwise all its files become selected; no other state changes |
| TreeView.RenderNodesMember | src/web/src/components/FileTreeView.tsx:70 | every rendered row comes from one of the nodes |
| TreeView.RenderNodesHas | src/web/src/components/FileTreeView.tsx:70 | every row of a node is among the rendered rows |
| TreeView.FileRowSource | src/web/src/components/FileTreeView.tsx:70-164 | every file row comes from a file below the node that should show, with its path, name, status, selection and binary guess |
| TreeView.FileRowsMatch | src/web/src/components/FileTreeView.tsx:52-66 | a file row matches the query, and is a changed file when showing changed files only |
| TreeView.FileRevealed | src/web/src/components/FileTreeView.tsx:70-164 | a file that should show gets its row when a query is active, which opens every folder, or when every folder on its way is expanded |
| SelectedTree.IndexOfName | src/web/src/App.tsx:394-396 | the index of the first child with the name, and -1 exactly when no child has it (`has`/`get`) |
| SelectedTree.Insert | src/web/src/App.tsx:390-399 | merging a path's parts keeps the node's name and file mark and leaves it with at least one child |
| SelectedTree.InsertHas | src/web/src/App.tsx:390-399 | after inserting a path, its parts lead name by name to a node marked as a file |
| SelectedTree.InsertKeeps | src/web/src/App.tsx:390-399 | inserting a path keeps every file path already in the tree |
| SelectedTree.SameChildrenSamePaths | src/web/src/App.tsx:397 | marking a node as a file does not change the paths below it |
| SelectedTree.BuildHasAll | src/web/src/App.tsx:389-400 | every selected path ends at a file node of the built tree |
| SelectedTree.BuildNonEmpty | src/web/src/App.tsx:389-400 | a non-empty selection gives the root at least one child |
| SelectedTree.EntryLeTotal | src/web/src/App.tsx:405-410 | the sibling order (folders first, then by name) relates every pair |
| SelectedTree.LessEqTotal | src/web/src/App.tsx:389 | the path order used by `paths.sort()` relates every pair |
| SelectedTree.Entries | src/web/src/App.tsx:404-410 | the sorted siblings are a permutation of the node's children |
| SelectedTree.SiblingsOrdered | src/web/src/App.tsx:405-410 | siblings are drawn with every folder before every non-folder, each group by name |
| SelectedTree.SortedChain | src/web/src/App.tsx:405-410 | the sibling order holds between any two drawn siblings, not only neighbours |
| SelectedTree.EntryLeTransitive | src/web/src/App.tsx:405-410 | the sibling order is transitive |
| SelectedTree.WrittenCompareInconsistent | src/web/src/App.tsx:405-410 | with "a", "a/b" and "b" selected, the callback as written orders each of the root's two children after the other |
| SelectedTree.Compare | src/web/src/App.tsx:405-410 | the intended callback is non-positive exactly when the sibling order allows the pair, and zero exactly for equal folder flag and name |
| SelectedTree.CompareAntisymmetric | src/web/src/App.tsx:405-410 | swapping the intended callback's arguments flips its sign |
| SelectedTree.WalkCount | src/web/src/App.tsx:401-419 | the drawing has exactly one line per node below the root |
| SelectedTree.WalkEntriesCount | src/web/src/App.tsx:411-417 | the lines of a run of siblings number the nodes in and below them |
| SelectedTree.CountOfAppend | src/web/src/App.tsx:411-417 | the node count of two runs of siblings is the sum of their counts |
| SelectedTree.CountOfPermutation | src/web/src/App.tsx:404-410 | reordering siblings does not change the node count |
| SelectedTree.SameMembers | src/web/src/App.tsx:404 | siblings that are a permutation of the children are all children |
| SelectedTree.RemoveMatched | src/web/src/App.tsx:404-410 | removing one matched element from two permutations leaves permutations |
| SelectedTree.WalkIndented | src/web/src/App.tsx:401-419 | every line drawn below a node starts with that node's indent |
| SelectedTree.WalkEntriesIndented | src/web/src/App.tsx:411-417 | every line drawn for a run of siblings starts with their common indent |
| SelectedTree.GenerateSelectedTreeString | src/web/src/App.tsx:385-422 | the caller's paths end up sorted as a permutation of themselves, and the result is the tree text of the sorted paths |
| SelectedTree.TreeTextEmpty | src/web/src/App.tsx:420-421 | the text is empty exactly when nothing is selected, and otherwise ends with a newline |
| Layout.MaxLeft | src/web/src/App.tsx:147 | the maximum is 85% of the page width less 100, rounded down, but never below 480 (so never below the 240 minimum) |
| Layout.ClampInRange | src/web/src/App.tsx:163 | with a maximum at or above the minimum, the clamped width lies within the bounds, is the request exactly when that already was, and is otherwise the nearer bound |
| Layout.ClampIdempotentMonotone | src/web/src/App.tsx:163 | clamping twice is clamping once, and clamping keeps the order of widths |
| Layout.Mid | src/web/src/App.tsx:194 | the middle of the page is half its width, halves rounded up |
| Layout.Step | src/web/src/App.tsx:205 | an arrow key moves by a positive step |
| Layout.KeyTarget | src/web/src/App.tsx:204-225 | exactly the two arrow keys, Home and End are handled: arrows move by the step, Home goes to the minimum and End to the maximum |
| Layout.ArrowKeysUndo | src/web/src/App.tsx:208-215 | away from the bounds, ArrowLeft undoes ArrowRight |
| Layout.Resizer.Current | src/web/src/App.tsx:157 | the width read back is the page value, or the minimum while it is unset |
| Layout.Resizer.constructor | src/web/src/App.tsx:136-148 | a positive saved width is applied as it is, anything else leaves the width unset; the maximum is computed from the page width |
| Layout.Resizer.ApplyLeft | src/web/src/App.tsx:162-171 | the width becomes the clamped request and is saved, so it lies within the bounds |
| Layout.Resizer.PointerDown | src/web/src/App.tsx:175-180 | a drag starts and nothing else changes |
| Layout.Resizer.PointerMove | src/web/src/App.tsx:181-187 | during a drag the width becomes the pointer position less 12, clamped; otherwise nothing changes |
| Layout.Resizer.PointerUp | src/web/src/App.tsx:188-196 | the drag ends, and the width snaps to the clamped middle exactly when it was within 24 pixels of it |
| Layout.Resizer.DoubleClick | src/web/src/App.tsx:198-201 | a double click sets the clamped middle |
| Layout.Resizer.KeyDown | src/web/src/App.tsx:204-225 | a handled key sets the clamped target and reports it was handled; any other key changes nothing |
| Layout.Resizer.Resize | src/web/src/App.tsx:228-236 | the maximum follows the page; when it changes the current width is re-clamped, otherwise nothing changes |
| Layout.SettledStaysSettled | src/web/src/App.tsx:162-236 | once the width is within the bounds and saved, every handler keeps it so |
| CopyContext.ContextFor | src/web/src/App.tsx:674-677 | a slider value below 999 is used as it is; from 999 up the whole file is context (the largest safe integer), and the largest safe integer is chosen exactly then |
| CopyContext.PreviewReads | src/web/src/App.tsx:577-582 | the preview reads the base side exactly when the file was not added and a base ref is set, and the compare side exactly when it was not removed and a compare ref is set |
| CopyContext.RefCaption | src/web/src/App.tsx:606-607 | an unset ref is captioned "(unset)", a set one by its name |
| CopyContext.CommitCaption | src/web/src/App.tsx:620-626 | the working-directory sentinel shows as WORKDIR; any other ref shows the first seven characters of its object id |
| CopyContext.StatusCaptionInjective | src/web/src/App.tsx:663 | different statuses give different header captions |
| CopyContext.AddedBody | src/web/src/App.tsx:681-682 | an added file's text loses at most one final newline, which the fence puts back: the body plus a newline is the text with a final newline ensured |
| CopyContext.RawText | src/web/src/App.tsx:681 | a side's text, or the empty text when the side or its text is missing |
| CopyContext.FileSection | src/web/src/App.tsx:662-704 | a file gives no section exactly when it is binary and binary files are left out; a binary file gives its header alone; an added file its compare text and an unchanged one its base text, fenced with the inferred language |
| CopyContext.ChangedFileIsDiff | src/web/src/App.tsx:685-698 | a modified or removed text file is copied as the unified diff of its base text against its compare text, or against the empty text when removed |
| CopyContext.SectionReadRule | src/web/src/App.tsx:652-658 | an added file's section does not depend on the base side, a removed file's does not depend on the compare side |
| CopyContext.SectionsAligned | src/web/src/App.tsx:661-705 | the sections and the copied paths line up one to one, each section opening with its path's header |
| CopyContext.CopiedExactly | src/web/src/App.tsx:650-670 | a path is copied exactly when it is selected and binary files are included or it is not binary |
| CopyContext.CopiedAll | src/web/src/App.tsx:650-669 | with binary files included every selected path is copied, in order |
| CopyContext.WithoutLikelyBinary | src/web/src/App.tsx:650 | the prefilter keeps exactly the paths whose extension does not look binary |
| CopyContext.PrefilterHarmless | src/web/src/App.tsx:650-670 | dropping likely-binary paths before reading does not change the sections when binary files are left out |
| CopyContext.NonEmpty | src/web/src/App.tsx:707-712 | `filter(Boolean)` leaves only non-empty parts and keeps a non-empty first part first |
| CopyContext.JoinStart | src/web/src/App.tsx:712 | a joined text starts with its first part |
| CopyContext.BranchLinesOpening | src/web/src/App.tsx:629-634 | the branch section opens with its title and the base ref |
| CopyContext.AssembleOpening | src/web/src/App.tsx:707-712 | the document opens with the instructions section when there is one, otherwise with the branch section |
| CopyContext.DocumentOpening | src/web/src/App.tsx:615-712 | the copied text opens with the user's instructions when they are not blank, otherwise with the branch section naming the base ref |
| CopyContext.CollectSections | src/web/src/App.tsx:661-705 | the loop over the files pushes exactly the sections of the paths processed, in order |
| CopyContext.CopyAllSelected | src/web/src/App.tsx:615-712 | without a client or either ref nothing is copied; otherwise the document of the settings is copied; the selection stays a permutation and is left sorted when the tree was drawn |
| SelectedFiles.BaseName | src/web/src/components/SelectedFilesPanel.tsx:40 | the name is the part of the path after its last '/', the whole path when it has none, and never holds a '/' |
| SelectedFiles.EntryFor | src/web/src/components/SelectedFilesPanel.tsx:37-44 | an entry carries its path and base name, the path's status or unchanged when it has none, and its token count or zero |
| SelectedFiles.Entries | src/web/src/components/SelectedFilesPanel.tsx:36-45 | one entry per selected path, in order |
| SelectedFiles.FilterEntries | src/web/src/components/SelectedFilesPanel.tsx:46-49 | an empty query keeps every entry; otherwise exactly the entries whose lower-cased path or name contains the query are kept |
| SelectedFiles.LeTotal | src/web/src/components/SelectedFilesPanel.tsx:50-60 | each sort key's order relates every pair of entries |
| SelectedFiles.LeTransitive | src/web/src/components/SelectedFilesPanel.tsx:50-60 | each sort key's order is transitive |
| Sorting.InsertByTies | src/web/src/components/SelectedFilesPanel.tsx:50-60 | inserting an element puts it before every element it ties with, and keeps their order |
| Sorting.SortByStable | src/web/src/components/SelectedFilesPanel.tsx:50-60 | the sort is stable: the entries a transitive comparator ties keep their relative order |
| SelectedFiles.Items | src/web/src/components/SelectedFilesPanel.tsx:35-61 | the panel's items are the filtered entries, sorted by the chosen key, a permutation of them, and entries with equal keys keep their order |
| SelectedFiles.TokensDescOrdered | src/web/src/components/SelectedFilesPanel.tsx:57-59 | in the default order every item has at least as many tokens as any later one |
| SelectedFiles.TokensAscOrdered | src/web/src/components/SelectedFilesPanel.tsx:51-52 | in the ascending order every item has at most as many tokens as any later one |
| SelectedFiles.NameMatchImpliesPathMatch | src/web/src/components/SelectedFilesPanel.tsx:47-48 | an entry matches the query exactly when its lower-cased path contains it, so the name test never keeps more |
| SelectedFiles.TailContains | src/web/src/components/SelectedFilesPanel.tsx:48 | what a path's tail contains, the path contains |
| SelectedFiles.PathTreeTooltip | src/web/src/components/SelectedFilesPanel.tsx:79-89 | one tooltip line per path part: four spaces per level, the branch, then the part; the lines joined by newlines |
| SelectedFiles.TooltipRoundTrip | src/web/src/components/SelectedFilesPanel.tsx:79-89 | for a path without newlines, splitting the tooltip on newlines gives back its lines, each ending with its part |
| SelectedFiles.PartNoNewline | src/web/src/components/SelectedFilesPanel.tsx:81 | a part of a path without newlines has none |
| SelectedFiles.PartInJoin | src/web/src/components/SelectedFilesPanel.tsx:81 | every character of a part is in the joined text |
| Preview.ShownText | src/web/src/components/PreviewModal.tsx:59-60 | a side's text is shown exactly when the side is present, not binary and has a text |
| Preview.ViewerValues | src/web/src/components/PreviewModal.tsx:62-78 | an added file has no old text, a removed one no new text, an unchanged one the base text on both sides, and a missing text reads as empty |
| Preview.SideInfo | src/web/src/components/PreviewModal.tsx:80-81 | a side is captioned "not found" before "binary", otherwise by the length of the text shown |
| Preview.ViewerMatchesDiffInput | src/web/src/components/PreviewModal.tsx:58-83 | when neither side is binary or missing, the viewer shows the same texts the copied diff is made from |
| Preview.StatusBadge | web/src/components/PreviewModal.tsx:26-29 | each status has one of the four badge labels |
| Preview.BadgeClass | src/web/src/components/PreviewModal.tsx:106 | only an unchanged file's badge has no style class |
| Preview.BadgesDistinguishStatus | web/src/components/PreviewModal.tsx:26-29 | different statuses give different badges and different captions |
| Preview.InitialSplitView | src/web/src/components/PreviewModal.tsx:41-50 | the split view is off exactly when "false" was saved; anything else means side by side |
| TextDiff.NormalizeEol | src/web/src/utils/diff.ts:7-10 | the normalized text is no longer than the input, non-empty when it was, and starts with a newline exactly when the input starts with one or with CR LF |
| TextDiff.NormalizeEolIdentity | src/web/src/utils/diff.ts:9 | a text without CR LF is left untouched, lone CR and LF included |
| TextDiff.NormalizeEolRemovesCrLf | src/web/src/utils/diff.ts:9 | unless the input holds CR CR LF, no CR LF is left in the output |
| TextDiff.NormalizeEolKeepsCrBeforeCrLf | src/web/src/utils/diff.ts:9 | CR CR LF normalizes to CR LF, so one pass does not remove every CR LF |
| TextDiff.NormalizeEolAppend | src/web/src/utils/diff.ts:9 | a text cut anywhere but inside a CR LF pair normalizes as its two parts do |
| TextDiff.NormalizeEolKeepsLoneChar | src/web/src/utils/diff.ts:9 | a character outside every CR LF pair, lone CR and LF included, is kept in its place in mixed text |
| TextDiff.NormalizeEolReplacesPair | src/web/src/utils/diff.ts:9 | every CR LF pair of the input becomes one LF, whatever surrounds it |
| TextDiff.EnsureFinalNewline | src/web/src/utils/diff.ts:12-14 | the result ends with a newline, equals the text when it already did, and otherwise adds exactly one |
| TextDiff.EnsureFinalNewlineIdempotent | src/web/src/utils/diff.ts:12-14 | ensuring a final newline twice is ensuring it once |
| TextDiff.CreateUnifiedDiffForPath | src/web/src/utils/diff.ts:20-39 | the diff is the generator's patch of the normalized texts under a/ and b/ names, with a final newline ensured |
| TextDiff.DefaultContextIsThree | src/web/src/utils/diff.ts:28 | without an explicit context the diff has three lines of context |
| TextDiff.SideText | src/web/src/utils/diff.ts:59-60 | a side contributes its text, or the empty text when it is binary, missing, reported not found or has no text |
| TextDiff.BuildUnifiedDiffForStatus | src/web/src/utils/diff.ts:51-78 | there is no diff exactly when a side the status needs is binary, or an unchanged file has no text; otherwise a changed file gets the diff of the right texts and an unchanged one its full base text |
| TextDiff.AddIgnoresBase | src/web/src/utils/diff.ts:67-70 | an added file's diff does not depend on the base side |
| TextDiff.NotFoundIsEmpty | src/web/src/utils/diff.ts:59-66 | a side reported not found diffs like an empty file |
| Paths.DropRun | src/web/src/platform/paths.ts:6 | what is left after a leading run of one character is a suffix that does not start with it, and everything dropped was that character |
| Paths.ReplaceBackslashRuns | src/web/src/platform/paths.ts:6 | no backslash is left, and a text without one is unchanged |
| Paths.CollapseFirstSlashRun | src/web/src/platform/paths.ts:6 | collapsing the first run of '/' brings in no backslash |
| Paths.ToPosix | src/web/src/platform/paths.ts:4-8 | the empty path stays empty and no backslash is left |
| Paths.ContentDropRun | src/web/src/platform/paths.ts:6 | dropping a run of separators keeps every other character |
| Paths.ContentReplace | src/web/src/platform/paths.ts:6 | replacing backslash runs keeps every other character, in order |
| Paths.ContentCollapse | src/web/src/platform/paths.ts:6 | collapsing the first slash run keeps every other character, in order |
| Paths.ToPosixKeepsContent | src/web/src/platform/paths.ts:4-8 | only separators change: every other character survives, in order |
| Paths.CollapseIdempotent | src/web/src/platform/paths.ts:6 | collapsing the first slash run twice is collapsing it once |
| Paths.ToPosixIdempotent | src/web/src/platform/paths.ts:4-8 | converting twice is converting once |
| Paths.Run | src/web/src/platform/paths.ts:6 | a run of n copies of one character |
| Paths.DropWholeRun | src/web/src/platform/paths.ts:6 | a whole run is dropped up to the first other character |
| Paths.ReplaceRun | src/web/src/platform/paths.ts:6 | a run of backslashes, however long, becomes a single '/' |
| Paths.ReplacePlain | src/web/src/platform/paths.ts:6 | text without backslashes passes through the replacement unchanged |
| Paths.CollapsePlain | src/web/src/platform/paths.ts:6 | text without '/' passes through the collapse unchanged |
| Paths.ToPosixFirstRunOnly | src/web/src/platform/paths.ts:6 | in a path whose first '/' run is "//", that run becomes one '/' and everything after it, later "//" runs included, is kept |
| Paths.NoBackslashJoined | src/web/src/platform/paths.ts:6 | joining two texts without backslashes around "//" brings in none |
| Paths.CollapseAfterPlain | src/web/src/platform/paths.ts:6 | the first "//" after plain text collapses to '/' and the rest is kept |
| Paths.CollapseDoubleSlash | src/web/src/platform/paths.ts:6 | a leading "//" collapses to '/' and the rest is kept |
| Logger.MessageOf | src/web/src/utils/logger.ts:6 | the message is an Error's own message, or the rendering of any other value |
| Logger.Appended | src/web/src/utils/logger.ts:11-14 | the new entry comes last, the log is a suffix of the old log plus the entry, nothing is dropped below the bound, and at the bound the length stays the same |
| Logger.AppendedToFull | src/web/src/utils/logger.ts:12-14 | appending to a full log drops exactly its oldest entry |
| Logger.Window | src/web/src/utils/logger.ts:12-14 | the window is the last hundred entries, or all of them |
| Logger.WindowOfSuffix | src/web/src/utils/logger.ts:12-14 | dropping entries older than the window does not change it |
| Logger.AppendAllIsWindow | src/web/src/utils/logger.ts:5-15 | however many errors are logged, a log within the bound holds exactly the most recent hundred entries, oldest first |
| Logger.SuffixThenRest | src/web/src/utils/logger.ts:11-14 | a suffix of the log plus one entry, followed by the remaining entries, is a suffix of the log plus all entries |
| Logger.ErrorLog.constructor | src/web/src/utils/logger.ts:3 | the log starts empty |
| Logger.ErrorLog.LogError | src/web/src/utils/logger.ts:5-15 | the log becomes the old log with the new entry appended and the oldest dropped past the bound, so it stays within the bound |
| Common.FindFile | src/web/src/hooks/useGitRepository.ts:107 | the data of the first captured file with the path, and none exactly when no file has it |
| Common.Decode | src/web/src/hooks/useGitRepository.ts:108 | one character per byte: ASCII bytes decode to themselves, any other byte to U+FFFD |

## Left out

- isomorphic-git and LightningFS: `resolveRef`, `readBlob`, `listBranches`, `listFiles`, `walk`, `isIgnored` and the store writes are foreign libraries; a repository is a value (`Git.GitView`) whose answers the model reads, and `isIgnored` is an opaque predicate.
- The `ignore` matcher of the browser snapshot, `lru-cache`, `TextDecoder`/`Buffer.toString` and `createTwoFilesPatch` are foreign calls: the matcher and the patch generator are parameters, the cache is a bounded map with an explicit recency order, and decoding is the `Common.Decode` stand-in (ASCII bytes as themselves, every other byte as U+FFFD).
- JavaScript's `toLowerCase` is modelled on ASCII letters only (`trim` and `\s` use JavaScript's full white-space and line-terminator set); `localeCompare` and the default `sort()` are both code-point order; `.length` counts characters, not UTF-16 units.
- Async/await, `Promise.all`, worker threads and `postMessage` transport: each handler is a sequential method, a timeout is an explicit event, and worker termination is not modelled.
- Real timers, the debounced slider, copy-button flash messages, the clipboard write, the notifications and every `console` call.
- `localStorage` and IndexedDB: saved values (the column width, the split-view choice, the repository selection) are read as parameters. Only the column width's write is modelled, as the field `Layout.Resizer.saved`. Writing the saved repository selection (src/web/src/hooks/useGitRepository.ts:26-38, 96-103, 194) and the split-view choice (src/web/src/components/PreviewModal.tsx:55) is not modelled: `RepoState.Saved` is only an input of `RepoState.Repository.ApplyLoad`, and `Preview.InitialSplitView` only reads the stored choice.
- The DOM, ARIA attributes, pointer capture, the Escape key and backdrop handlers, the theme observer and syntax highlighting (`renderContent`/Prism) are presentation.
- Token counting and the percentages of the token usage bar (a third-party tokenizer and floating point): counts are an input of the selected-files panel.
- Progress messages of the workers (including the desktop worker's report every tenth cache hit) and of repository loading.
- The browser worker's `error` and `unhandledrejection` listeners (src/web/src/workers/gitWorker.ts:482-501) are not modelled. Each posts an error reply with id -1 (`[worker error] …` or `[worker unhandledrejection] …`). No pending request can have that id, because request ids start at 1 (src/web/src/utils/gitWorkerClient.ts:17). The page client therefore drops the reply (src/web/src/utils/gitWorkerClient.ts:32-33): that is the unknown-id case of `WorkerClient.GitWorkerClient.Receive`, which changes nothing.
- The null `ErrorEvent` of a worker error is not distinguished: every worker error carries a message.
- The workspace list, the prompt templates, the model picker and the Electron shell, preload and IPC glue are outside this model.
- `join` of src/web/src/platform/paths.ts is `path.posix.join` of path-browserify, a foreign call, and is not modelled.
- Layout.MaxLeft: `Math.floor((w - 100) * 0.85)` is computed exactly as `((w - 100) * 85) / 100`; a floating-point product that falls just below an integer is not modelled.
- Layout.Mid: `Math.round(w * 0.5)` is computed exactly; floating point plays no part for whole-pixel widths.
- Layout.Resizer.constructor: a saved width that is not a number (`NaN`) is modelled as absent; the saved width is applied without clamping, as in the source.
- Git.WalkDiff: siblings are visited in code-point order of their names; isomorphic-git reads a commit's tree entries in Git's stored order, which compares a directory as if its name ended in '/', and that difference is not modelled.
- VerifyGitRepositoryRoot: a `DOMException`'s message is worded by the browser; the model gives each exception the description Web IDL has for its name (`BrowserFs.NOT_FOUND_MESSAGE`, `BrowserFs.TYPE_MISMATCH_MESSAGE`).
- NodeWorker.PathNode: a path is split on '/' without `path.join`'s normalisation, so "a//b", "./x" and "a/../b" are not resolved as Node resolves them; the browser store is a map from path to contents, so a file "/a" and a file "/a/b" can both be present, where LightningFS would fail with ENOTDIR.
- CopyContext.ContextFor: the slider's `NaN` fallback to the last known context value is not modelled; the raw value is an input.
- CopyContext.CommitCaption: the object id of a ref is a parameter, as `resolveRef` is a library call; a resolve failure aborts the whole copy in the source and is not modelled.
- NodeWorker.ReadFile: the working-directory answer of the source leaves `notFound` undefined when the file exists; the model reads that as false.
- NodeWorker.WalkDirectory: an `isIgnored` call that throws counts as not ignored in the source; the model's `isIgnored` is total, so that fallback is not modelled.
- RepoState.Repository.ApplyLoad: publishing the client to the page (`setGitClient`) and the loading flags are not modelled.
- FileTree.DirMap.SortAll: the source sorts by recursing from the root; the model sorts every list of the directory map, which orders the same lists for every directory reachable from the root.
- Paths with a leading '/' in the file tree hook: such a path has the same directory part and name as the path without it, so of the two only the first gets a file node (`FileTree.LeadingSlashShadows`); the model keeps this behaviour of the source and proves nothing beyond it.
- FileTree.FileTreeState: the `showChangedOnly` setter is a plain assignment and has no method of its own.
- TreeView: `nodeVisible` of src/web/src/components/FileTreeView.tsx is defined but not called by the rendering; it is modelled only to relate it to `shouldShow`.
- TreeView.ToggleFolderSelection: the all-on and all-off outcomes are stated for a folder whose gathered files are distinct, which they are for any tree built from distinct paths.
- TextDiff.NormalizeEolRemovesCrLf: holds only for text without CR CR LF; `NormalizeEolKeepsCrBeforeCrLf` shows that one pass of the replacement leaves CR LF behind for CR CR LF.
- SelectedTree: the source's tree is built from `Map`s mutated in place; the model builds the same tree as a value.

## Findings

| source | as written | input that shows it | evidently intended | confidence | as-written member | corrected member |
|---|---|---|---|---|---|---|
| src/web/src/App.tsx:405-410 | `a.children && !a.isFile` is `undefined` for a node without children and `false` for a file that also has children; `!==` treats the two as different and both return 1, so the comparator puts each of such a pair after the other | selected paths "a", "a/b" and "b": the root's children "a" (a file with a child) and "b" (a plain file) each compare greater than the other, so their order in the tree text is up to the engine's sort | a node is a folder exactly when it has children and is not a file; non-folders are then ordered by name, "a" before "b" | medium, not executed | SelectedTree.WrittenCompareInconsistent | SelectedTree.CompareAntisymmetric |

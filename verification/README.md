# folder.api crawler — a Dafny model

folder.api reads HTTP directory-index pages (Apache, nginx, IIS style listings) and turns
them into a tree of folders and files. It starts from one directory URL and follows child
folders depth-first down to a depth limit. Each entry gets a name, a hidden flag, a size
and a date guessed from the listing's text, and optionally a MIME type from a HEAD request.

This project models the sequential logic of that crawler. It covers:

- the directory-URL helpers and the legacy helpers of the single-file client;
- the metadata heuristics: folder/file classification, hidden names, dates, sizes, and
  percent-decoding;
- the listing parser;
- the traversal engine, with its roles, relative depths, visited set, depth limit, entry
  limit, placeholder entries and transport dispatch;
- option normalisation, the counting semaphore, MIME enrichment, and result assembly.

The network and the browser are oracles:

- `Recursion.Web` gives the outcome of a fetch or an iframe load for a URL, with the page
  already reduced to its `<a>` elements.
- `Mime.ProbeReply` gives the outcome of a HEAD request.
- `Option<Urls.Url>` stands for what `new URL(...)` produces, with `None` where it throws.

Exceptions are `Failure` values (`Recursion.Crash`). Shared mutable state is a `State`
record threaded through the functions. Soft errors are strings appended to a list.

Files, one module each: `wrappers`, `strs`, `seqs` (shared helpers), `urls`, `decoding`,
`classify`, `dates`, `sizes`, `parse_directory`, `options`, `semaphore`, `entries`, `mime`,
`recursion`, `folder_api_request`, `legacy`.

Two behaviours of the code worth knowing:

- The US date pattern `…(?:\s?(AM|PM))` requires the AM/PM marker, so `M/D/YYYY H:MM`
  without a marker is not a US date and falls through to the ambiguity check
  (`Dates.UsNeedsMarker`, `Dates.AmbiguousExample`).
- A folder's `depth` is counted from the directory whose listing named it, not from the
  start: `depthFrom(current, candidate)` (src/core/recursion.ts:153-158, called at line 63). It is not the
  parent's depth plus one, and it is not bounded by `maxDepth`.

## Model

| member | source | states |
|---|---|---|
| Urls.CollapseSlashes | src/utils/url.ts:11-12 | the result has no "//", is empty iff the input is, and keeps the last character |
| Urls.CollapseSlashesFixed | src/utils/url.ts:12 | a path without a run of slashes is left unchanged |
| Urls.CollapseSlashesPieces | src/utils/url.ts:12 | collapsing keeps the non-empty '/'-pieces and the final piece |
| Urls.NormalizePath | src/utils/url.ts:11-13 | the normalised path ends with '/', has no "//", and has the same non-empty segments as the input |
| Urls.NormalizePathIdempotent | src/utils/url.ts:11-13 | normalising twice equals normalising once |
| Urls.EnsureHttp | src/utils/url.ts:1-15 | an unparsable URL fails with "invalid url: " + input; a scheme other than http:/https: fails with "unsupported scheme: " + protocol; an http: or https: URL is accepted with only its path normalised, so host, query and fragment are kept |
| Urls.EnsureHttpIdempotent | src/utils/url.ts:1-15 | canonicalising an accepted URL again gives it back unchanged |
| Urls.NormalizeDirectoryUrl | src/utils/url.ts:17-19 | succeeds iff `ensureHttp` does, with the serialisation of its URL |
| Urls.KeyForVisited | src/utils/url.ts:21-23 | the key is protocol + "//" + lower-cased host + pathname |
| Urls.KeyIgnoresHostCase | src/utils/url.ts:21-23 | URLs that differ only in host case (or query/fragment) share a key |
| Urls.SameOriginEquivalence | src/utils/url.ts:25-27 | same-origin is reflexive, symmetric and transitive, and ignores the path |
| Urls.RootDir | src/utils/url.ts:36-38 | the root keeps protocol and host and has no path segment |
| Urls.RootDirectoryIgnoresPath | src/utils/url.ts:36-38 | the root directory is protocol + "//" + host + "/", whatever the path |
| Urls.ParentDir | src/utils/url.ts:29-34 | there is no parent iff the path has no segment; otherwise the parent has exactly the segments but the last and ends with '/'; for one segment it is the root |
| Urls.SegmentsOfJoin | src/utils/url.ts:33 | the path built from segments has exactly those segments |
| Urls.LastSegment | src/utils/url.ts:40-46 | raw is the last non-empty segment, or "" iff there is none; decoded is the decoding, or raw when decoding fails |
| Urls.HiddenNameShape | src/utils/url.ts:48-50 | a name is hidden iff it starts with '.' and is neither "." nor ".." |
| Decoding.DecodeWithoutPercent | src/utils/decode.ts:3 | text without '%' decodes to itself |
| Decoding.MalformedEscapeFails | src/utils/decode.ts:2-7 | a '%' not followed by two hex digits makes `decodeURIComponent` throw |
| Decoding.DecodeSequence | src/utils/decode.ts:3 | a well-formed UTF-8 escape sequence decodes to its code point followed by the rest |
| Decoding.DecodeEncode | src/utils/decode.ts:3 | decoding the `encodeURIComponent` encoding of any text gives the text back |
| Decoding.SafeDecode | src/utils/decode.ts:1-8 | the decoding with errors unchanged, or on failure the raw segment with one `decode:` error appended after the earlier ones |
| Decoding.SafeDecodeAppends | src/utils/decode.ts:1-8 | the errors a decoding appends do not depend on the earlier ones |
| Classify.LastPieceAfterSlash | dist/utils/classify.js:6 | the last piece of prefix + "/" + name is the name |
| Classify.ExtensionUsesLastDot | dist/utils/classify.js:7 | the last-dot test decides `/^[^.].*\.[^.]+$/` exactly |
| Classify.FindKeywordDecides | dist/utils/classify.js:10 | the keyword scan succeeds iff a whole-word `dir`, `folder` or `directory` occurs, ignoring case |
| Classify.ClassifyEntry | dist/utils/classify.js:2-13 | a trailing '/' gives folder; otherwise an extension gives file |
| Classify.ClassifyEntryMeaning | dist/utils/classify.js:2-13 | folder iff the href ends with '/', or has no extension and the metadata names a folder keyword; file otherwise |
| Classify.ClassifyTrailingSlashExample | dist/utils/classify.js:3-4 | a link ending in '/' is a folder |
| Classify.ClassifyExtensionExample | dist/utils/classify.js:7-8 | "file.txt" is a file whatever the metadata says |
| Classify.ClassifyKeywordExample | dist/utils/classify.js:10-11 | an extension-less link with "dir" in its metadata is a folder |
| Classify.DetectHidden | dist/utils/classify.js:14-16 | hidden iff the decoded name has at least two characters and starts with '.', ".." excluded |
| Classify.DetectHiddenExamples | dist/utils/classify.js:14-16 | ".env" is hidden; ".", ".." and "env" are not |
| Dates.Leftmost | src/utils/date.ts:5 | the position found matches, and no earlier position does |
| Dates.IsoFields | src/utils/date.ts:5-9 | the fields are the matched numbers, the month less one, and seconds 0 unless the optional group matched |
| Dates.ShortMonthToIndex | src/utils/date.ts:41-44 | the index of the lower-cased name among jan…dec, and none iff it is not one of them |
| Dates.ApacheFields | src/utils/date.ts:12-19 | fields exist iff the month name is known; seconds are 0 |
| Dates.ClockHour | src/utils/date.ts:24-31 | 12 AM is hour 0, 12 PM is 12, another PM hour adds 12; a 1-12 hour lands in the right half of the day |
| Dates.ParseDateMeta | src/utils/date.ts:2-39 | the leftmost ISO match wins; else a known-month Apache match; else a US match; else none, with the ambiguity error appended iff a loose numeric date occurs |
| Dates.ParseDateMetaErrors | src/utils/date.ts:34-38 | a call appends at most the one ambiguity error, and only when it finds no date |
| Dates.ApacheMonthInRange | src/utils/date.ts:15-17 | an Apache date's month index is 0-11 |
| Dates.UnknownMonthFallsThrough | src/utils/date.ts:16-21 | an unknown month name at the Apache match falls through to the US pattern |
| Dates.IsoWins | src/utils/date.ts:5-10 | the leftmost ISO match decides the result, with no error |
| Dates.ApacheWins | src/utils/date.ts:12-19 | without an ISO match, a known-month leftmost Apache match decides |
| Dates.UsWins | src/utils/date.ts:21-33 | without an ISO or Apache date, the leftmost US match decides |
| Dates.AmbiguousFlagged | src/utils/date.ts:35-38 | with no date found, a loose numeric date gives none and exactly one ambiguity error |
| Dates.UsNeedsMarker | src/utils/date.ts:21 | a US match needs an AM/PM marker |
| Dates.IsoExample | src/utils/date.ts:5-10 | "2024-03-01 12:05" gives 2024, month 2, day 1, 12:05:00 |
| Dates.ApacheExample | src/utils/date.ts:12-19 | "08-Oct-2023 05:44" gives 2023, month 9, day 8, 05:44 |
| Dates.UsExample | src/utils/date.ts:21-33 | "1/2/2022 3:04 PM" gives 2022, month 0, day 2, 15:04 |
| Dates.AmbiguousExample | src/utils/date.ts:35-38 | "12/13/2024 12:00" gives no date and the ambiguity error |
| Sizes.StampEnd | dist/utils/size.js:57-59 | a stamp match starting at a position is at least 11 characters long and lies inside the text |
| Sizes.StripDateTime | dist/utils/size.js:55-61 | stripping never lengthens the text |
| Sizes.ReplaceFirstStamp | dist/utils/size.js:57-59 | a global replace keeps the text before the first match, puts one space for the whole match, and resumes right after it |
| Sizes.ReplaceNoMatch | dist/utils/size.js:57-59 | text where a stamp matches nowhere is left unchanged |
| Sizes.ReplaceWithoutDigits | dist/utils/size.js:57-59 | text without digits is left unchanged |
| Sizes.StripShort | dist/utils/size.js:55-61 | text shorter than any stamp is left unchanged |
| Sizes.TokenAt | dist/utils/size.js:5 | the greedy match at a digit: the whole digit run; then the fraction exactly when a '.' and a digit follow, with its whole digit run; then a unit letter whenever one follows, and a B whenever one follows that (or follows the number directly) |
| Sizes.Tokens | dist/utils/size.js:5-9 | the scanned tokens are well formed, in order and non-overlapping |
| Sizes.TokensCoverDigits | dist/utils/size.js:5-9 | every digit lies inside some scanned token |
| Sizes.UnitPower | dist/utils/size.js:6-13 | the power is at most 5, and 0 iff the token has no K/M/G/T/P letter |
| Sizes.WholeNumberBytes | dist/utils/size.js:25 | a whole number is scaled by 1024 to the unit's power, and without a unit is itself |
| Sizes.Accept | dist/utils/size.js:9-27 | no more candidates than tokens, and none embedded in a word |
| Sizes.AcceptKeeps | dist/utils/size.js:9-27 | the candidates are exactly the tokens not embedded in a word and not a year |
| Sizes.MaxBytes | dist/utils/size.js:52-53 | the result is the byte count of some candidate and at least every candidate's |
| Sizes.ParseSizeMeta | dist/utils/size.js:3-54 | none without candidates; else the largest among those with a unit, else among those that do not look like a date or time, none when nothing survives |
| Sizes.NoTokensNoSize | dist/utils/size.js:28-29 | with no token the result is none |
| Sizes.SingleCandidate | dist/utils/size.js:30-53 | a single surviving candidate is the result |
| Sizes.BareNumberExample | dist/utils/size.js:3-54 | "123" is 123 bytes |
| Sizes.KilobyteExample | dist/utils/size.js:3-54 | "2K" is 2048 bytes |
| Sizes.MegabyteFractionExample | dist/utils/size.js:25 | "1.5M" is 1572864 bytes |
| Sizes.DateTimeExample | dist/utils/size.js:55-61 | "12/13/2024 12:00" is blanked out and gives no size |
| ParseDirectory.GatherAnchors | src/core/parseDirectory.ts:12-22 | the anchors with an href under `pre`, then `table`, then `ul`, then `ol`, each in document order, so an anchor inside two containers is gathered twice; when all four selections are empty, every anchor with an href in document order |
| ParseDirectory.ContainerSelections | src/core/parseDirectory.ts:14-18 | an anchor is selected iff it has an href and lies inside a `pre`, table, `ul` or `ol` |
| ParseDirectory.GatherTwiceExample | src/core/parseDirectory.ts:14-18 | an anchor inside both a `<pre>` and a table is gathered twice |
| ParseDirectory.Dedupe | src/core/parseDirectory.ts:73-84 | every kept anchor is from the input, has a non-empty href, and has one not seen before |
| ParseDirectory.DedupeDistinct | src/core/parseDirectory.ts:73-84 | no two kept anchors share an href |
| ParseDirectory.DedupeHrefs | src/core/parseDirectory.ts:73-84 | the kept hrefs are exactly the usable hrefs of the input minus those already seen |
| ParseDirectory.DedupeFirstWins | src/core/parseDirectory.ts:73-84 | the anchor kept for an href is the first carrying it, in input order |
| ParseDirectory.DedupeExample | src/core/parseDirectory.ts:73-84 | of two links to "x/" and one with an empty href, only the first is kept |
| ParseDirectory.HashTailIffHash | src/core/parseDirectory.ts:64 | `/#[^#]*$/` matches exactly the strings containing '#' |
| ParseDirectory.AcceptHref | src/core/parseDirectory.ts:61-71 | accepted iff not javascript: or mailto: (any case), no '#', and same origin when required |
| ParseDirectory.AcceptedShape | src/core/parseDirectory.ts:61-71 | an accepted link has no fragment, and shares the base's protocol and host under same-origin |
| ParseDirectory.FindLine | src/core/parseDirectory.ts:98-100 | the first line containing the non-empty anchor text, none for an empty text |
| ParseDirectory.RowMetadata | src/core/parseDirectory.ts:87-91 | in a table row with cells, the metadata contains every cell's text |
| ParseDirectory.PreMetadata | src/core/parseDirectory.ts:95-102 | inside a `<pre>`, the metadata is the first line containing the trimmed anchor text, else the anchor text |
| ParseDirectory.PreLine | src/core/parseDirectory.ts:98-100 | the line `find` picks is the first including the non-empty text, and the fallback is used iff the text is empty or no line includes it |
| ParseDirectory.NormalizeFolderUrl | src/core/parseDirectory.ts:113-115 | the result ends with '/', and is the input or the input plus '/' |
| ParseDirectory.NormalizeFolder | src/core/parseDirectory.ts:39 | the URL form serialises to `normalizeFolderUrl` of the href and keeps protocol and host |
| ParseDirectory.NormalizeFolderIdempotent | src/core/parseDirectory.ts:113-115 | normalising a folder URL twice equals once |
| ParseDirectory.Describe | src/core/parseDirectory.ts:29-56 | the kind is `classifyEntry` of the serialised target and the trimmed metadata; the hidden flag is `detectHidden` of the decoded name; the date is `parseDateMeta` of the metadata; a file's size is `parseSizeMeta` of it; a folder gets the normalised URL and no size, a file the resolved URL; raw and decoded names come from the last segment; the errors are the earlier ones, then the decoding error, then the date error |
| ParseDirectory.Add | src/core/parseDirectory.ts:36-56 | a folder entry is appended to the folders and a file entry to the files, everything else unchanged but the errors, which become the given ones; the lists stay well shaped |
| ParseDirectory.Step | src/core/parseDirectory.ts:26-56 | a rejected link leaves the listing unchanged; an accepted one appends the entry `Describe` gives it to the list its kind names, and that entry's errors to the errors |
| ParseDirectory.Walk | src/core/parseDirectory.ts:26-57 | fails iff some anchor's href cannot be resolved; otherwise the folders and files gain, in order, the folder and file entries of `Yield` over the remaining anchors, and the errors gain its errors |
| ParseDirectory.TakeAnchor | src/core/parseDirectory.ts:26-57 | from an anchor whose href resolves, the walk fails iff a later href cannot be resolved, and otherwise appends the folder and file entries, and the errors, of `Yield` from this anchor on |
| ParseDirectory.ParseDirectoryHtml | src/core/parseDirectory.ts:8-59 | fails iff a selected anchor cannot be resolved; otherwise the folders are, in order, the folder entries described for the accepted unique anchors, the files their file entries, and the errors their errors in order; folders end in '/' without size, files have no fragment |
| ParseDirectory.Yield | src/core/parseDirectory.ts:26-56 | the reference listing the walk is stated against: exactly as many entries as there are accepted anchors |
| ParseDirectory.DescribeAfter | src/core/parseDirectory.ts:32-34 | describing after earlier errors appends to them exactly the errors describing from none gives |
| ParseDirectory.WalkAll | src/core/parseDirectory.ts:24-58 | the walk from empty lists ends with the folder entries, file entries and errors of `Yield` over all anchors |
| Options.AtLeast | src/options.ts:5-9 | `Math.max(lo, value ?? fallback)`: at least the bound, the given value when it reaches it |
| Options.NormalizeOptions | src/options.ts:3-13 | the defaults without options; otherwise each numeric field is `Math.max(bound, given ?? default)` and each other field the given value or its default |
| Options.NormalizeIdempotent | src/options.ts:3-13 | normalising normalised options changes nothing |
| Options.NormalizedIsFixed | src/options.ts:3-13 | every in-range value is passed back unchanged |
| Options.NormalizeExamples | src/options.ts:3-13 | the defaults, and negative depth, zero concurrency and a 50 ms timeout clamped to 0, 1 and 100 |
| Semaphore.Create | src/utils/semaphore.ts:4 | a new semaphore has no holder and no waiter |
| Semaphore.Acquire | src/utils/semaphore.ts:5-17 | granted iff a slot is free, taking it; otherwise queued at the back; the invariant holds |
| Semaphore.Release | src/utils/semaphore.ts:18-22 | frees the slot with no waiter; else hands it to the queue head in FIFO order, active unchanged |
| Semaphore.TryAcquire | src/utils/semaphore.ts:7-14 | granted iff a slot is free; otherwise the task is queued |
| Semaphore.Run | src/utils/semaphore.ts:1-23 | any sequence of acquires and releases keeps active ≤ max, and nobody waits while a slot is free |
| Semaphore.AllAcquire | src/utils/semaphore.ts:5-17 | of tasks asking at once, the first max are granted and the rest queue in order |
| Semaphore.AcquireFrom | src/utils/semaphore.ts:5-17 | a burst fills the free slots in order and queues the rest behind the waiters |
| Mime.Probe | dist/core/mime.js:8-35 | a thrown probe adds the failed-HEAD error; an ok reply sets an unset MIME and an unset size from a numeric length, and leaves a set MIME or size, or a size with no usable length, as it was; 405/501 adds the not-supported error; heads counts replies |
| Mime.Complete | dist/core/mime.js:7-35 | the file count is kept, heads grows by the replies, and only MIME errors are appended |
| Mime.CompletionOrderIrrelevant | dist/core/mime.js:7-35 | in any completion order, each file ends as its own probe alone leaves it |
| Mime.EnrichMime | dist/core/mime.js:3-36 | nothing changes without includeMime or files; otherwise each file is its own probe's result, heads counts the replies, and only MIME errors are appended |
| Mime.EnrichExample | dist/core/mime.js:15-23 | a 200 reply with type and length fills both fields of a fresh file and counts one HEAD |
| Recursion.FetchDirectory | dist/core/fetchDirectory.js:1-29 | succeeds iff the response is 200 with an HTML content type; fetches counts responses |
| Recursion.FrameDirectory | src/core/iframeDirectory.ts:3-48 | succeeds iff the frame loads a document; iframes counts created frames |
| Recursion.Load | src/core/recursion.ts:39-53 | loading makes no HEAD request |
| Recursion.ModeDispatch | src/core/recursion.ts:39-53 | fetch mode creates no iframe, iframe mode fetches nothing, auto uses the iframe only after a failed fetch |
| Recursion.Listing | src/core/recursion.ts:39-56 | a transport failure is passed on; after a successful load the result is the parsed listing, or the bad-link crash when parsing fails; the transport's counters; a well-shaped listing on success |
| Recursion.DepthFrom | src/core/recursion.ts:153-158 | how many segments deeper the candidate is, 0 when it is shallower |
| Recursion.DetermineRole | src/core/recursion.ts:160-165 | self iff the start; root iff not the start but the root; parent iff neither but the parent; child otherwise |
| Recursion.StartAtRootIsSelf | src/core/recursion.ts:160-165 | a crawl from the host root reports it as itself, and it has no parent |
| Recursion.EmptyNode | src/core/recursion.ts:136-151 | the node has the URL, role and depth given, no children, files or date, and is named and flagged hidden by its last segment |
| Recursion.AddFolder | src/core/recursion.ts:59-84 | the entry built from the listed folder is appended to the folders iff no entry has its URL and role, and a new empty child node with that entry is appended to the node iff its role is child; the counter grows by one |
| Recursion.AddFolders | src/core/recursion.ts:59-84 | the node gains, in listing order, one empty child node per child-role folder; the folders gain the listed entries in order, each only when its URL and role are new; the counter grows by the number of folders |
| Recursion.AppendNew | src/core/recursion.ts:76-78 | the earlier entries stay first; every given entry ends recorded by URL and role; each appended entry is one of the given ones and was new where it was appended; no URL and role is recorded twice if none was before |
| Recursion.ChildNodes | src/core/recursion.ts:79-82 | one empty child node for each child-role folder, and none for folders in another role |
| Recursion.AddFoldersGrows | src/core/recursion.ts:59-84 | the loop only appends: earlier folders and children stay first, new children are empty child nodes, and no URL is recorded twice in one role |
| Recursion.AddFoldersCovers | src/core/recursion.ts:76-78 | every listed folder ends up recorded in its role |
| Recursion.FileEntries | src/core/recursion.ts:85-98 | the flat list gains one entry per listed file, in order |
| Recursion.AddFilesTree | src/core/recursion.ts:85-98 | the positions a node records stay within the flat file list as both grow |
| Recursion.AddFilesShared | src/core/recursion.ts:95-96 | the positions a node records index its file entries |
| Recursion.AddPlaceholder | src/core/recursion.ts:102-111 | a placeholder is added, with the counter raised, iff no entry has its URL |
| Recursion.Placeholders | src/core/recursion.ts:100-112 | afterwards the root and the parent are recorded, by at most two new entries |
| Recursion.Record | src/core/recursion.ts:56-112 | the node gains the empty nodes of the child-role folders and, as its files, the positions of the listing's files at the end of the flat list; the folders gain the listed entries new by URL and role, and for the start at most the root and parent placeholders after them; the counter lies between the listing size and that plus the placeholders |
| Recursion.LoadDirectory | src/core/recursion.ts:33-113 | past 50000 entries only the limit error; otherwise fails iff the listing fails, and records it; its key enters the load trace once, past the limit too |
| Recursion.LimitStopsLoading | src/core/recursion.ts:34-37 | past the limit nothing is fetched or counted, only the key enters the load trace, and exactly one limit error is appended |
| Recursion.LoadRecordsListing | src/core/recursion.ts:55-56 | a successful load appends the listing's errors in order |
| Recursion.Dfs | src/core/recursion.ts:117-130 | at the limit it only records the depth reached; otherwise the node keeps its files and its children their entries, in order, and every child-role child ends marked visited; the node keeps its entry, the state only grows, `loadDirectory` is entered at most once per directory, `loadDirectory` was entered on every directory newly visited, the tree stays well formed, and the depth reached lies between the current depth and the limit |
| Recursion.Visit | src/core/recursion.ts:122-128 | the child's key ends marked visited and is the first directory `loadDirectory` is entered on in the call; the node returned has the files and the child entries that `loadDirectory` gave the child; when one more level fits under the depth limit, every child-role child of it ends marked visited too; the child keeps its entry; the state only grows, `loadDirectory` is entered at most once per directory, `loadDirectory` was entered on every directory newly visited, the tree stays well formed, and the depth reached stays within the limit |
| Recursion.Children | src/core/recursion.ts:118-129 | every child-role kid ends marked visited, whether the loop entered it or found it visited; a kid that is not a child folder or was already visited comes out unchanged; the loop keeps each child's entry, in order; the state only grows, `loadDirectory` is entered at most once per directory, and `loadDirectory` was entered on every directory newly visited |
| Recursion.ChildrenSkipAll | src/core/recursion.ts:120-125 | when every kid is passed over, the loop returns the kids and the state unchanged: no error, no load, nothing visited |
| Recursion.LoadStart | src/core/recursion.ts:26-115 | the start is marked and `loadDirectory` entered on it first, its key the only one added to the trace, and its self entry recorded first; past the entry limit the start node stays empty; below it the load fails iff the start's listing fails, and otherwise the start node's children are the empty nodes of the listed child-role folders and its files the positions of the listed files at the end of the flat list; below the limit the root and the parent are recorded; a fresh state keeps one entry per URL and role |
| Recursion.StartListing | src/core/recursion.ts:30-115 | loading the start node fills it from its own listing: its child-role folders as empty nodes, its files at the end of the flat list; past the limit it stays empty |
| Recursion.Crawl | src/core/recursion.ts:26-134 | the returned node is the start's self entry, entered and recorded before anything else; its files are the positions of its own listed files and its children stand, in order, for the child-role folders of that listing, empty past the entry limit; with depth limit 1 or more every child of the start ends marked visited; the state only grows, `loadDirectory` is entered at most once per directory, `loadDirectory` was entered on every directory newly visited, the tree stays well formed, and the depth reached stays within the limit; below the entry limit the root and the parent are recorded; from a fresh state no URL is recorded twice in one role |
| Recursion.Traverse | src/core/recursion.ts:18-134 | a bad start fails; an already visited start gives an empty node and the loop error; else the crawl, whose root has role self |
| Recursion.CrawlDepthZero | src/core/recursion.ts:117-119 | with depth limit 0 `loadDirectory` is entered on the start only and its children stay empty |
| Recursion.CrawlDepthOne | src/core/recursion.ts:117-132 | with depth limit 1 or more `loadDirectory` is entered on every child folder of the start, by this crawl or, when visited before it began, earlier; from a state that entered all it visited, every child ends in the load trace |
| FolderApiRequest.Combine | src/folderApiRequest.ts:23 | the folders in order, followed by the files in order |
| FolderApiRequest.FolderApiRequest | src/folderApiRequest.ts:6-40 | fails iff the crawl fails; otherwise the crawl's root, URL and folders, files enriched only with includeMime, MIME errors after the crawl's, entries as folders then files; files, errors and HEAD count are those MIME enrichment gives, fetches and iframes the crawl's counters, and the reported depth the deepest reached, within the limit |
| FolderApiRequest.Assemble | src/folderApiRequest.ts:19-39 | the result holds the crawl's root, URL and folders; the files, errors and HEAD count are those MIME enrichment gives, unchanged without includeMime; only MIME errors are appended; entries are the folders then the files; the file positions of a well-formed tree still index the files |
| FolderApiRequest.RejectsBadStart | src/folderApiRequest.ts:18 | an invalid or non-http start URL rejects with the URL error |
| FolderApiRequest.RequestFolders | src/folderApiRequest.ts:18-27 | the start is the first folder, no URL appears twice in one role, and root and parent are present |
| FolderApiRequest.NoMimeNoHeads | src/folderApiRequest.ts:19-21 | without includeMime no HEAD request is counted |
| Legacy.IsFolder | src/folder.api.js:18-20 | a folder URL is one ending in '/' |
| Legacy.HiddenFrom | src/folder.api.js:26-29 | the leftward scan finds a match iff one starts at or before its position |
| Legacy.IsHiddenFileOrFolder | src/folder.api.js:26-29 | hidden iff a "/." is followed by at least one more character up to the end, on one line |
| Legacy.UrlTypeOf | src/folder.api.js:6-16 | never unknown; hidden first, then folder iff ending in '/', else file |
| Legacy.DotNameIsHidden | src/folder.api.js:26-29 | a dot-name of two or more characters after a '/' makes the URL hidden |
| Legacy.ParentFolder | src/folder.api.js:31-36 | the result ends with '/' |
| Legacy.ParentOfFolder | src/folder.api.js:31-36 | the parent of prefix/name/ is prefix/ |
| Legacy.UrlToFoldername | src/folder.api.js:38-41 | undefined iff the URL has no '/'; otherwise a piece without '/' |
| Legacy.FoldernameOfFolder | src/folder.api.js:38-41 | the folder name of prefix/name/ is name |
| Legacy.UrlToFilename | src/folder.api.js:43-47 | the non-empty text after the last '/', or the whole URL when that text is empty or there is no '/' |
| Legacy.FilenameOfFile | src/folder.api.js:43-47 | the file name of prefix/name is name |

## Left out

- HTML parsing (`DOMParser`, `querySelectorAll`, `closest`, `textContent`). A page is given as its `<a>` elements in document order. Each carries its href attribute, resolved target, container flags, and the text of its row, list item, `<pre>` block and parent.
- WHATWG URL parsing and resolution. A URL is the record of components the crawler reads, and `new URL` is the `Option<Url>` a caller supplies.
- Urls.Href / Urls.Url: the record has no user name, password or opaque path. A URL such as `tel:+1` would serialise with "//". For a start URL with userinfo, the hrefs would keep it while `rootDirectory` and `parentDirectory` (src/utils/url.ts:29-38) drop it, so at src/core/recursion.ts:160-165 the root and parent links would take the child role. None of this is modelled.
- ParseDirectory.AcceptHref: a `blob:` URL has the origin of the URL it wraps, but the model gives every scheme other than http, https, ws, wss and ftp an opaque origin. Under `sameOriginOnly`, a `blob:` link into the listing's own origin is therefore rejected, where src/core/parseDirectory.ts:65-68 keeps it.
- The transports' network, timers, `AbortController` and the caller's abort `signal`. The `Web` oracle gives each URL's outcome; a timeout is an outcome.
- Exception messages of the transports. `Recursion.Crash` names the cause (status, content type, iframe failure) without formatting the message text.
- Promise scheduling in MIME enrichment. Probes complete in file order. `Mime.CompletionOrderIrrelevant` shows the entries do not depend on that order; the order of the appended errors does.
- `Date.UTC` calendar normalisation and `toISOString`. A date is the field tuple handed to `Date.UTC`.
- Floating point in size parsing. A size token's value is an exact decimal, so the byte count is an exact floor; JavaScript double rounding of long decimals is not reproduced.
- Mime.NumberOf: `Number(len)` is modelled for blank text and plain decimal digits only. Signs, fractions, exponents and hexadecimal forms give `None`, so such a Content-Length leaves the size unset where the source would store a number.
- UTF-16 code units. Strings are sequences of Unicode scalar values, and case-insensitive matching folds ASCII letters only, as JavaScript regular expressions without the `u` flag do.
- `pushError` (src/utils/errors.ts is not part of this model). It is taken to append the category tag, ": " and the message.
- Options.NormalizeOptions: JavaScript numbers are modelled as integers. A fractional `maxDepth` such as 1.5 expands one level further than its floor, because `1 >= 1.5` is false; a `NaN` `maxDepth` survives `Math.max` and removes the depth cut-off at src/core/recursion.ts:119; a fractional `headConcurrency` admits one more probe. None of this is modelled.
- Clock readings: `durationMs` and `generatedAt`.
- Object identity. The start node and its entry in `allFolders` are one object in the source; in the model the entry is a copy, which is equivalent because a crawl never changes an entry's fields. A node's files are positions in the flat file list, so MIME enrichment of the list is what the tree refers to.
- `Recursion.State.loaded` is a trace kept only by the model. It records the key of each directory `loadDirectory` was entered on, so that "no directory is entered twice" can be stated. Past the 50000-entry limit a directory is entered but nothing is fetched, so being in the trace does not mean the directory was fetched.
- The legacy client's DOM and network code in src/folder.api.js: header probing, the per-server extractors with locale-dependent date parsing, `getLinksFromFrame` and its iframe `folderApiRequest`.
- The compiled duplicates under dist/ of the src files, the declaration files, and the Python tooling and mock servers.

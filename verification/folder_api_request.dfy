/** The request entry point (src/folderApiRequest.ts): normalise the
    options, crawl from the start URL with a fresh state, optionally probe
    every file's MIME type, and assemble the result. The clock readings
    (`durationMs`, `generatedAt`) are left out. */
module FolderApiRequest {
  import opened Wrappers
  import opened Seqs
  import Urls
  import Options
  import Entries
  import Mime
  import Recursion

  /** An element of the combined `entries` list. */
  datatype Entry = FolderItem(folder: Entries.FolderEntry) | FileItem(file: Entries.FileEntry)

  datatype ResultStats = ResultStats(fetches: nat, iframes: nat, heads: nat, maxDepth: nat)

  /** The file positions in `root` index `files`. */
  datatype FolderApiResult = FolderApiResult(url: Urls.Url, root: Entries.FolderNode,
                                             folders: seq<Entries.FolderEntry>, files: seq<Entries.FileEntry>,
                                             entries: seq<Entry>, errors: seq<string>, stats: ResultStats)

  /** The state a request starts from: nothing visited, recorded or counted. */
  const Fresh := Recursion.State({}, [], [], [], Recursion.Stats(0, 0, 0), 0, 0, [])

  /** `[...folders, ...files]` */
  function Combine(folders: seq<Entries.FolderEntry>, files: seq<Entries.FileEntry>): (r: seq<Entry>)
    ensures |r| == |folders| + |files|
    ensures forall k | 0 <= k < |folders| :: r[k] == FolderItem(folders[k])
    ensures forall k | 0 <= k < |files| :: r[|folders| + k] == FileItem(files[k])
  {
    seq(|folders|, k requires 0 <= k < |folders| => FolderItem(folders[k]))
    + seq(|files|, k requires 0 <= k < |files| => FileItem(files[k]))
  }

  /** `folderApiRequest(url, options)`. `parsed` is what `new URL(url)`
      gives, `web` answers the directory loads and `probe` the HEAD request
      of each file, by its position in the file list. */
  function FolderApiRequest(url: string, parsed: Option<Urls.Url>, options: Option<Options.FolderApiOptions>,
                            web: Recursion.Web, probe: nat -> Mime.ProbeReply)
    : (r: Result<FolderApiResult, Recursion.Crash>)
    ensures var opts := Options.NormalizeOptions(options);
            var crawl := Recursion.Traverse(opts, web, url, parsed, Fresh);
            (r.Failure? <==> crawl.Failure?) && (r.Failure? ==> r.error == crawl.error)
    ensures r.Success? ==>
              var opts := Options.NormalizeOptions(options);
              var crawl := Recursion.Traverse(opts, web, url, parsed, Fresh).value;
              r.value.root == crawl.0 && r.value.url == crawl.0.entry.url
              && r.value.folders == crawl.1.allFolders
              && |r.value.files| == |crawl.1.allFiles|
              && (!opts.includeMime ==> r.value.files == crawl.1.allFiles && r.value.errors == crawl.1.errors)
              && IsPrefix(crawl.1.errors, r.value.errors)
              && (forall k | |crawl.1.errors| <= k < |r.value.errors| :: Mime.MimeError(r.value.errors[k]))
              && r.value.entries == Combine(r.value.folders, r.value.files)
              && r.value.stats.maxDepth <= opts.maxDepth
              && (var enriched := Mime.EnrichMime(crawl.1.allFiles, opts.includeMime, probe,
                                                  crawl.1.stats.heads, crawl.1.errors);
                  r.value.files == enriched.0 && r.value.errors == enriched.2
                  && r.value.stats == ResultStats(crawl.1.stats.fetches, crawl.1.stats.iframes, enriched.1,
                                                  crawl.1.maxDepthEncountered))
              && Recursion.TreeOk(r.value.root, |r.value.files|)
              && r.value.root.entry.role == Entries.SelfRole
  {
    var opts := Options.NormalizeOptions(options);
    var crawled :- Recursion.Traverse(opts, web, url, parsed, Fresh);
    Success(Assemble(opts, crawled.0, crawled.1, probe))
  }

  /** The result of a crawl that ended with `root` in `st`, the files
      enriched when `includeMime` is set. */
  function Assemble(opts: Options.NormalizedOptions, root: Entries.FolderNode, st: Recursion.State,
                    probe: nat -> Mime.ProbeReply): (res: FolderApiResult)
    ensures res.root == root && res.url == root.entry.url && res.folders == st.allFolders
    ensures |res.files| == |st.allFiles|
    ensures !opts.includeMime ==> res.files == st.allFiles && res.errors == st.errors
    ensures IsPrefix(st.errors, res.errors)
    ensures forall k | |st.errors| <= k < |res.errors| :: Mime.MimeError(res.errors[k])
    ensures res.entries == Combine(res.folders, res.files)
    ensures var enriched := Mime.EnrichMime(st.allFiles, opts.includeMime, probe, st.stats.heads, st.errors);
            res.files == enriched.0 && res.errors == enriched.2
            && res.stats == ResultStats(st.stats.fetches, st.stats.iframes, enriched.1, st.maxDepthEncountered)
    ensures Recursion.TreeOk(root, |st.allFiles|) ==> Recursion.TreeOk(res.root, |res.files|)
  {
    var enriched := Mime.EnrichMime(st.allFiles, opts.includeMime, probe, st.stats.heads, st.errors);
    FolderApiResult(root.entry.url, root, st.allFolders, enriched.0,
                    Combine(st.allFolders, enriched.0), enriched.2,
                    ResultStats(st.stats.fetches, st.stats.iframes, enriched.1, st.maxDepthEncountered))
  }

  /** An invalid or non-http(s) start URL is rejected before anything is loaded. */
  lemma RejectsBadStart(url: string, parsed: Option<Urls.Url>, options: Option<Options.FolderApiOptions>,
                        web: Recursion.Web, probe: nat -> Mime.ProbeReply)
    requires Urls.EnsureHttp(url, parsed).Failure?
    ensures FolderApiRequest(url, parsed, options, web, probe)
            == Failure(Recursion.BadStart(Urls.EnsureHttp(url, parsed).error))
  {
  }

  /** A request's folders list the start first, then never one URL twice in
      one role, and always hold the start's root and parent directories. */
  lemma RequestFolders(url: string, parsed: Option<Urls.Url>, options: Option<Options.FolderApiOptions>,
                       web: Recursion.Web, probe: nat -> Mime.ProbeReply)
    requires FolderApiRequest(url, parsed, options, web, probe).Success?
    ensures var r := FolderApiRequest(url, parsed, options, web, probe).value;
            var u := Urls.EnsureHttp(url, parsed).value;
            Urls.EnsureHttp(url, parsed).Success?
            && |r.folders| > 0 && r.folders[0] == r.root.entry && r.root.entry.url == u
            && Recursion.UniquePairs(r.folders)
            && Recursion.HasUrl(r.folders, Urls.RootDirectory(u))
            && (Urls.ParentDirectory(u).Some? ==> Recursion.HasUrl(r.folders, Urls.ParentDirectory(u).value))
  {
    var opts := Options.NormalizeOptions(options);
    var u := Urls.EnsureHttp(url, parsed).value;
    assert Recursion.TraceOk(Fresh);
    assert Recursion.FreshFolders(Fresh.allFolders);
  }

  /** The crawl makes no HEAD request, so without MIME probing none is made. */
  lemma NoMimeNoHeads(url: string, parsed: Option<Urls.Url>, options: Option<Options.FolderApiOptions>,
                      web: Recursion.Web, probe: nat -> Mime.ProbeReply)
    requires FolderApiRequest(url, parsed, options, web, probe).Success?
    requires !Options.NormalizeOptions(options).includeMime
    ensures FolderApiRequest(url, parsed, options, web, probe).value.stats.heads == 0
  {
  }
}

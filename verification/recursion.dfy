/** The crawl engine (src/core/recursion.ts). The starting directory's
    listing is loaded and turned into entries; child folders are then
    visited depth-first down to the depth limit, each directory at most
    once. A listing is loaded by fetch (dist/core/fetchDirectory.js), by a
    hidden iframe (src/core/iframeDirectory.ts), or by fetch with the iframe
    as a fallback. The network and the browser are an oracle, `Web`, that
    gives each URL's outcome with the page already reduced to its links. */
module Recursion {
  import opened Wrappers
  import opened Strs
  import opened Seqs
  import Urls
  import Classify
  import Options
  import ParseDirectory
  import opened Entries

  type Url = Urls.Url
  type Anchor = ParseDirectory.Anchor

  // ---------------------------------------------------------------------
  // Transports
  // ---------------------------------------------------------------------

  /** What `fetch(url)` gives: a thrown error (network failure, the timeout's
      abort) or a response with its status, Content-Type and page. */
  datatype FetchReply = FetchThrew | FetchResponse(status: int, contentType: Option<string>, page: seq<Anchor>)

  /** What loading `url` in a hidden iframe gives: no `document` in this
      environment (no iframe is created), a timeout, error event or missing
      document, or the loaded page. */
  datatype FrameReply = NoDocument | FrameFailed | FrameLoaded(page: seq<Anchor>)

  datatype Web = Web(fetch: Url -> FetchReply, frame: Url -> FrameReply)

  /** Why a crawl is abandoned: the exception the request rejects with. */
  datatype Crash =
    | BadStart(message: string)
    | FetchError
    | HttpStatus(status: int)
    | NotHtml(contentType: string)
    | NoIframes
    | FrameError
    | BadLink

  datatype Stats = Stats(fetches: nat, iframes: nat, heads: nat)

  /** `/text\/html/i.test(ctype)` on the Content-Type, absent read as "". */
  predicate IsHtml(contentType: Option<string>) {
    Includes(Lower(contentType.GetOr("")), "text/html")
  }

  /** `fetchDirectoryHtml(url, opts, stats)`: only a 200 HTML response
      succeeds; every response, good or bad, is counted. */
  function FetchDirectory(web: Web, u: Url, stats: Stats): (r: (Result<seq<Anchor>, Crash>, Stats))
    ensures r.1 == stats.(fetches := stats.fetches + (if web.fetch(u).FetchResponse? then 1 else 0))
    ensures r.0.Success? <==>
              web.fetch(u).FetchResponse? && web.fetch(u).status == 200 && IsHtml(web.fetch(u).contentType)
    ensures r.0.Success? ==> r.0.value == web.fetch(u).page
  {
    match web.fetch(u)
    case FetchThrew => (Failure(FetchError), stats)
    case FetchResponse(status, contentType, page) =>
      var counted := stats.(fetches := stats.fetches + 1);
      if status != 200 then (Failure(HttpStatus(status)), counted)
      else if !IsHtml(contentType) then (Failure(NotHtml(contentType.GetOr(""))), counted)
      else (Success(page), counted)
  }

  /** `iframeDirectoryHtml(url, opts, stats)`: every iframe created is
      counted, whether or not it loads. */
  function FrameDirectory(web: Web, u: Url, stats: Stats): (r: (Result<seq<Anchor>, Crash>, Stats))
    ensures r.1 == stats.(iframes := stats.iframes + (if web.frame(u).NoDocument? then 0 else 1))
    ensures r.0.Success? <==> web.frame(u).FrameLoaded?
    ensures r.0.Success? ==> r.0.value == web.frame(u).page
  {
    match web.frame(u)
    case NoDocument => (Failure(NoIframes), stats)
    case FrameFailed => (Failure(FrameError), stats.(iframes := stats.iframes + 1))
    case FrameLoaded(page) => (Success(page), stats.(iframes := stats.iframes + 1))
  }

  /** The transport choice at the head of `loadDirectory`. */
  function Load(mode: Options.Mode, web: Web, u: Url, stats: Stats): (r: (Result<seq<Anchor>, Crash>, Stats))
    ensures r.1.heads == stats.heads
  {
    match mode
    case Fetch => FetchDirectory(web, u, stats)
    case Iframe => FrameDirectory(web, u, stats)
    case Auto =>
      var fetched := FetchDirectory(web, u, stats);
      if fetched.0.Success? then fetched else FrameDirectory(web, u, fetched.1)
  }

  /** Fetch mode never creates an iframe and iframe mode never fetches; auto
      mode succeeds when either transport does, tries the iframe only after
      fetch failed, and keeps the count of the failed fetch. */
  lemma ModeDispatch(web: Web, u: Url, stats: Stats)
    ensures Load(Options.Fetch, web, u, stats).1.iframes == stats.iframes
    ensures Load(Options.Iframe, web, u, stats).1.fetches == stats.fetches
    ensures var r := Load(Options.Auto, web, u, stats);
            var f := FetchDirectory(web, u, stats);
            (r.0.Success? <==> f.0.Success? || web.frame(u).FrameLoaded?)
            && (f.0.Success? ==> r == f && r.1.iframes == stats.iframes)
            && (f.0.Failure? ==> r.1.fetches == f.1.fetches
                                 && r.0 == FrameDirectory(web, u, stats).0)
  {
  }

  /** The load and parse steps of `loadDirectory`; a link that cannot be
      resolved makes the parse throw. */
  function Listing(opts: Options.NormalizedOptions, web: Web, u: Url, stats: Stats)
    : (r: (Result<ParseDirectory.Parsed, Crash>, Stats))
    ensures r.1 == Load(opts.mode, web, u, stats).1
    ensures var page := Load(opts.mode, web, u, stats).0;
            page.Failure? ==> r.0 == Failure(page.error)
    ensures var page := Load(opts.mode, web, u, stats).0;
            page.Success? ==>
              var parsed := ParseDirectory.ParseDirectoryHtml(u, page.value, opts.sameOriginOnly);
              (parsed.Failure? ==> r.0 == Failure(BadLink)) && (parsed.Success? ==> r.0 == Success(parsed.value))
    ensures r.0.Success? ==> ParseDirectory.WellShaped(r.0.value)
  {
    var (page, after) := Load(opts.mode, web, u, stats);
    match page
    case Failure(c) => (Failure(c), after)
    case Success(anchors) =>
      match ParseDirectory.ParseDirectoryHtml(u, anchors, opts.sameOriginOnly)
      case Failure(_) => (Failure(BadLink), after)
      case Success(p) => (Success(p), after)
  }

  // ---------------------------------------------------------------------
  // Entries
  // ---------------------------------------------------------------------

  function Max(a: nat, b: nat): nat { if a >= b then a else b }

  /** `a || b` on strings. */
  function Or(a: string, b: string): string { if a != "" then a else b }

  /** `depthFrom(base, candidate)`: how many path segments deeper the
      candidate is, 0 for a shallower one. */
  function DepthFrom(base: Url, candidate: Url): (d: nat)
    ensures |Urls.Segments(candidate.pathname)| >= |Urls.Segments(base.pathname)| ==>
              d + |Urls.Segments(base.pathname)| == |Urls.Segments(candidate.pathname)|
    ensures |Urls.Segments(candidate.pathname)| < |Urls.Segments(base.pathname)| ==> d == 0
  {
    var b := |Urls.Segments(base.pathname)|;
    var c := |Urls.Segments(candidate.pathname)|;
    if c < b then 0 else c - b
  }

  /** `determineRole(url, start, root, parent)`: the start wins over the
      root, the root over the parent, and anything else is a child. */
  function DetermineRole(url: string, start: string, root: string, parent: Option<string>): (r: Role)
    ensures r == SelfRole <==> url == start
    ensures r == RootRole <==> url != start && url == root
    ensures r == ParentRole <==> url != start && url != root && parent == Some(url)
    ensures r == ChildRole <==> url != start && url != root && parent != Some(url)
  {
    if url == start then SelfRole
    else if url == root then RootRole
    else if parent.Some? && url == parent.value then ParentRole
    else ChildRole
  }

  /** A crawl that starts at the host root reports it as itself, never as the root. */
  lemma StartAtRootIsSelf(u: Url)
    requires |Urls.Segments(u.pathname)| == 0 && u.pathname == "/" && u.query.None? && u.fragment.None?
    ensures DetermineRole(Urls.Href(u), Urls.Href(u), Urls.RootDirectory(u), Urls.ParentDirectory(u)) == SelfRole
    ensures Urls.RootDirectory(u) == Urls.Href(u) && Urls.ParentDirectory(u).None?
  {
  }

  /** `createEmptyNode(url, u, depth, role)`: a folder named by its last
      path segment, with nothing listed yet. */
  function EmptyNode(u: Url, depth: nat, role: Role): (n: FolderNode)
    ensures n.entry.url == u && n.entry.role == role && n.entry.depth == depth
    ensures n.children == [] && n.files == [] && n.entry.date.None?
    ensures n.entry.name == n.entry.rawName
    ensures n.entry.rawName == "" <==> |Urls.Segments(u.pathname)| == 0
    ensures n.entry.rawName != "" ==>
              n.entry.rawName == Urls.Segments(u.pathname)[|Urls.Segments(u.pathname)| - 1]
    ensures n.entry.hidden <==> |n.entry.rawName| >= 2 && n.entry.rawName[0] == '.' && n.entry.rawName != ".."
  {
    var seg := Classify.LastPiece(u.pathname);
    Urls.SegmentsArePieces(u.pathname);
    Urls.HiddenNameShape(seg);
    FolderNode(FolderEntry(u, seg, seg, Urls.IsHiddenName(seg), None, role, depth), [], [])
  }

  // ---------------------------------------------------------------------
  // Crawl state
  // ---------------------------------------------------------------------

  /** The shared crawl state. `loaded` is the model's trace of the
      directories `loadDirectory` was called on, by visited key; past the
      entry limit a call fetches nothing but is still in the trace. */
  datatype State = State(visited: set<string>, allFolders: seq<FolderEntry>, allFiles: seq<FileEntry>,
                         errors: seq<string>, stats: Stats, safetyCount: nat, maxDepthEncountered: nat,
                         loaded: seq<string>)

  /** What the nested functions of `traverse` see: the options, the
      transports, the normalised start and its root and parent directories. */
  datatype Context = Context(opts: Options.NormalizedOptions, web: Web, start: Url, root: Url,
                             parent: Option<Url>)

  const EntryLimit := 50000
  const LimitError := "limit: entry limit exceeded"

  function AlreadyVisited(normalized: string): string { "loop: already visited " + normalized }

  function ParentHref(ctx: Context): Option<string> {
    match ctx.parent
    case Some(p) => Some(Urls.Href(p))
    case None => None
  }

  function RoleOf(ctx: Context, u: Url): Role {
    DetermineRole(Urls.Href(u), Urls.Href(ctx.start), Urls.Href(ctx.root), ParentHref(ctx))
  }

  /** The folder entry a listed folder of `base` becomes. */
  function FolderEntryOf(ctx: Context, base: Url, f: ParseDirectory.Listed): FolderEntry {
    FolderEntry(f.url, Or(f.rawName, Classify.LastPiece(Urls.Href(f.url))), Or(f.name, f.rawName),
                f.hidden, f.date, RoleOf(ctx, f.url), DepthFrom(base, f.url))
  }

  /** The file entry a listed file becomes; its MIME type is not known yet. */
  function FileEntryOf(f: ParseDirectory.Listed): FileEntry {
    FileEntry(f.url, Or(f.rawName, Classify.LastPiece(Urls.Href(f.url))), Or(f.name, f.rawName),
              f.hidden, f.size, f.date, None)
  }

  /** An entry with the same URL and role is already recorded. */
  predicate HasPair(folders: seq<FolderEntry>, e: FolderEntry) {
    exists x | x in folders :: Urls.Href(x.url) == Urls.Href(e.url) && x.role == e.role
  }

  /** An entry with this URL, in any role, is already recorded. */
  predicate HasUrl(folders: seq<FolderEntry>, href: string) {
    exists x | x in folders :: Urls.Href(x.url) == href
  }

  /** No URL is recorded twice in the same role. */
  predicate UniquePairs(folders: seq<FolderEntry>) {
    forall i, j | 0 <= i < j < |folders| ::
      !(Urls.Href(folders[i].url) == Urls.Href(folders[j].url) && folders[i].role == folders[j].role)
  }

  predicate Distinct(xs: seq<string>) {
    forall i, j | 0 <= i < j < |xs| :: xs[i] != xs[j]
  }

  /** Every load was of a visited directory, and none was loaded twice. */
  predicate TraceOk(st: State) {
    Distinct(st.loaded) && forall k | k in st.loaded :: k in st.visited
  }

  /** `later` only added to what `earlier` recorded. */
  predicate Grows(earlier: State, later: State) {
    earlier.visited <= later.visited
    && IsPrefix(earlier.loaded, later.loaded) && IsPrefix(earlier.errors, later.errors)
    && IsPrefix(earlier.allFolders, later.allFolders) && IsPrefix(earlier.allFiles, later.allFiles)
    && earlier.safetyCount <= later.safetyCount
    && earlier.maxDepthEncountered <= later.maxDepthEncountered
    && earlier.stats.heads == later.stats.heads
  }

  /** Every directory loaded between the two states was unvisited at the first. */
  predicate FreshLoads(earlier: State, later: State)
    requires |earlier.loaded| <= |later.loaded|
  {
    forall k | |earlier.loaded| <= k < |later.loaded| :: later.loaded[k] !in earlier.visited
  }

  lemma GrowsTransitive(a: State, b: State, c: State)
    requires Grows(a, b) && Grows(b, c)
    ensures Grows(a, c)
    ensures FreshLoads(a, b) && FreshLoads(b, c) ==> FreshLoads(a, c)
  {
    PrefixTransitive(a.loaded, b.loaded, c.loaded);
    PrefixTransitive(a.errors, b.errors, c.errors);
    PrefixTransitive(a.allFolders, b.allFolders, c.allFolders);
    PrefixTransitive(a.allFiles, b.allFiles, c.allFiles);
  }

  /** The file positions of the tree point into a list of `count` files, and
      every folder below the top is a child. */
  predicate TreeOk(n: FolderNode, count: nat)
    decreases n
  {
    (forall i | i in n.files :: i < count)
    && forall c | c in n.children :: c.entry.role == ChildRole && TreeOk(c, count)
  }

  lemma {:induction false} TreeOkGrows(n: FolderNode, a: nat, b: nat)
    requires TreeOk(n, a) && a <= b
    ensures TreeOk(n, b)
    decreases n
  {
    forall c | c in n.children
      ensures TreeOk(c, b)
    {
      TreeOkGrows(c, a, b);
    }
  }

  /** `later` only added to what `earlier` recorded, loaded only directories
      `earlier` had not visited, and kept the trace sound. */
  predicate Progress(earlier: State, later: State) {
    Grows(earlier, later) && FreshLoads(earlier, later) && LoadsVisits(earlier, later) && TraceOk(later)
  }

  /** Every directory `later` marks visited beyond `earlier` has been loaded. */
  predicate LoadsVisits(earlier: State, later: State) {
    forall k | k in later.visited && k !in earlier.visited :: k in later.loaded
  }

  lemma ProgressTransitive(a: State, b: State, c: State)
    requires Progress(a, b) && Progress(b, c)
    ensures Progress(a, c)
  {
    GrowsTransitive(a, b, c);
    forall k | k in c.visited && k !in a.visited
      ensures k in c.loaded
    {
      if k in b.visited {
        PrefixHas(b.loaded, c.loaded, k);
      }
    }
  }

  /** Folders below a node are children whose files are in range. */
  predicate AllChildren(kids: seq<FolderNode>, count: nat) {
    forall c | c in kids :: c.entry.role == ChildRole && TreeOk(c, count)
  }

  lemma AllChildrenGrows(kids: seq<FolderNode>, a: nat, b: nat)
    requires AllChildren(kids, a) && a <= b
    ensures AllChildren(kids, b)
  {
    forall c | c in kids
      ensures TreeOk(c, b)
    {
      TreeOkGrows(c, a, b);
    }
  }

  /** The first of well-formed children, and the rest of them. */
  lemma AllChildrenSplit(kids: seq<FolderNode>, count: nat)
    requires |kids| > 0 && AllChildren(kids, count)
    ensures kids[0].entry.role == ChildRole && TreeOk(kids[0], count) && AllChildren(kids[1..], count)
  {
    assert kids[0] in kids;
    forall c | c in kids[1..]
      ensures c in kids
    {
      var k :| 0 <= k < |kids[1..]| && kids[1..][k] == c;
      assert kids[k + 1] == c;
    }
  }

  // ---------------------------------------------------------------------
  // loadDirectory
  // ---------------------------------------------------------------------

  /** The nodes after position `|before|` are new, empty child nodes. */
  predicate FreshChildren(before: seq<FolderNode>, after: seq<FolderNode>) {
    |before| <= |after|
    && forall k | |before| <= k < |after| ::
         after[k].entry.role == ChildRole && after[k].children == [] && after[k].files == []
  }

  lemma FreshChildrenTransitive(a: seq<FolderNode>, b: seq<FolderNode>, c: seq<FolderNode>)
    requires FreshChildren(a, b) && FreshChildren(b, c) && IsPrefix(b, c)
    ensures FreshChildren(a, c)
  {
    forall k | |a| <= k < |b|
      ensures c[k] == b[k]
    {
      assert c[..|b|][k] == c[k];
    }
  }

  /** Appending an entry whose URL and role are new keeps the pairs unique. */
  lemma PushPair(folders: seq<FolderEntry>, e: FolderEntry)
    requires !HasPair(folders, e)
    ensures HasPair(folders + [e], e) && IsPrefix(folders, folders + [e])
    ensures UniquePairs(folders) ==> UniquePairs(folders + [e])
  {
    var after := folders + [e];
    assert after[|folders|] == e;
    assert after[..|folders|] == folders;
    forall i | 0 <= i < |folders|
      ensures !(Urls.Href(after[i].url) == Urls.Href(e.url) && after[i].role == e.role)
    {
      assert after[i] == folders[i] && folders[i] in folders;
    }
  }

  /** One listed folder: recorded unless its URL is already recorded in the
      same role, and a new node of `cur` when it is a child. */
  function AddFolder(ctx: Context, cur: FolderNode, f: ParseDirectory.Listed, st: State)
    : (r: (FolderNode, State))
    ensures r.1 == st.(allFolders := r.1.allFolders, safetyCount := st.safetyCount + 1)
    ensures r.0 == cur.(children := r.0.children)
    ensures IsPrefix(st.allFolders, r.1.allFolders) && IsPrefix(cur.children, r.0.children)
    ensures FreshChildren(cur.children, r.0.children)
    ensures HasPair(r.1.allFolders, FolderEntryOf(ctx, cur.entry.url, f))
    ensures UniquePairs(st.allFolders) ==> UniquePairs(r.1.allFolders)
    ensures HasPair(st.allFolders, FolderEntryOf(ctx, cur.entry.url, f)) ==> r.1.allFolders == st.allFolders
    ensures !HasPair(st.allFolders, FolderEntryOf(ctx, cur.entry.url, f)) ==>
              r.1.allFolders == st.allFolders + [FolderEntryOf(ctx, cur.entry.url, f)]
    ensures RoleOf(ctx, f.url) == ChildRole ==> r.0.children == cur.children + [NewChild(ctx, cur.entry.url, f)]
    ensures RoleOf(ctx, f.url) != ChildRole ==> r.0.children == cur.children
  {
    var e := FolderEntryOf(ctx, cur.entry.url, f);
    var folders := if HasPair(st.allFolders, e) then st.allFolders else st.allFolders + [e];
    assert HasPair(folders, e) && IsPrefix(st.allFolders, folders)
           && (UniquePairs(st.allFolders) ==> UniquePairs(folders)) by {
      if !HasPair(st.allFolders, e) {
        PushPair(st.allFolders, e);
      }
    }
    var children := if e.role == ChildRole then cur.children + [FolderNode(e, [], [])] else cur.children;
    assert IsPrefix(cur.children, children) by {
      assert children[..|cur.children|] == cur.children;
    }
    (cur.(children := children), st.(allFolders := folders, safetyCount := st.safetyCount + 1))
  }

  /** The folder entries of the listed folders of `base`, in order. */
  function FolderEntries(ctx: Context, base: Url, fs: seq<ParseDirectory.Listed>): (r: seq<FolderEntry>)
    ensures |r| == |fs| && forall k | 0 <= k < |fs| :: r[k] == FolderEntryOf(ctx, base, fs[k])
  {
    seq(|fs|, k requires 0 <= k < |fs| => FolderEntryOf(ctx, base, fs[k]))
  }

  /** Record each of `es` in turn unless its URL and role already are:
      the effect of the `find`-then-`push` on `allFolders`. */
  function AppendNew(folders: seq<FolderEntry>, es: seq<FolderEntry>): (r: seq<FolderEntry>)
    ensures IsPrefix(folders, r)
    ensures forall e | e in es :: HasPair(r, e)
    ensures forall k | |folders| <= k < |r| :: r[k] in es && !HasPair(r[..k], r[k])
    ensures UniquePairs(folders) ==> UniquePairs(r)
    decreases |es|
  {
    if |es| == 0 then
      assert folders[..|folders|] == folders;
      folders
    else
      var next := if HasPair(folders, es[0]) then folders else folders + [es[0]];
      var r := AppendNew(next, es[1..]);
      AppendNewStep(folders, es, next, r);
      NewAfter(es, |next|, r);
      AppendedAreNew(folders, es, next, r);
      r
  }

  /** The contract of `AppendNew` from that of its recursive call: the
      first entry is pushed only when new, and stays where it was pushed. */
  lemma AppendNewStep(folders: seq<FolderEntry>, es: seq<FolderEntry>, next: seq<FolderEntry>, r: seq<FolderEntry>)
    requires |es| > 0
    requires next == if HasPair(folders, es[0]) then folders else folders + [es[0]]
    requires IsPrefix(next, r)
    requires UniquePairs(next) ==> UniquePairs(r)
    ensures IsPrefix(folders, r) && HasPair(r, es[0])
    ensures next != folders ==> r[|folders|] == es[0] && r[..|folders|] == folders
    ensures UniquePairs(folders) ==> UniquePairs(r)
  {
    if !HasPair(folders, es[0]) {
      PushPair(folders, es[0]);
      AppendedFirst(folders, es[0], r);
    }
    HasPairGrows(next, r, es[0]);
  }

  /** Every entry appended after `folders` is one of `es` and was new where it was appended. */
  lemma AppendedAreNew(folders: seq<FolderEntry>, es: seq<FolderEntry>, next: seq<FolderEntry>, r: seq<FolderEntry>)
    requires |es| > 0
    requires next == if HasPair(folders, es[0]) then folders else folders + [es[0]]
    requires IsPrefix(folders, r) && IsPrefix(next, r)
    requires forall k | |next| <= k < |r| :: r[k] in es && !HasPair(r[..k], r[k])
    requires next != folders ==> r[|folders|] == es[0] && r[..|folders|] == folders
    ensures forall k | |folders| <= k < |r| :: r[k] in es && !HasPair(r[..k], r[k])
  {
    forall k | |folders| <= k < |r|
      ensures r[k] in es && !HasPair(r[..k], r[k])
    {
      if k < |next| {
        assert k == |folders| && next != folders;
        assert es[0] in es;
      }
    }
  }

  /** The entry pushed onto `folders` stays where it was pushed, and it was new there. */
  lemma AppendedFirst(folders: seq<FolderEntry>, e: FolderEntry, r: seq<FolderEntry>)
    requires !HasPair(folders, e) && IsPrefix(folders + [e], r)
    ensures IsPrefix(folders, r) && r[|folders|] == e && r[..|folders|] == folders
  {
    assert r[..|folders|] == r[..|folders| + 1][..|folders|];
    assert r[|folders|] == r[..|folders| + 1][|folders|];
  }

  /** What holds of the tail of `es` holds of `es`. */
  lemma NewAfter(es: seq<FolderEntry>, from: nat, r: seq<FolderEntry>)
    requires |es| > 0
    requires forall e | e in es[1..] :: HasPair(r, e)
    requires forall k | from <= k < |r| :: r[k] in es[1..]
    requires HasPair(r, es[0])
    ensures forall e | e in es :: HasPair(r, e)
    ensures forall k | from <= k < |r| :: r[k] in es
  {
    forall e | e in es
      ensures HasPair(r, e)
    {
      if e != es[0] {
        var j :| 0 <= j < |es| && es[j] == e;
        assert es[1..][j - 1] == e;
      }
    }
    forall k | from <= k < |r|
      ensures r[k] in es
    {
      var j :| 0 <= j < |es[1..]| && es[1..][j] == r[k];
      assert es[j + 1] == r[k];
    }
  }

  /** The node a listed folder of `base` becomes when it is a child. */
  function NewChild(ctx: Context, base: Url, f: ParseDirectory.Listed): FolderNode {
    FolderNode(FolderEntryOf(ctx, base, f), [], [])
  }

  /** The new nodes the listed folders of `base` give: one empty node per
      folder whose role is child, in listing order. */
  function ChildNodes(ctx: Context, base: Url, fs: seq<ParseDirectory.Listed>): (r: seq<FolderNode>)
    ensures forall f | f in fs && RoleOf(ctx, f.url) == ChildRole :: NewChild(ctx, base, f) in r
    ensures forall n | n in r :: n.entry.role == ChildRole && n.children == [] && n.files == []
                                 && exists f | f in fs :: n == NewChild(ctx, base, f)
    decreases |fs|
  {
    if |fs| == 0 then []
    else
      var head := if RoleOf(ctx, fs[0].url) == ChildRole then [NewChild(ctx, base, fs[0])] else [];
      var rest := ChildNodes(ctx, base, fs[1..]);
      forall f | f in fs && RoleOf(ctx, f.url) == ChildRole
        ensures NewChild(ctx, base, f) in head + rest
      {
        if f != fs[0] {
          assert f in fs[1..];
        }
      }
      forall n | n in head + rest
        ensures exists f | f in fs :: n == NewChild(ctx, base, f)
      {
        if n !in head {
          var f :| f in fs[1..] && n == NewChild(ctx, base, f);
          assert f in fs;
        } else {
          assert fs[0] in fs;
        }
      }
      head + rest
  }

  /** The loop over the listed folders. */
  function AddFolders(ctx: Context, cur: FolderNode, fs: seq<ParseDirectory.Listed>, st: State)
    : (r: (FolderNode, State))
    ensures r.1 == st.(allFolders := r.1.allFolders, safetyCount := st.safetyCount + |fs|)
    ensures r.0 == cur.(children := r.0.children)
    ensures r.0.children == cur.children + ChildNodes(ctx, cur.entry.url, fs)
    ensures r.1.allFolders == AppendNew(st.allFolders, FolderEntries(ctx, cur.entry.url, fs))
    decreases |fs|
  {
    if |fs| == 0 then
      assert cur.children + [] == cur.children;
      (cur, st)
    else
      var next := AddFolder(ctx, cur, fs[0], st);
      var r := AddFolders(ctx, next.0, fs[1..], next.1);
      assert next.0.entry == cur.entry;
      FirstFolder(ctx, cur.entry.url, fs, st.allFolders, next.1.allFolders);
      FirstChild(ctx, cur.entry.url, fs, cur.children, next.0.children, r.0.children);
      r
  }

  /** `AppendNew` over the listed folders takes the first, then the rest. */
  lemma FirstFolder(ctx: Context, base: Url, fs: seq<ParseDirectory.Listed>, folders: seq<FolderEntry>,
                    next: seq<FolderEntry>)
    requires |fs| > 0
    requires HasPair(folders, FolderEntryOf(ctx, base, fs[0])) ==> next == folders
    requires !HasPair(folders, FolderEntryOf(ctx, base, fs[0])) ==> next == folders + [FolderEntryOf(ctx, base, fs[0])]
    ensures AppendNew(folders, FolderEntries(ctx, base, fs)) == AppendNew(next, FolderEntries(ctx, base, fs[1..]))
  {
    var es := FolderEntries(ctx, base, fs);
    assert es[1..] == FolderEntries(ctx, base, fs[1..]);
  }

  /** The child nodes of the listed folders: the first one's, then the rest's. */
  lemma FirstChild(ctx: Context, base: Url, fs: seq<ParseDirectory.Listed>, children: seq<FolderNode>,
                   next: seq<FolderNode>, r: seq<FolderNode>)
    requires |fs| > 0
    requires RoleOf(ctx, fs[0].url) == ChildRole ==> next == children + [NewChild(ctx, base, fs[0])]
    requires RoleOf(ctx, fs[0].url) != ChildRole ==> next == children
    requires r == next + ChildNodes(ctx, base, fs[1..])
    ensures r == children + ChildNodes(ctx, base, fs)
  {
    var head := if RoleOf(ctx, fs[0].url) == ChildRole then [NewChild(ctx, base, fs[0])] else [];
    assert next == children + head;
    assert ChildNodes(ctx, base, fs) == head + ChildNodes(ctx, base, fs[1..]);
    AppendAssoc(children, head, ChildNodes(ctx, base, fs[1..]));
  }

  /** The loop over the listed folders only appends: entries whose URL and
      role are new, and new empty child nodes. */
  lemma AddFoldersGrows(ctx: Context, cur: FolderNode, fs: seq<ParseDirectory.Listed>, st: State)
    ensures var r := AddFolders(ctx, cur, fs, st);
            IsPrefix(st.allFolders, r.1.allFolders) && IsPrefix(cur.children, r.0.children)
            && FreshChildren(cur.children, r.0.children)
            && (UniquePairs(st.allFolders) ==> UniquePairs(r.1.allFolders))
  {
    AppendedChildren(cur.children, ChildNodes(ctx, cur.entry.url, fs));
  }

  /** Appending empty child nodes keeps the old children as a prefix. */
  lemma AppendedChildren(before: seq<FolderNode>, added: seq<FolderNode>)
    requires forall n | n in added :: n.entry.role == ChildRole && n.children == [] && n.files == []
    ensures IsPrefix(before, before + added) && FreshChildren(before, before + added)
  {
    var all := before + added;
    assert all[..|before|] == before;
    forall k | |before| <= k < |all|
      ensures all[k].entry.role == ChildRole && all[k].children == [] && all[k].files == []
    {
      assert all[k] == added[k - |before|];
      assert added[k - |before|] in added;
    }
  }

  lemma HasPairGrows(a: seq<FolderEntry>, b: seq<FolderEntry>, e: FolderEntry)
    requires IsPrefix(a, b) && HasPair(a, e)
    ensures HasPair(b, e)
  {
    var x :| x in a && Urls.Href(x.url) == Urls.Href(e.url) && x.role == e.role;
    var i :| 0 <= i < |a| && a[i] == x;
    assert b[..|a|][i] == b[i];
  }

  /** Every listed folder ends up recorded in its role, by it or by an earlier entry. */
  lemma AddFoldersCovers(ctx: Context, cur: FolderNode, fs: seq<ParseDirectory.Listed>, st: State)
    ensures forall k | 0 <= k < |fs| ::
              HasPair(AddFolders(ctx, cur, fs, st).1.allFolders, FolderEntryOf(ctx, cur.entry.url, fs[k]))
  {
    var es := FolderEntries(ctx, cur.entry.url, fs);
    forall k | 0 <= k < |fs|
      ensures es[k] in es
    {
    }
  }

  /** New children of a node are empty child nodes, so the tree stays well formed. */
  lemma AddFoldersTree(ctx: Context, cur: FolderNode, fs: seq<ParseDirectory.Listed>, st: State, count: nat)
    requires TreeOk(cur, count)
    ensures TreeOk(AddFolders(ctx, cur, fs, st).0, count)
  {
    var r := AddFolders(ctx, cur, fs, st).0;
    var added := ChildNodes(ctx, cur.entry.url, fs);
    forall c | c in r.children
      ensures c.entry.role == ChildRole && TreeOk(c, count)
    {
      if c !in cur.children {
        assert c in added;
      }
    }
  }

  /** The file entries of the listed files, in order. */
  function FileEntries(fs: seq<ParseDirectory.Listed>): (r: seq<FileEntry>)
    ensures |r| == |fs| && forall k | 0 <= k < |fs| :: r[k] == FileEntryOf(fs[k])
  {
    if |fs| == 0 then [] else [FileEntryOf(fs[0])] + FileEntries(fs[1..])
  }

  /** `lo, lo + 1, ..., lo + n - 1` */
  function Range(lo: nat, n: nat): (r: seq<nat>)
    ensures |r| == n && forall k | 0 <= k < n :: r[k] == lo + k
    decreases n
  {
    if n == 0 then [] else [lo] + Range(lo + 1, n - 1)
  }

  /** The loop over the listed files, one file at a time in `FileEntries`
      and `Range`: the flat list gains their entries and `cur` their
      positions in it, so the two share each file. */
  function AddFiles(cur: FolderNode, fs: seq<ParseDirectory.Listed>, st: State): (FolderNode, State) {
    (cur.(files := cur.files + Range(|st.allFiles|, |fs|)),
     st.(allFiles := st.allFiles + FileEntries(fs), safetyCount := st.safetyCount + |fs|))
  }

  /** The positions a node records point at the entries of its files. */
  lemma AddFilesShared(cur: FolderNode, fs: seq<ParseDirectory.Listed>, st: State)
    ensures var r := AddFiles(cur, fs, st);
            forall k | 0 <= k < |fs| :: r.1.allFiles[r.0.files[|cur.files| + k]] == FileEntryOf(fs[k])
  {
  }

  /** The files of a node stay in range of the flat list as both grow together. */
  lemma AddFilesTree(cur: FolderNode, fs: seq<ParseDirectory.Listed>, st: State)
    requires TreeOk(cur, |st.allFiles|)
    ensures TreeOk(AddFiles(cur, fs, st).0, |AddFiles(cur, fs, st).1.allFiles|)
  {
    var r := AddFiles(cur, fs, st);
    TreeOkGrows(cur, |st.allFiles|, |r.1.allFiles|);
    forall i | i in r.0.files
      ensures i < |r.1.allFiles|
    {
      var j :| 0 <= j < |r.0.files| && r.0.files[j] == i;
      if j < |cur.files| {
        assert cur.files[j] in cur.files;
      }
    }
  }

  lemma NoUrlNoPair(folders: seq<FolderEntry>, e: FolderEntry)
    requires !HasUrl(folders, Urls.Href(e.url))
    ensures !HasPair(folders, e)
  {
  }

  lemma HasUrlGrows(a: seq<FolderEntry>, b: seq<FolderEntry>, href: string)
    requires IsPrefix(a, b) && HasUrl(a, href)
    ensures HasUrl(b, href)
  {
    var x :| x in a && Urls.Href(x.url) == href;
    var i :| 0 <= i < |a| && a[i] == x;
    assert b[..|a|][i] == b[i];
  }

  /** A placeholder folder for `u`, added unless some entry already has its URL. */
  function AddPlaceholder(st: State, u: Url, role: Role): (r: State)
    ensures r == st.(allFolders := r.allFolders, safetyCount := r.safetyCount)
    ensures HasUrl(st.allFolders, Urls.Href(u)) ==> r == st
    ensures !HasUrl(st.allFolders, Urls.Href(u)) ==>
              r.allFolders == st.allFolders + [EmptyNode(u, 0, role).entry]
              && r.safetyCount == st.safetyCount + 1
    ensures HasUrl(r.allFolders, Urls.Href(u)) && IsPrefix(st.allFolders, r.allFolders)
    ensures UniquePairs(st.allFolders) ==> UniquePairs(r.allFolders)
  {
    if HasUrl(st.allFolders, Urls.Href(u)) then
      assert st.allFolders[..|st.allFolders|] == st.allFolders;
      st
    else
      var e := EmptyNode(u, 0, role).entry;
      NoUrlNoPair(st.allFolders, e);
      PushPair(st.allFolders, e);
      assert (st.allFolders + [e])[|st.allFolders|] == e;
      st.(allFolders := st.allFolders + [e], safetyCount := st.safetyCount + 1)
  }

  /** The placeholders `loadDirectory` adds for the starting directory: the
      root, then the parent. */
  function Placeholders(ctx: Context, st: State): (r: State)
    ensures r == st.(allFolders := r.allFolders, safetyCount := r.safetyCount)
    ensures IsPrefix(st.allFolders, r.allFolders) && |r.allFolders| <= |st.allFolders| + 2
    ensures r.safetyCount == st.safetyCount + (|r.allFolders| - |st.allFolders|)
    ensures HasUrl(r.allFolders, Urls.Href(ctx.root))
    ensures ctx.parent.Some? ==> HasUrl(r.allFolders, Urls.Href(ctx.parent.value))
    ensures UniquePairs(st.allFolders) ==> UniquePairs(r.allFolders)
  {
    var st1 := AddPlaceholder(st, ctx.root, RootRole);
    match ctx.parent
    case None => st1
    case Some(p) =>
      var st2 := AddPlaceholder(st1, p, ParentRole);
      HasUrlGrows(st1.allFolders, st2.allFolders, Urls.Href(ctx.root));
      PrefixTransitive(st.allFolders, st1.allFolders, st2.allFolders);
      st2
  }

  /** What `loadDirectory` records from a parsed listing of `cur`. */
  function Record(ctx: Context, cur: FolderNode, p: ParseDirectory.Parsed, st: State): (r: (FolderNode, State))
    ensures r.1 == st.(allFolders := r.1.allFolders, allFiles := r.1.allFiles, safetyCount := r.1.safetyCount)
    ensures r.0.entry == cur.entry && FreshChildren(cur.children, r.0.children)
    ensures IsPrefix(st.allFolders, r.1.allFolders) && r.1.allFiles == st.allFiles + FileEntries(p.files)
    ensures st.safetyCount + |p.folders| + |p.files| <= r.1.safetyCount
    ensures r.1.safetyCount <= st.safetyCount + |p.folders| + |p.files| + (if cur.entry.role == SelfRole then 2 else 0)
    ensures TreeOk(cur, |st.allFiles|) ==> TreeOk(r.0, |r.1.allFiles|)
    ensures UniquePairs(st.allFolders) ==> UniquePairs(r.1.allFolders)
    ensures cur.entry.role == SelfRole ==>
              HasUrl(r.1.allFolders, Urls.Href(ctx.root))
              && (ctx.parent.Some? ==> HasUrl(r.1.allFolders, Urls.Href(ctx.parent.value)))
    ensures r.0.children == cur.children + ChildNodes(ctx, cur.entry.url, p.folders)
    ensures r.0.files == cur.files + Range(|st.allFiles|, |p.files|)
    ensures var listed := AppendNew(st.allFolders, FolderEntries(ctx, cur.entry.url, p.folders));
            (cur.entry.role != SelfRole ==> r.1.allFolders == listed)
            && (cur.entry.role == SelfRole ==> IsPrefix(listed, r.1.allFolders) && |r.1.allFolders| <= |listed| + 2)
  {
    var (c1, st1) := AddFolders(ctx, cur, p.folders, st);
    AddFoldersGrows(ctx, cur, p.folders, st);
    var (c2, st2) := AddFiles(c1, p.files, st1);
    assert TreeOk(cur, |st.allFiles|) ==> TreeOk(c2, |st2.allFiles|) by {
      if TreeOk(cur, |st.allFiles|) {
        AddFoldersTree(ctx, cur, p.folders, st, |st.allFiles|);
        AddFilesTree(c1, p.files, st1);
      }
    }
    if cur.entry.role == SelfRole then
      var st3 := Placeholders(ctx, st2);
      PrefixTransitive(st.allFolders, st2.allFolders, st3.allFolders);
      (c2, st3)
    else (c2, st2)
  }

  /** What a load of `cur` leaves: the key traced, nothing else visited. */
  predicate LoadedOnce(st: State, key: string, after: State) {
    after.loaded == st.loaded + [key] && after.visited == st.visited
    && after.maxDepthEncountered == st.maxDepthEncountered && Grows(st, after) && TraceOk(after)
  }

  /** `loadDirectory(current)`. Past the entry limit it only records the
      limit error; otherwise a failed load or parse abandons the crawl, and
      a parsed listing has its errors, folders and files recorded. */
  function LoadDirectory(ctx: Context, cur: FolderNode, st: State): (r: Result<(FolderNode, State), Crash>)
    requires TraceOk(st)
    requires Urls.KeyForVisited(cur.entry.url) in st.visited
    requires Urls.KeyForVisited(cur.entry.url) !in st.loaded
    ensures st.safetyCount > EntryLimit ==>
              r == Success((cur, st.(loaded := st.loaded + [Urls.KeyForVisited(cur.entry.url)],
                                     errors := st.errors + [LimitError])))
    ensures st.safetyCount <= EntryLimit ==>
              (r.Failure? <==> Listing(ctx.opts, ctx.web, cur.entry.url, st.stats).0.Failure?)
    ensures st.safetyCount <= EntryLimit && r.Success? ==>
              var listing := Listing(ctx.opts, ctx.web, cur.entry.url, st.stats);
              r.value == Record(ctx, cur, listing.0.value,
                                st.(loaded := st.loaded + [Urls.KeyForVisited(cur.entry.url)], stats := listing.1,
                                    errors := st.errors + listing.0.value.errors))
    ensures r.Success? ==>
              LoadedOnce(st, Urls.KeyForVisited(cur.entry.url), r.value.1) && r.value.0.entry == cur.entry
              && FreshChildren(cur.children, r.value.0.children)
    ensures r.Success? && TreeOk(cur, |st.allFiles|) ==> TreeOk(r.value.0, |r.value.1.allFiles|)
    ensures r.Success? && UniquePairs(st.allFolders) ==> UniquePairs(r.value.1.allFolders)
  {
    var key := Urls.KeyForVisited(cur.entry.url);
    var st0 := st.(loaded := st.loaded + [key]);
    assert TraceOk(st0);
    assert IsPrefix(st.loaded, st0.loaded);
    if st.safetyCount > EntryLimit then
      assert IsPrefix(st.errors, st.errors + [LimitError]);
      Success((cur, st0.(errors := st.errors + [LimitError])))
    else
      var listing := Listing(ctx.opts, ctx.web, cur.entry.url, st.stats);
      match listing.0
      case Failure(c) => Failure(c)
      case Success(parsed) =>
        var st1 := st0.(stats := listing.1, errors := st.errors + parsed.errors);
        assert IsPrefix(st.errors, st1.errors);
        Success(Record(ctx, cur, parsed, st1))
  }

  /** Past the entry limit a load reads nothing and records only the limit error. */
  lemma LimitStopsLoading(ctx: Context, cur: FolderNode, st: State)
    requires TraceOk(st) && st.safetyCount > EntryLimit
    requires Urls.KeyForVisited(cur.entry.url) in st.visited
    requires Urls.KeyForVisited(cur.entry.url) !in st.loaded
    ensures var r := LoadDirectory(ctx, cur, st);
            r.Success? && r.value.0 == cur && r.value.1.stats == st.stats
            && r.value.1.allFolders == st.allFolders && r.value.1.allFiles == st.allFiles
            && r.value.1.safetyCount == st.safetyCount
            && r.value.1.errors == st.errors + [LimitError]
  {
  }

  /** Below the limit, a successful load records the listing's errors and
      files after the earlier ones, counts every listed entry towards the
      limit, and for the starting directory leaves its root and parent
      recorded. */
  lemma LoadRecordsListing(ctx: Context, cur: FolderNode, st: State)
    requires TraceOk(st) && st.safetyCount <= EntryLimit
    requires Urls.KeyForVisited(cur.entry.url) in st.visited
    requires Urls.KeyForVisited(cur.entry.url) !in st.loaded
    requires LoadDirectory(ctx, cur, st).Success?
    ensures var s := LoadDirectory(ctx, cur, st).value.1;
            var listing := Listing(ctx.opts, ctx.web, cur.entry.url, st.stats);
            var p := listing.0.value;
            s.stats == listing.1 && s.errors == st.errors + p.errors
            && s.allFiles == st.allFiles + FileEntries(p.files)
            && st.safetyCount + |p.folders| + |p.files| <= s.safetyCount
            && s.safetyCount <= st.safetyCount + |p.folders| + |p.files| + 2
            && (cur.entry.role != SelfRole ==> s.safetyCount == st.safetyCount + |p.folders| + |p.files|)
            && (cur.entry.role == SelfRole ==>
                  HasUrl(s.allFolders, Urls.Href(ctx.root))
                  && (ctx.parent.Some? ==> HasUrl(s.allFolders, Urls.Href(ctx.parent.value))))
  {
  }

  // ---------------------------------------------------------------------
  // dfs
  // ---------------------------------------------------------------------

  function Budget(ctx: Context, depth: nat): nat {
    if depth >= ctx.opts.maxDepth then 0 else ctx.opts.maxDepth - depth
  }

  /** `dfs(current, currentDepth)`: records the depth reached and, above the
      depth limit, expands the children of `node`. */
  function Dfs(ctx: Context, node: FolderNode, depth: nat, st: State): (r: Result<(FolderNode, State), Crash>)
    requires depth <= ctx.opts.maxDepth
    requires TraceOk(st) && TreeOk(node, |st.allFiles|)
    ensures depth >= ctx.opts.maxDepth ==>
              r == Success((node, st.(maxDepthEncountered := Max(st.maxDepthEncountered, depth))))
    ensures r.Success? ==>
              Progress(st, r.value.1) && TreeOk(r.value.0, |r.value.1.allFiles|)
              && r.value.0.entry == node.entry
              && depth <= r.value.1.maxDepthEncountered <= Max(st.maxDepthEncountered, ctx.opts.maxDepth)
    ensures r.Success? ==> r.value.0.files == node.files && SameEntries(r.value.0.children, node.children)
    ensures r.Success? && depth < ctx.opts.maxDepth ==> Reached(r.value.0.children, r.value.1)
    ensures r.Success? && UniquePairs(st.allFolders) ==> UniquePairs(r.value.1.allFolders)
    decreases Budget(ctx, depth), 1, 0
  {
    var st1 := st.(maxDepthEncountered := Max(st.maxDepthEncountered, depth));
    assert Progress(st, st1);
    if depth >= ctx.opts.maxDepth then Success((node, st1))
    else
      var expanded :- Children(ctx, node.children, depth, st1);
      Expanded(node, depth, ctx.opts.maxDepth, st, st1, expanded.0, expanded.1);
      ReachedSame(node.children, expanded.0, expanded.1);
      Success((node.(children := expanded.0), expanded.1))
  }

  /** What `dfs` concludes once the loop over the children of `node` has
      run from `st1`, the state with the depth recorded. */
  lemma Expanded(node: FolderNode, depth: nat, maxDepth: nat, st: State, st1: State,
                 kids: seq<FolderNode>, after: State)
    requires depth < maxDepth && TreeOk(node, |st.allFiles|)
    requires st1 == st.(maxDepthEncountered := Max(st.maxDepthEncountered, depth)) && Progress(st, st1)
    requires AllChildren(kids, |after.allFiles|) && Progress(st1, after)
    requires after.maxDepthEncountered <= Max(st1.maxDepthEncountered, maxDepth)
    ensures Progress(st, after) && TreeOk(node.(children := kids), |after.allFiles|)
    ensures depth <= after.maxDepthEncountered <= Max(st.maxDepthEncountered, maxDepth)
  {
    ProgressTransitive(st, st1, after);
  }

  /** Nodes standing for the same entries are reached alike. */
  lemma ReachedSame(kids: seq<FolderNode>, nodes: seq<FolderNode>, after: State)
    requires SameEntries(nodes, kids) && Reached(kids, after)
    ensures Reached(nodes, after)
  {
    forall k | 0 <= k < |nodes| && nodes[k].entry.role == ChildRole
      ensures Urls.KeyForVisited(nodes[k].entry.url) in after.visited
    {
      assert nodes[k].entry == kids[k].entry;
    }
  }

  /** One child of the loop in `dfs`, not yet visited: marked visited,
      loaded, and expanded one level deeper. */
  function Visit(ctx: Context, child: FolderNode, depth: nat, st: State): (r: Result<(FolderNode, State), Crash>)
    requires depth < ctx.opts.maxDepth
    requires TraceOk(st) && TreeOk(child, |st.allFiles|)
    requires Urls.KeyForVisited(child.entry.url) !in st.visited
    ensures r.Success? ==>
              Progress(st, r.value.1) && TreeOk(r.value.0, |r.value.1.allFiles|)
              && r.value.0.entry == child.entry
              && r.value.1.maxDepthEncountered <= Max(st.maxDepthEncountered, ctx.opts.maxDepth)
    ensures r.Success? ==>
              var key := Urls.KeyForVisited(child.entry.url);
              key in r.value.1.visited && |r.value.1.loaded| > |st.loaded| && r.value.1.loaded[|st.loaded|] == key
    ensures r.Success? && UniquePairs(st.allFolders) ==> UniquePairs(r.value.1.allFolders)
    ensures r.Success? ==>
              var loaded := LoadDirectory(ctx, child, st.(visited := st.visited + {Urls.KeyForVisited(child.entry.url)}));
              loaded.Success? && r.value.0.files == loaded.value.0.files
              && SameEntries(r.value.0.children, loaded.value.0.children)
    ensures r.Success? && depth + 1 < ctx.opts.maxDepth ==> Reached(r.value.0.children, r.value.1)
    decreases Budget(ctx, depth), 0, 0
  {
    var key := Urls.KeyForVisited(child.entry.url);
    var marked := st.(visited := st.visited + {key});
    var loaded :- LoadDirectory(ctx, child, marked);
    var expanded :- Dfs(ctx, loaded.0, depth + 1, loaded.1);
    VisitedState(st, key, loaded.1, expanded.1);
    Success(expanded)
  }

  /** Marking `key` visited and loading it, then going on to `after`: the
      state moved forward and `key` was the first directory loaded. */
  lemma VisitedState(st: State, key: string, mid: State, after: State)
    requires TraceOk(st) && key !in st.visited
    requires LoadedOnce(st.(visited := st.visited + {key}), key, mid) && Progress(mid, after)
    ensures Progress(st, after) && key in after.visited
    ensures |after.loaded| > |st.loaded| && after.loaded[|st.loaded|] == key
  {
    assert Progress(st, mid);
    ProgressTransitive(st, mid, after);
    assert after.loaded[|st.loaded|] == after.loaded[..|mid.loaded|][|st.loaded|];
  }

  /** Every child folder among `kids` is marked visited in `after`. */
  predicate Reached(kids: seq<FolderNode>, after: State) {
    forall k | 0 <= k < |kids| && kids[k].entry.role == ChildRole ::
      Urls.KeyForVisited(kids[k].entry.url) in after.visited
  }

  /** The nodes stand for `kids`, one for one. */
  predicate SameEntries(nodes: seq<FolderNode>, kids: seq<FolderNode>) {
    |nodes| == |kids| && forall k | 0 <= k < |kids| :: nodes[k].entry == kids[k].entry
  }

  lemma ConsKids(x: FolderNode, rest: seq<FolderNode>, kids: seq<FolderNode>, count: nat)
    requires |kids| > 0 && x.entry == kids[0].entry && x.entry.role == ChildRole && TreeOk(x, count)
    requires SameEntries(rest, kids[1..]) && AllChildren(rest, count)
    ensures SameEntries([x] + rest, kids) && AllChildren([x] + rest, count)
  {
    var out := [x] + rest;
    forall c | c in out
      ensures c.entry.role == ChildRole && TreeOk(c, count)
    {
      if c != x {
        assert c in rest;
      }
    }
    forall k | 1 <= k < |kids|
      ensures out[k].entry == kids[k].entry
    {
      assert out[k] == rest[k - 1] && kids[k] == kids[1..][k - 1];
    }
  }

  /** A kid the loop of `dfs` passes over in `st`: not a child folder, or
      already visited. */
  predicate Skipped(kid: FolderNode, st: State) {
    kid.entry.role != ChildRole || Urls.KeyForVisited(kid.entry.url) in st.visited
  }

  /** Every kid passed over in `st` comes out as it went in. */
  predicate KeepsSkipped(kids: seq<FolderNode>, out: seq<FolderNode>, st: State) {
    |out| == |kids| && forall k | 0 <= k < |kids| && Skipped(kids[k], st) :: out[k] == kids[k]
  }

  /** A loop whose every kid is passed over returns the kids and the state
      as they were: passing over adds no error and loads nothing. */
  lemma {:induction false} ChildrenSkipAll(ctx: Context, kids: seq<FolderNode>, depth: nat, st: State)
    requires depth < ctx.opts.maxDepth
    requires TraceOk(st) && AllChildren(kids, |st.allFiles|)
    requires forall k | 0 <= k < |kids| :: Skipped(kids[k], st)
    ensures Children(ctx, kids, depth, st) == Success((kids, st))
    decreases |kids|
  {
    if |kids| > 0 {
      AllSkippedSplit(kids, st);
      AllChildrenSplit(kids, |st.allFiles|);
      ChildrenSkipAll(ctx, kids[1..], depth, st);
    }
  }

  /** The first kid's outcome before the rest's, where the rest was run from
      a state that had visited at least what `st` had. */
  lemma KeptCons(kids: seq<FolderNode>, x: FolderNode, rest: seq<FolderNode>, st: State, mid: State)
    requires |kids| > 0 && KeepsSkipped(kids[1..], rest, mid) && st.visited <= mid.visited
    requires Skipped(kids[0], st) ==> x == kids[0]
    ensures KeepsSkipped(kids, [x] + rest, st)
  {
    forall k | 0 <= k < |kids| && Skipped(kids[k], st)
      ensures ([x] + rest)[k] == kids[k]
    {
      if k > 0 {
        assert kids[k] == kids[1..][k - 1] && Skipped(kids[1..][k - 1], mid);
      }
    }
  }

  /** When every kid is passed over, so is every kid after the first. */
  lemma AllSkippedSplit(kids: seq<FolderNode>, st: State)
    requires |kids| > 0
    ensures (forall k | 0 <= k < |kids| :: Skipped(kids[k], st)) ==>
              Skipped(kids[0], st) && forall k | 0 <= k < |kids[1..]| :: Skipped(kids[1..][k], st)
    ensures [kids[0]] + kids[1..] == kids
  {
    if forall k | 0 <= k < |kids| :: Skipped(kids[k], st) {
      forall k | 0 <= k < |kids[1..]|
        ensures Skipped(kids[1..][k], st)
      {
        assert kids[1..][k] == kids[k + 1];
      }
    }
  }

  /** The loop of `dfs` over the children from `kids` on: non-child nodes and
      visited directories are passed over, unchanged and with no error. */
  function Children(ctx: Context, kids: seq<FolderNode>, depth: nat, st: State)
    : (r: Result<(seq<FolderNode>, State), Crash>)
    requires depth < ctx.opts.maxDepth
    requires TraceOk(st) && AllChildren(kids, |st.allFiles|)
    ensures r.Success? ==>
              SameEntries(r.value.0, kids) && AllChildren(r.value.0, |r.value.1.allFiles|) && Progress(st, r.value.1)
              && r.value.1.maxDepthEncountered <= Max(st.maxDepthEncountered, ctx.opts.maxDepth)
    ensures r.Success? ==> Reached(kids, r.value.1)
    ensures r.Success? && UniquePairs(st.allFolders) ==> UniquePairs(r.value.1.allFolders)
    ensures r.Success? ==> KeepsSkipped(kids, r.value.0, st)
    decreases Budget(ctx, depth), 0, |kids|
  {
    if |kids| == 0 then
      assert Progress(st, st);
      Success(([], st))
    else
      var child := kids[0];
      AllChildrenSplit(kids, |st.allFiles|);
      if Skipped(child, st) then
        var rest :- Children(ctx, kids[1..], depth, st);
        PassedOver(kids, st, rest.0, rest.1);
        KeptCons(kids, child, rest.0, st, st);
        Success(([child] + rest.0, rest.1))
      else
        var visited :- Visit(ctx, child, depth, st);
        AllChildrenGrows(kids[1..], |st.allFiles|, |visited.1.allFiles|);
        var rest :- Children(ctx, kids[1..], depth, visited.1);
        Descended(kids, ctx.opts.maxDepth, st, visited.0, visited.1, rest.0, rest.1);
        KeptCons(kids, visited.0, rest.0, st, visited.1);
        Success(([visited.0] + rest.0, rest.1))
  }

  /** The first child reached once `mid` holds it, the rest as the loop reached them. */
  lemma ReachedCons(kids: seq<FolderNode>, mid: State, after: State)
    requires |kids| > 0 && Reached(kids[1..], after) && mid.visited <= after.visited
    requires kids[0].entry.role == ChildRole ==> Urls.KeyForVisited(kids[0].entry.url) in mid.visited
    ensures Reached(kids, after)
  {
    forall k | 1 <= k < |kids| && kids[k].entry.role == ChildRole
      ensures Urls.KeyForVisited(kids[k].entry.url) in after.visited
    {
      assert kids[k] == kids[1..][k - 1];
    }
  }

  /** The first child kept as it is, before the nodes the rest of the loop gave. */
  lemma PassedOver(kids: seq<FolderNode>, st: State, rest: seq<FolderNode>, after: State)
    requires |kids| > 0 && AllChildren(kids, |st.allFiles|)
    requires SameEntries(rest, kids[1..]) && AllChildren(rest, |after.allFiles|) && Progress(st, after)
    requires Reached(kids[1..], after)
    requires kids[0].entry.role == ChildRole ==> Urls.KeyForVisited(kids[0].entry.url) in st.visited
    ensures SameEntries([kids[0]] + rest, kids) && AllChildren([kids[0]] + rest, |after.allFiles|)
    ensures Reached(kids, after)
  {
    ReachedCons(kids, st, after);
    AllChildrenSplit(kids, |st.allFiles|);
    TreeOkGrows(kids[0], |st.allFiles|, |after.allFiles|);
    ConsKids(kids[0], rest, kids, |after.allFiles|);
  }

  /** The first child visited, giving `x` in `mid`, before the nodes the rest
      of the loop gave from `mid` on. */
  lemma Descended(kids: seq<FolderNode>, maxDepth: nat, st: State, x: FolderNode, mid: State,
                  rest: seq<FolderNode>, after: State)
    requires |kids| > 0 && AllChildren(kids, |st.allFiles|)
    requires x.entry == kids[0].entry && TreeOk(x, |mid.allFiles|) && Progress(st, mid)
    requires mid.maxDepthEncountered <= Max(st.maxDepthEncountered, maxDepth)
    requires SameEntries(rest, kids[1..]) && AllChildren(rest, |after.allFiles|) && Progress(mid, after)
    requires after.maxDepthEncountered <= Max(mid.maxDepthEncountered, maxDepth)
    requires Reached(kids[1..], after) && Urls.KeyForVisited(kids[0].entry.url) in mid.visited
    ensures SameEntries([x] + rest, kids) && AllChildren([x] + rest, |after.allFiles|) && Progress(st, after)
    ensures after.maxDepthEncountered <= Max(st.maxDepthEncountered, maxDepth)
    ensures Reached(kids, after)
  {
    ReachedCons(kids, mid, after);
    AllChildrenSplit(kids, |st.allFiles|);
    ProgressTransitive(st, mid, after);
    TreeOkGrows(x, |mid.allFiles|, |after.allFiles|);
    ConsKids(x, rest, kids, |after.allFiles|);
  }

  // ---------------------------------------------------------------------
  // traverse
  // ---------------------------------------------------------------------

  /** What the nested functions see for a crawl starting at `u`. */
  function StartContext(opts: Options.NormalizedOptions, web: Web, u: Url): Context {
    Context(opts, web, u, Urls.RootDir(u), Urls.ParentDir(u))
  }

  /** The state once the start is marked visited and recorded as itself. */
  function Started(u: Url, st: State): (r: State)
    ensures Grows(st, r) && r.loaded == st.loaded && r.visited == st.visited + {Urls.KeyForVisited(u)}
    ensures TraceOk(st) ==> TraceOk(r)
  {
    var r := st.(visited := st.visited + {Urls.KeyForVisited(u)},
                 allFolders := st.allFolders + [EmptyNode(u, 0, SelfRole).entry]);
    assert r.allFolders[..|st.allFolders|] == st.allFolders;
    r
  }

  /** The start is the first directory loaded and the first folder
      recorded after `st`. */
  predicate BeganAt(st: State, u: Url, after: State) {
    |after.loaded| > |st.loaded| && after.loaded[|st.loaded|] == Urls.KeyForVisited(u)
    && |after.allFolders| > |st.allFolders| && after.allFolders[|st.allFolders|] == EmptyNode(u, 0, SelfRole).entry
  }

  lemma BeganGrows(st: State, u: Url, a: State, b: State)
    requires BeganAt(st, u, a) && Grows(a, b)
    ensures BeganAt(st, u, b)
  {
    assert b.loaded[..|a.loaded|][|st.loaded|] == b.loaded[|st.loaded|];
    assert b.allFolders[..|a.allFolders|][|st.allFolders|] == b.allFolders[|st.allFolders|];
  }

  /** The root of `u`, and its parent when it has one, are recorded. */
  predicate HoldsPlaceholders(folders: seq<FolderEntry>, u: Url) {
    HasUrl(folders, Urls.RootDirectory(u))
    && (Urls.ParentDirectory(u).Some? ==> HasUrl(folders, Urls.ParentDirectory(u).value))
  }

  lemma PlaceholdersGrow(a: seq<FolderEntry>, b: seq<FolderEntry>, u: Url)
    requires IsPrefix(a, b)
    ensures HoldsPlaceholders(a, u) ==> HoldsPlaceholders(b, u)
  {
    if HoldsPlaceholders(a, u) {
      HasUrlGrows(a, b, Urls.RootDirectory(u));
      if Urls.ParentDirectory(u).Some? {
        HasUrlGrows(a, b, Urls.ParentDirectory(u).value);
      }
    }
  }

  /** Folders a crawl may start from: no URL twice in one role, and no
      starting directory. */
  predicate FreshFolders(folders: seq<FolderEntry>) {
    UniquePairs(folders) && forall x | x in folders :: x.role != SelfRole
  }

  /** The first steps of a crawl from `u`: mark the start visited, record
      it as itself, and load it. */
  function LoadStart(opts: Options.NormalizedOptions, web: Web, u: Url, st: State)
    : (r: Result<(FolderNode, State), Crash>)
    requires TraceOk(st) && Urls.KeyForVisited(u) !in st.visited
    ensures r.Success? ==>
              Progress(st, r.value.1) && TreeOk(r.value.0, |r.value.1.allFiles|)
              && r.value.0.entry == EmptyNode(u, 0, SelfRole).entry
              && r.value.1.maxDepthEncountered == st.maxDepthEncountered
              && BeganAt(st, u, r.value.1)
    ensures r.Success? && st.safetyCount <= EntryLimit ==> HoldsPlaceholders(r.value.1.allFolders, u)
    ensures r.Success? && FreshFolders(st.allFolders) ==> UniquePairs(r.value.1.allFolders)
    ensures r.Success? ==>
              r.value.1.loaded == st.loaded + [Urls.KeyForVisited(u)] && FreshChildren([], r.value.0.children)
    ensures st.safetyCount > EntryLimit ==> r.Success? && r.value.0 == EmptyNode(u, 0, SelfRole)
    ensures st.safetyCount <= EntryLimit ==> (r.Failure? <==> Listing(opts, web, u, st.stats).0.Failure?)
    ensures r.Success? && st.safetyCount <= EntryLimit ==>
              Listing(opts, web, u, st.stats).0.Success?
              && var p := Listing(opts, web, u, st.stats).0.value;
                 r.value.0.children == ChildNodes(StartContext(opts, web, u), u, p.folders)
                 && r.value.0.files == Range(|st.allFiles|, |p.files|)
  {
    StartListing(opts, web, u, st);
    StartProgress(opts, web, u, st);
    StartBegins(opts, web, u, st);
    StartPlaceholders(opts, web, u, st);
    StartUnique(opts, web, u, st);
    LoadDirectory(StartContext(opts, web, u), EmptyNode(u, 0, SelfRole), Started(u, st))
  }

  /** The crawl from a start `u` not yet visited: mark and record it,
      load it, then expand it depth-first. */
  function Crawl(opts: Options.NormalizedOptions, web: Web, u: Url, st: State)
    : (r: Result<(FolderNode, State), Crash>)
    requires TraceOk(st) && Urls.KeyForVisited(u) !in st.visited
    ensures r.Success? ==>
              Progress(st, r.value.1) && TreeOk(r.value.0, |r.value.1.allFiles|)
              && r.value.0.entry == EmptyNode(u, 0, SelfRole).entry
              && r.value.1.maxDepthEncountered <= Max(st.maxDepthEncountered, opts.maxDepth)
              && BeganAt(st, u, r.value.1)
    ensures r.Success? && st.safetyCount <= EntryLimit ==> HoldsPlaceholders(r.value.1.allFolders, u)
    ensures r.Success? && FreshFolders(st.allFolders) ==> UniquePairs(r.value.1.allFolders)
    ensures r.Success? && opts.maxDepth >= 1 ==> Reached(r.value.0.children, r.value.1)
    ensures r.Success? && st.safetyCount > EntryLimit ==> r.value.0.children == [] && r.value.0.files == []
    ensures r.Success? && st.safetyCount <= EntryLimit ==>
              Listing(opts, web, u, st.stats).0.Success?
              && var p := Listing(opts, web, u, st.stats).0.value;
                 SameEntries(r.value.0.children, ChildNodes(StartContext(opts, web, u), u, p.folders))
                 && r.value.0.files == Range(|st.allFiles|, |p.files|)
  {
    var loaded :- LoadStart(opts, web, u, st);
    var done :- Dfs(StartContext(opts, web, u), loaded.0, 0, loaded.1);
    ProgressTransitive(st, loaded.1, done.1);
    BeganGrows(st, u, loaded.1, done.1);
    PlaceholdersGrow(loaded.1.allFolders, done.1.allFolders, u);
    Success(done)
  }

  lemma FirstLoad(st: State, st1: State, key: string, after: State)
    requires Grows(st, st1) && st1.loaded == st.loaded && key !in st.visited
    requires st1.visited == st.visited + {key}
    requires LoadedOnce(st1, key, after)
    ensures Progress(st, after)
  {
    GrowsTransitive(st, st1, after);
  }

  /** `traverse(startUrl, opts, state)`; `parsed` is what `new URL(startUrl)`
      gives. A start already visited is only reported as a loop. */
  function Traverse(opts: Options.NormalizedOptions, web: Web, start: string, parsed: Option<Url>, st: State)
    : (r: Result<(FolderNode, State), Crash>)
    requires TraceOk(st)
    ensures Urls.EnsureHttp(start, parsed).Failure? ==>
              r == Failure(BadStart(Urls.EnsureHttp(start, parsed).error))
    ensures Urls.EnsureHttp(start, parsed).Success? ==>
              var u := Urls.EnsureHttp(start, parsed).value;
              (Urls.KeyForVisited(u) in st.visited ==>
                 r == Success((EmptyNode(u, 0, SelfRole), st.(errors := st.errors + [AlreadyVisited(Urls.Href(u))]))))
              && (Urls.KeyForVisited(u) !in st.visited ==> r == Crawl(opts, web, u, st))
    ensures r.Success? ==>
              Progress(st, r.value.1) && TreeOk(r.value.0, |r.value.1.allFiles|) && r.value.0.entry.role == SelfRole
              && r.value.1.maxDepthEncountered <= Max(st.maxDepthEncountered, opts.maxDepth)
  {
    match Urls.EnsureHttp(start, parsed)
    case Failure(msg) => Failure(BadStart(msg))
    case Success(u) => TraverseFrom(opts, web, u, st)
  }

  /** `traverse` once the start is normalised to `u`. */
  function TraverseFrom(opts: Options.NormalizedOptions, web: Web, u: Url, st: State)
    : (r: Result<(FolderNode, State), Crash>)
    requires TraceOk(st)
    ensures Urls.KeyForVisited(u) in st.visited ==> r == Success(ReportLoop(u, st))
    ensures Urls.KeyForVisited(u) !in st.visited ==> r == Crawl(opts, web, u, st)
    ensures r.Success? ==>
              Progress(st, r.value.1) && TreeOk(r.value.0, |r.value.1.allFiles|) && r.value.0.entry.role == SelfRole
              && r.value.1.maxDepthEncountered <= Max(st.maxDepthEncountered, opts.maxDepth)
  {
    if Urls.KeyForVisited(u) in st.visited then Success(ReportLoop(u, st))
    else
      CrawlSound(opts, web, u, st);
      Crawl(opts, web, u, st)
  }

  /** What `Traverse` promises of a successful crawl, from `Crawl`'s contract. */
  lemma CrawlSound(opts: Options.NormalizedOptions, web: Web, u: Url, st: State)
    requires TraceOk(st) && Urls.KeyForVisited(u) !in st.visited
    ensures var r := Crawl(opts, web, u, st);
            r.Success? ==>
              Progress(st, r.value.1) && TreeOk(r.value.0, |r.value.1.allFiles|) && r.value.0.entry.role == SelfRole
              && r.value.1.maxDepthEncountered <= Max(st.maxDepthEncountered, opts.maxDepth)
  {
  }

  /** A start already visited: its node stands alone and the state only
      gains the loop error. */
  function ReportLoop(u: Url, st: State): (r: (FolderNode, State))
    requires TraceOk(st)
    ensures r.0 == EmptyNode(u, 0, SelfRole)
    ensures r.1 == st.(errors := st.errors + [AlreadyVisited(Urls.Href(u))])
    ensures Progress(st, r.1) && TreeOk(r.0, |r.1.allFiles|)
  {
    var after := st.(errors := st.errors + [AlreadyVisited(Urls.Href(u))]);
    ReportOnly(u, st, after);
    (EmptyNode(u, 0, SelfRole), after)
  }

  /** Reporting a loop only adds an error, and the start's node stands alone. */
  lemma ReportOnly(u: Url, st: State, after: State)
    requires TraceOk(st)
    requires after == st.(errors := after.errors) && IsPrefix(st.errors, after.errors)
    ensures Progress(st, after) && TreeOk(EmptyNode(u, 0, SelfRole), |after.allFiles|)
  {
  }

  /** With depth limit 0 the start is the only directory `loadDirectory` is
      entered on: its child folders are listed but hold nothing. */
  lemma CrawlDepthZero(opts: Options.NormalizedOptions, web: Web, u: Url, st: State)
    requires TraceOk(st) && Urls.KeyForVisited(u) !in st.visited && opts.maxDepth == 0
    requires Crawl(opts, web, u, st).Success?
    ensures Crawl(opts, web, u, st).value.1.loaded == st.loaded + [Urls.KeyForVisited(u)]
    ensures forall c | c in Crawl(opts, web, u, st).value.0.children :: c.children == [] && c.files == []
  {
    var start := LoadStart(opts, web, u, st);
    var done := Dfs(StartContext(opts, web, u), start.value.0, 0, start.value.1);
    assert done.value.0 == start.value.0 && done.value.1.loaded == start.value.1.loaded;
    EmptyChildren(start.value.0.children);
  }

  /** Children freshly listed hold nothing. */
  lemma EmptyChildren(kids: seq<FolderNode>)
    requires FreshChildren([], kids)
    ensures forall c | c in kids :: c.children == [] && c.files == []
  {
    forall c | c in kids
      ensures c.children == [] && c.files == []
    {
      var k :| 0 <= k < |kids| && kids[k] == c;
    }
  }

  /** With depth limit 1 or more `loadDirectory` is entered on every child
      folder of the start, by this crawl or, when it was visited before the
      crawl began, earlier; so from a state whose trace holds all it visited,
      every child ends in the trace. */
  lemma CrawlDepthOne(opts: Options.NormalizedOptions, web: Web, u: Url, st: State)
    requires TraceOk(st) && Urls.KeyForVisited(u) !in st.visited && opts.maxDepth >= 1
    requires Crawl(opts, web, u, st).Success?
    ensures var r := Crawl(opts, web, u, st).value;
            forall c | c in r.0.children ::
              Urls.KeyForVisited(c.entry.url) in r.1.loaded || Urls.KeyForVisited(c.entry.url) in st.visited
    ensures var r := Crawl(opts, web, u, st).value;
            (forall k | k in st.visited :: k in st.loaded) ==>
              forall c | c in r.0.children :: Urls.KeyForVisited(c.entry.url) in r.1.loaded
  {
    var r := Crawl(opts, web, u, st).value;
    forall c | c in r.0.children
      ensures Urls.KeyForVisited(c.entry.url) in r.1.visited
    {
      var k :| 0 <= k < |r.0.children| && r.0.children[k] == c;
    }
    if forall k | k in st.visited :: k in st.loaded {
      forall c | c in r.0.children
        ensures Urls.KeyForVisited(c.entry.url) in r.1.loaded
      {
        var key := Urls.KeyForVisited(c.entry.url);
        if key in st.visited {
          PrefixHas(st.loaded, r.1.loaded, key);
        }
      }
    }
  }

  /** Loading the start moves the state forward without reaching deeper. */
  lemma StartProgress(opts: Options.NormalizedOptions, web: Web, u: Url, st: State)
    requires TraceOk(st) && Urls.KeyForVisited(u) !in st.visited
    ensures var r := LoadDirectory(StartContext(opts, web, u), EmptyNode(u, 0, SelfRole), Started(u, st));
            r.Success? ==>
              Progress(st, r.value.1) && TreeOk(r.value.0, |r.value.1.allFiles|)
              && r.value.0.entry == EmptyNode(u, 0, SelfRole).entry
              && r.value.1.maxDepthEncountered == st.maxDepthEncountered
  {
    var r := LoadDirectory(StartContext(opts, web, u), EmptyNode(u, 0, SelfRole), Started(u, st));
    if r.Success? {
      assert TreeOk(EmptyNode(u, 0, SelfRole), |Started(u, st).allFiles|);
      FirstLoad(st, Started(u, st), Urls.KeyForVisited(u), r.value.1);
    }
  }

  /** Loading the start loads and records it first. */
  lemma StartBegins(opts: Options.NormalizedOptions, web: Web, u: Url, st: State)
    requires TraceOk(st) && Urls.KeyForVisited(u) !in st.visited
    ensures var r := LoadDirectory(StartContext(opts, web, u), EmptyNode(u, 0, SelfRole), Started(u, st));
            r.Success? ==> BeganAt(st, u, r.value.1)
  {
    var st1 := Started(u, st);
    var r := LoadDirectory(StartContext(opts, web, u), EmptyNode(u, 0, SelfRole), st1);
    if r.Success? {
      BeganLoading(st, u, st1, r.value.1);
    }
  }

  lemma BeganLoading(st: State, u: Url, st1: State, after: State)
    requires st1 == Started(u, st)
    requires LoadedOnce(st1, Urls.KeyForVisited(u), after)
    ensures BeganAt(st, u, after)
  {
    assert after.allFolders[..|st1.allFolders|][|st.allFolders|] == after.allFolders[|st.allFolders|];
  }

  /** Below the limit, loading the start records its root and parent. */
  lemma StartPlaceholders(opts: Options.NormalizedOptions, web: Web, u: Url, st: State)
    requires TraceOk(st) && Urls.KeyForVisited(u) !in st.visited
    ensures var r := LoadDirectory(StartContext(opts, web, u), EmptyNode(u, 0, SelfRole), Started(u, st));
            r.Success? && st.safetyCount <= EntryLimit ==> HoldsPlaceholders(r.value.1.allFolders, u)
  {
    var r := LoadDirectory(StartContext(opts, web, u), EmptyNode(u, 0, SelfRole), Started(u, st));
    if r.Success? && st.safetyCount <= EntryLimit {
      LoadRecordsListing(StartContext(opts, web, u), EmptyNode(u, 0, SelfRole), Started(u, st));
    }
  }

  /** The start node holds what its own listing gives: the child folders as
      empty nodes and the files at the end of the flat list. */
  lemma StartListing(opts: Options.NormalizedOptions, web: Web, u: Url, st: State)
    requires TraceOk(st) && Urls.KeyForVisited(u) !in st.visited
    ensures var r := LoadDirectory(StartContext(opts, web, u), EmptyNode(u, 0, SelfRole), Started(u, st));
            (st.safetyCount > EntryLimit ==> r.Success? && r.value.0 == EmptyNode(u, 0, SelfRole))
            && (st.safetyCount <= EntryLimit ==> (r.Failure? <==> Listing(opts, web, u, st.stats).0.Failure?))
            && (r.Success? && st.safetyCount <= EntryLimit ==>
                  Listing(opts, web, u, st.stats).0.Success?
                  && var p := Listing(opts, web, u, st.stats).0.value;
                     r.value.0.children == ChildNodes(StartContext(opts, web, u), u, p.folders)
                     && r.value.0.files == Range(|st.allFiles|, |p.files|))
  {
    var ctx := StartContext(opts, web, u);
    var cur := EmptyNode(u, 0, SelfRole);
    var st1 := Started(u, st);
    assert st1.safetyCount == st.safetyCount && st1.stats == st.stats && st1.allFiles == st.allFiles;
    var r := LoadDirectory(ctx, cur, st1);
    if r.Success? && st.safetyCount <= EntryLimit {
      var p := Listing(opts, web, u, st.stats).0.value;
      assert [] + ChildNodes(ctx, u, p.folders) == ChildNodes(ctx, u, p.folders);
      assert [] + Range(|st.allFiles|, |p.files|) == Range(|st.allFiles|, |p.files|);
    }
  }

  /** Loading the start from folders that hold no pair twice and no start
      records no pair twice. */
  lemma StartUnique(opts: Options.NormalizedOptions, web: Web, u: Url, st: State)
    requires TraceOk(st) && Urls.KeyForVisited(u) !in st.visited
    ensures var r := LoadDirectory(StartContext(opts, web, u), EmptyNode(u, 0, SelfRole), Started(u, st));
            r.Success? && FreshFolders(st.allFolders) ==> UniquePairs(r.value.1.allFolders)
  {
    if FreshFolders(st.allFolders) {
      PushPair(st.allFolders, EmptyNode(u, 0, SelfRole).entry);
    }
  }
}

/** Directory-URL helpers (src/utils/url.ts). A URL is the record of WHATWG
    URL components the crawler reads; parsing a string into that record is a
    browser library and is represented by an already-parsed `Option<Url>`. */
module Urls {
  import opened Wrappers
  import opened Strs
  import Decoding

  /** `protocol` keeps its trailing ':' (as `URL.protocol` does) and `host`
      keeps any port (as `URL.host` does). `query` and `fragment` are the
      text after '?' and '#', absent when the URL has no '?' or '#'. */
  datatype Url = Url(protocol: string, host: string, pathname: string,
                     query: Option<string>, fragment: Option<string>)

  /** The serialisation `URL.toString()` gives for a hierarchical URL with a
      host and no user name or password; the record has no place for those,
      nor for the opaque path of a URL such as `tel:+1`. */
  function Href(u: Url): string {
    u.protocol + "//" + u.host + u.pathname
    + (match u.query case Some(q) => "?" + q case None => "")
    + (match u.fragment case Some(f) => "#" + f case None => "")
  }

  /** A URL naming a directory itself: no query and no fragment. */
  function DirUrl(protocol: string, host: string, pathname: string): Url {
    Url(protocol, host, pathname, None, None)
  }

  /** `pathname.split('/').filter(Boolean)`: the non-empty path segments. */
  function Segments(path: string): seq<string> { NonEmpty(Split(path, '/')) }

  predicate NoDoubleSlash(p: string) {
    forall i :: 0 <= i < |p| - 1 ==> !(p[i] == '/' && p[i + 1] == '/')
  }

  /** `pathname.replace(/\/+/g, '/')`: every run of '/' becomes one '/'. */
  function CollapseSlashes(p: string): (r: string)
    ensures NoDoubleSlash(r)
    ensures |r| <= |p| && (|r| == 0 <==> |p| == 0)
    ensures |p| > 0 ==> r[|r| - 1] == p[|p| - 1]
    decreases |p|
  {
    if |p| == 0 then ""
    else if p[|p| - 1] == '/' && |p| >= 2 && p[|p| - 2] == '/' then CollapseSlashes(p[..|p| - 1])
    else CollapseSlashes(p[..|p| - 1]) + [p[|p| - 1]]
  }

  /** A path that has no run of slashes is left as it is. */
  lemma {:induction false} CollapseSlashesFixed(p: string)
    requires NoDoubleSlash(p)
    ensures CollapseSlashes(p) == p
    decreases |p|
  {
    if |p| > 0 {
      var p' := p[..|p| - 1];
      assert NoDoubleSlash(p');
      CollapseSlashesFixed(p');
      assert p' + [p[|p| - 1]] == p;
    }
  }

  /** Two piece lists agree on their final piece and on their non-empty pieces. */
  predicate SamePieces(a: seq<string>, b: seq<string>) {
    |a| >= 1 && |b| >= 1 && a[|a| - 1] == b[|b| - 1] && NonEmpty(a) == NonEmpty(b)
  }

  lemma NonEmptyOfEmptyPiece()
    ensures NonEmpty([""]) == []
  {
    assert [""][..0] == [];
  }

  /** A trailing empty piece adds nothing to the non-empty pieces. */
  lemma NonEmptyTrailingEmpty(a: seq<string>)
    ensures NonEmpty(a + [""]) == NonEmpty(a)
  {
    NonEmptyAppend(a, [""]);
    NonEmptyOfEmptyPiece();
  }

  /** Collapsing keeps the final piece after the last '/' and the non-empty pieces. */
  lemma {:induction false} CollapseSlashesPieces(p: string)
    ensures SamePieces(Split(CollapseSlashes(p), '/'), Split(p, '/'))
    decreases |p|
  {
    if |p| > 0 {
      var p', c := p[..|p| - 1], p[|p| - 1];
      assert p == p' + [c];
      CollapseSlashesPieces(p');
      var C' := CollapseSlashes(p');
      SplitSnoc(p', c, '/');
      if c == '/' && |p| >= 2 && p[|p| - 2] == '/' {
        DropRepeatedSlash(p', C');
      } else {
        assert CollapseSlashes(p) == C' + [c];
        SplitSnoc(C', c, '/');
        ExtendPieces(Split(C', '/'), Split(p', '/'), c);
      }
    }
  }

  lemma DropRepeatedSlash(p': string, C': string)
    requires |p'| >= 1 && p'[|p'| - 1] == '/'
    requires SamePieces(Split(C', '/'), Split(p', '/'))
    ensures SamePieces(Split(C', '/'), Split(p' + "/", '/'))
  {
    var q := p'[..|p'| - 1];
    assert q + ['/'] == p';
    SplitSnoc(q, '/', '/');
    SplitSnoc(p', '/', '/');
    NonEmptyTrailingEmpty(Split(p', '/'));
  }

  /** Appending the same character to two piece lists that agree on their
      final piece and their non-empty pieces keeps them in agreement. */
  lemma ExtendPieces(a: seq<string>, b: seq<string>, c: char)
    requires SamePieces(a, b)
    ensures SamePieces(Extend(a, c, '/'), Extend(b, c, '/'))
  {
    var a0, b0 := a[..|a| - 1], b[..|b| - 1];
    var last := a[|a| - 1];
    assert a == a0 + [last] && b == b0 + [last];
    NonEmptyAppend(a0, [last]);
    NonEmptyAppend(b0, [last]);
    var z := NonEmpty([last]);
    assert NonEmpty(a0) == NonEmpty(a)[..|NonEmpty(a)| - |z|];
    assert NonEmpty(b0) == NonEmpty(b)[..|NonEmpty(b)| - |z|];
    if c == '/' {
      NonEmptyTrailingEmpty(a);
      NonEmptyTrailingEmpty(b);
    } else {
      NonEmptyAppend(a0, [last + [c]]);
      NonEmptyAppend(b0, [last + [c]]);
    }
  }

  /** The path step of `ensureHttp`: collapse slash runs, then force a trailing '/'. */
  function NormalizePath(p: string): (r: string)
    ensures EndsWith(r, "/") && NoDoubleSlash(r)
    ensures Segments(r) == Segments(p)
  {
    var c := CollapseSlashes(p);
    CollapseSlashesPieces(p);
    if EndsWith(c, "/") then c
    else
      SplitSnoc(c, '/', '/');
      NonEmptyTrailingEmpty(Split(c, '/'));
      c + "/"
  }

  /** Normalising a normalised path changes nothing. */
  lemma NormalizePathIdempotent(p: string)
    ensures NormalizePath(NormalizePath(p)) == NormalizePath(p)
  {
    CollapseSlashesFixed(NormalizePath(p));
  }

  /** `ensureHttp(url)`: `parsed` is what `new URL(url)` produces, `None`
      when it throws. */
  function EnsureHttp(raw: string, parsed: Option<Url>): (r: Result<Url, string>)
    ensures parsed.None? ==> r == Failure("invalid url: " + raw)
    ensures parsed.Some? && parsed.value.protocol != "http:" && parsed.value.protocol != "https:"
            ==> r == Failure("unsupported scheme: " + parsed.value.protocol)
    ensures parsed.Some? && parsed.value.protocol in {"http:", "https:"}
            ==> r == Success(parsed.value.(pathname := NormalizePath(parsed.value.pathname)))
    ensures r.Success? ==>
              (parsed.Some? && r.value.protocol in {"http:", "https:"}
               && r.value.protocol == parsed.value.protocol && r.value.host == parsed.value.host
               && EndsWith(r.value.pathname, "/") && NoDoubleSlash(r.value.pathname)
               && Segments(r.value.pathname) == Segments(parsed.value.pathname))
  {
    match parsed
    case None => Failure("invalid url: " + raw)
    case Some(u) =>
      if u.protocol != "http:" && u.protocol != "https:" then Failure("unsupported scheme: " + u.protocol)
      else Success(u.(pathname := NormalizePath(u.pathname)))
  }

  /** Canonicalising an already canonical URL gives it back unchanged. */
  lemma EnsureHttpIdempotent(raw: string, parsed: Option<Url>, raw': string)
    requires EnsureHttp(raw, parsed).Success?
    ensures EnsureHttp(raw', Some(EnsureHttp(raw, parsed).value)) == EnsureHttp(raw, parsed)
  {
    NormalizePathIdempotent(parsed.value.pathname);
  }

  /** `normalizeDirectoryUrl(url)` */
  function NormalizeDirectoryUrl(raw: string, parsed: Option<Url>): (r: Result<string, string>)
    ensures r.Success? <==> EnsureHttp(raw, parsed).Success?
    ensures r.Success? ==> r.value == Href(EnsureHttp(raw, parsed).value)
  {
    match EnsureHttp(raw, parsed)
    case Success(u) => Success(Href(u))
    case Failure(e) => Failure(e)
  }

  /** `keyForVisited(u)`: the visited-set key, case-insensitive on the host only. */
  function KeyForVisited(u: Url): (k: string)
    ensures k == Href(DirUrl(u.protocol, Lower(u.host), u.pathname))
  {
    u.protocol + "//" + Lower(u.host) + u.pathname
  }

  /** URLs that differ only in the case of the host, the query or the
      fragment share a visited key. */
  lemma KeyIgnoresHostCase(a: Url, b: Url)
    requires a.protocol == b.protocol && a.pathname == b.pathname && Lower(a.host) == Lower(b.host)
    ensures KeyForVisited(a) == KeyForVisited(b)
  {
  }

  /** `isSameOrigin(a, b)` */
  predicate IsSameOrigin(a: Url, b: Url) {
    a.protocol == b.protocol && Lower(a.host) == Lower(b.host)
  }

  /** Same-origin is an equivalence relation, and ignores paths. */
  lemma SameOriginEquivalence(a: Url, b: Url, c: Url)
    ensures IsSameOrigin(a, a)
    ensures IsSameOrigin(a, b) ==> IsSameOrigin(b, a)
    ensures IsSameOrigin(a, b) && IsSameOrigin(b, c) ==> IsSameOrigin(a, c)
    ensures IsSameOrigin(a, a.(pathname := b.pathname))
  {
  }

  /** `rootDirectory(u)` as a URL: `protocol//host/`. */
  function RootDir(u: Url): (r: Url)
    ensures r.protocol == u.protocol && r.host == u.host && Segments(r.pathname) == []
    ensures r.query.None? && r.fragment.None?
  {
    SegmentsOfRoot();
    DirUrl(u.protocol, u.host, "/")
  }

  lemma SegmentsOfRoot()
    ensures Split("/", '/') == ["", ""] && Segments("/") == []
  {
    assert "/" == "" + ['/'];
    SplitSnoc("", '/', '/');
    NonEmptyTrailingEmpty([""]);
    NonEmptyOfEmptyPiece();
  }

  /** `rootDirectory(u)` */
  function RootDirectory(u: Url): string { Href(RootDir(u)) }

  /** The root directory depends on the protocol and host only. */
  lemma RootDirectoryIgnoresPath(u: Url, p: string)
    ensures RootDirectory(u.(pathname := p)) == RootDirectory(u)
    ensures RootDirectory(u) == u.protocol + "//" + u.host + "/"
  {
  }

  /** `parentDirectory(u)` as a URL. */
  function ParentDir(u: Url): (r: Option<Url>)
    ensures r.None? <==> |Segments(u.pathname)| == 0
    ensures r.Some? ==>
              (r.value.protocol == u.protocol && r.value.host == u.host
               && r.value.query.None? && r.value.fragment.None?
               && EndsWith(r.value.pathname, "/")
               && Segments(r.value.pathname) == Segments(u.pathname)[..|Segments(u.pathname)| - 1])
    ensures |Segments(u.pathname)| == 1 ==> r == Some(RootDir(u))
  {
    var parts := Segments(u.pathname);
    if |parts| == 0 then None
    else
      var rest := parts[..|parts| - 1];
      var path := "/" + Join(rest, '/') + (if |rest| > 0 then "/" else "");
      ParentPathSegments(u.pathname, rest, path);
      Some(DirUrl(u.protocol, u.host, path))
  }

  lemma ParentPathSegments(pathname: string, rest: seq<string>, path: string)
    requires |Segments(pathname)| >= 1 && rest == Segments(pathname)[..|Segments(pathname)| - 1]
    requires path == "/" + Join(rest, '/') + (if |rest| > 0 then "/" else "")
    ensures Segments(path) == rest && EndsWith(path, "/")
    ensures |rest| == 0 ==> path == "/"
  {
    var segs := Segments(pathname);
    SegmentsArePieces(pathname);
    assert forall k :: 0 <= k < |rest| ==> rest[k] == segs[k];
    SegmentsOfJoin(rest);
    if |rest| > 0 {
      assert path == ("/" + Join(rest, '/')) + "/";
    } else {
      assert path == "/";
    }
  }

  /** `parentDirectory(u)`: `null` at the host root. */
  function ParentDirectory(u: Url): Option<string> {
    match ParentDir(u)
    case Some(p) => Some(Href(p))
    case None => None
  }

  /** Segments are non-empty and contain no '/'. */
  lemma SegmentsArePieces(path: string)
    ensures forall k :: 0 <= k < |Segments(path)| ==> Segments(path)[k] != "" && '/' !in Segments(path)[k]
  {
    NonEmptyPieces(Split(path, '/'));
    SplitPiecesFree(path, '/');
  }

  lemma {:induction false} NonEmptyKeepsAll(parts: seq<string>)
    requires forall k :: 0 <= k < |parts| ==> parts[k] != ""
    ensures NonEmpty(parts) == parts
    decreases |parts|
  {
    if |parts| > 0 {
      NonEmptyKeepsAll(parts[..|parts| - 1]);
    }
  }

  lemma {:induction false} SplitJoin(parts: seq<string>, sep: char)
    requires |parts| >= 1 && forall k :: 0 <= k < |parts| ==> sep !in parts[k]
    ensures Split(Join(parts, sep), sep) == parts
    decreases |parts|
  {
    if |parts| == 1 {
      SplitFree(parts[0], sep);
    } else {
      var init := parts[..|parts| - 1];
      SplitJoin(init, sep);
      SplitAt(Join(init, sep), sep, parts[|parts| - 1]);
      SplitFree(parts[|parts| - 1], sep);
    }
  }

  /** The directory path built from segments has exactly those segments. */
  lemma SegmentsOfJoin(parts: seq<string>)
    requires forall k :: 0 <= k < |parts| ==> parts[k] != "" && '/' !in parts[k]
    ensures Segments("/" + Join(parts, '/') + (if |parts| > 0 then "/" else "")) == parts
  {
    if |parts| == 0 {
      SegmentsOfRoot();
      assert "/" + Join(parts, '/') + "" == "/";
    } else {
      var path := "/" + Join(parts, '/') + "/";
      SplitDirPath(parts);
      NonEmptyBetweenEmpties(parts);
      NonEmptyKeepsAll(parts);
      assert Segments(path) == NonEmpty([""] + parts + [""]);
    }
  }

  lemma SplitDirPath(parts: seq<string>)
    requires |parts| >= 1 && forall k :: 0 <= k < |parts| ==> '/' !in parts[k]
    ensures Split("/" + Join(parts, '/') + "/", '/') == [""] + parts + [""]
  {
    var j := Join(parts, '/');
    assert "/" + j + "/" == [] + ['/'] + (j + ['/']);
    SplitAt([], '/', j + ['/']);
    SplitSnoc(j, '/', '/');
    SplitJoin(parts, '/');
    assert Split([], '/') == [""];
  }

  lemma NonEmptyBetweenEmpties(parts: seq<string>)
    ensures NonEmpty([""] + parts + [""]) == NonEmpty(parts)
  {
    assert [""] + parts + [""] == [""] + (parts + [""]);
    NonEmptyAppend([""], parts + [""]);
    NonEmptyTrailingEmpty(parts);
    NonEmptyOfEmptyPiece();
  }

  /** `lastSegment(u)`: the last non-empty path segment (or "") and its
      percent-decoding, which falls back to the raw text. */
  function LastSegment(u: Url): (r: (string, string))
    ensures r.0 == "" <==> |Segments(u.pathname)| == 0
    ensures r.0 != "" ==> r.0 == Segments(u.pathname)[|Segments(u.pathname)| - 1] && '/' !in r.0
    ensures Decoding.Decode(r.0).None? ==> r.1 == r.0
    ensures Decoding.Decode(r.0).Some? ==> r.1 == Decoding.Decode(r.0).value
    ensures '%' !in r.0 ==> r.1 == r.0
  {
    var parts := Segments(u.pathname);
    SegmentsArePieces(u.pathname);
    var raw := if |parts| == 0 then "" else parts[|parts| - 1];
    Decoding.DecodePlain(raw);
    match Decoding.Decode(raw)
    case Some(d) => (raw, d)
    case None => (raw, raw)
  }

  /** `isHiddenName(name)` */
  predicate IsHiddenName(name: string) {
    StartsWith(name, ".") && name != "." && name != ".."
  }

  /** A hidden name is a dot followed by at least one character, other than "..". */
  lemma HiddenNameShape(name: string)
    ensures IsHiddenName(name) <==> |name| >= 2 && name[0] == '.' && !(|name| == 2 && name[1] == '.')
  {
    if |name| == 2 && name[0] == '.' && name[1] == '.' {
      assert name == "..";
    }
    if |name| == 1 && name[0] == '.' {
      assert name == ".";
    }
  }
}

/** One directory listing turned into candidate folders and files
    (src/core/parseDirectory.ts). Parsing HTML is a browser library: a
    listing is given as its `<a>` elements in document order, each carrying
    what the crawler reads from the DOM around it. */
module ParseDirectory {
  import opened Wrappers
  import opened Strs
  import opened Seqs
  import Urls
  import Decoding
  import Classify
  import Dates
  import Sizes

  /** The nearest enclosing `<tr>`: the texts of its `th`/`td` cells and its own text. */
  datatype Row = Row(cells: seq<string>, text: string)

  /** An `<a>` element. `href` is the attribute (absent or not); `text` its
      text content; the flags say whether a `<table>`, `<ul>` or `<ol>`
      encloses it; `row`, `listItem` and `pre` are the nearest enclosing
      `<tr>`, the text of the nearest `<li>` and of the nearest `<pre>`;
      `parentText` the text of its parent element. `target` is what
      `new URL(href, base)` yields against the listing's own URL, `None`
      when that constructor throws. */
  datatype Anchor = Anchor(href: Option<string>, text: string,
                           inTable: bool, inUl: bool, inOl: bool,
                           row: Option<Row>, listItem: Option<string>, pre: Option<string>,
                           parentText: Option<string>, target: Option<Urls.Url>)

  /** A listed entry before the crawler gives it a role and a depth. */
  datatype Listed = Listed(kind: Classify.Kind, url: Urls.Url, rawName: string, name: string,
                           hidden: bool, size: Option<nat>, date: Option<Dates.DateFields>)

  datatype Parsed = Parsed(folders: seq<Listed>, files: seq<Listed>, errors: seq<string>)

  /** The message of the `TypeError` that `new URL` throws. */
  const InvalidUrl := "Invalid URL"

  // ---------------------------------------------------------------------
  // Anchor selection and de-duplication
  // ---------------------------------------------------------------------

  predicate HasHref(a: Anchor) { a.href.Some? }

  predicate InListingContainer(a: Anchor) { a.pre.Some? || a.inTable || a.inUl || a.inOl }

  /** The anchors `pre a[href]`, `table a[href]`, `ul a[href]` and
      `ol a[href]` select. */
  predicate InPre(a: Anchor) { HasHref(a) && a.pre.Some? }
  predicate InTable(a: Anchor) { HasHref(a) && a.inTable }
  predicate InUl(a: Anchor) { HasHref(a) && a.inUl }
  predicate InOl(a: Anchor) { HasHref(a) && a.inOl }

  /** The four container selections in turn, each in document order; an
      anchor inside two kinds of container is selected once for each. */
  function ContainerSelections(doc: seq<Anchor>): (r: seq<Anchor>)
    ensures forall a :: a in r <==> a in doc && HasHref(a) && InListingContainer(a)
  {
    Filter(InPre, doc) + Filter(InTable, doc) + Filter(InUl, doc) + Filter(InOl, doc)
  }

  /** `pre a[href]`, `table a[href]`, `ul a[href]`, `ol a[href]` in turn;
      every `a[href]` when those four find nothing. */
  function GatherAnchors(doc: seq<Anchor>): (r: seq<Anchor>)
    ensures |ContainerSelections(doc)| > 0 ==> r == ContainerSelections(doc)
    ensures |ContainerSelections(doc)| == 0 ==> r == Filter(HasHref, doc)
    ensures forall a | a in r :: a in doc && HasHref(a)
    ensures (exists a | a in doc :: HasHref(a) && InListingContainer(a)) ==>
              (forall a | a in r :: InListingContainer(a))
                && (forall a | a in doc && HasHref(a) && InListingContainer(a) :: a in r)
    ensures (forall a | a in doc && HasHref(a) :: !InListingContainer(a)) ==>
              (forall a :: a in r <==> a in doc && HasHref(a))
  {
    var sets := ContainerSelections(doc);
    assert |sets| > 0 ==> sets[0] in sets;
    if |sets| == 0 then Filter(HasHref, doc) else sets
  }

  /** An anchor inside both a `<pre>` and a `<table>`, and nothing else,
      is gathered twice: once as a `pre` link and once as a `table` link. */
  lemma GatherTwiceExample(a: Anchor)
    requires HasHref(a) && a.pre.Some? && a.inTable && !a.inUl && !a.inOl
    ensures GatherAnchors([a]) == [a, a]
  {
    FilterOne(InPre, a);
    FilterOne(InTable, a);
    FilterOne(InUl, a);
    FilterOne(InOl, a);
  }

  /** `getAttribute('href')` is truthy. */
  predicate Usable(a: Anchor) { a.href.Some? && a.href.value != "" }

  /** The usable href texts of `anchors`. */
  function Hrefs(anchors: seq<Anchor>): set<string> {
    set a | a in anchors && Usable(a) :: a.href.value
  }

  /** Position of the first anchor whose href attribute is `h`; `|anchors|` when none is. */
  function FirstWithHref(anchors: seq<Anchor>, h: Option<string>): (k: nat)
    ensures k <= |anchors|
    ensures k < |anchors| ==> anchors[k].href == h
    ensures forall j | 0 <= j < k :: anchors[j].href != h
  {
    if |anchors| == 0 then 0
    else if anchors[0].href == h then 0
    else 1 + FirstWithHref(anchors[1..], h)
  }

  /** `dedupeAnchors`, continuing from the hrefs already `seen`: the first
      anchor of each usable href not yet seen, in document order. */
  function Dedupe(anchors: seq<Anchor>, seen: set<string>): (r: seq<Anchor>)
    ensures forall x | 0 <= x < |r| :: r[x] in anchors && Usable(r[x]) && r[x].href.value !in seen
  {
    if |anchors| == 0 then []
    else
      var a := anchors[0];
      if Usable(a) && a.href.value !in seen then [a] + Dedupe(anchors[1..], seen + {a.href.value})
      else Dedupe(anchors[1..], seen)
  }

  /** `dedupeAnchors(as)` */
  function DedupeAnchors(anchors: seq<Anchor>): seq<Anchor> { Dedupe(anchors, {}) }

  predicate DistinctHrefs(r: seq<Anchor>) {
    forall x, y | 0 <= x < y < |r| :: r[x].href != r[y].href
  }

  /** No two kept anchors share an href. */
  lemma {:induction false} DedupeDistinct(anchors: seq<Anchor>, seen: set<string>)
    ensures DistinctHrefs(Dedupe(anchors, seen))
    decreases |anchors|
  {
    if |anchors| > 0 {
      var a := anchors[0];
      if Usable(a) && a.href.value !in seen {
        var tail := Dedupe(anchors[1..], seen + {a.href.value});
        DedupeDistinct(anchors[1..], seen + {a.href.value});
        assert Dedupe(anchors, seen) == [a] + tail;
        forall x, y | 0 <= x < y < |[a] + tail|
          ensures ([a] + tail)[x].href != ([a] + tail)[y].href
        {
          assert ([a] + tail)[y] == tail[y - 1];
          assert tail[y - 1].href.value !in seen + {a.href.value};
          if x > 0 {
            assert ([a] + tail)[x] == tail[x - 1];
            assert tail[x - 1].href != tail[y - 1].href;
          }
        }
      } else {
        assert Dedupe(anchors, seen) == Dedupe(anchors[1..], seen);
        DedupeDistinct(anchors[1..], seen);
      }
    }
  }

  /** Every usable href not already seen survives, and nothing else. */
  lemma {:induction false} DedupeHrefs(anchors: seq<Anchor>, seen: set<string>)
    ensures Hrefs(Dedupe(anchors, seen)) == Hrefs(anchors) - seen
    decreases |anchors|
  {
    if |anchors| > 0 {
      var a := anchors[0];
      var rest := anchors[1..];
      assert anchors == [a] + rest;
      HrefsCons(a, rest);
      if Usable(a) && a.href.value !in seen {
        DedupeHrefs(rest, seen + {a.href.value});
        HrefsCons(a, Dedupe(rest, seen + {a.href.value}));
      } else {
        DedupeHrefs(rest, seen);
      }
    }
  }

  lemma HrefsCons(a: Anchor, rest: seq<Anchor>)
    ensures Hrefs([a] + rest) == Hrefs(rest) + (if Usable(a) then {a.href.value} else {})
  {
    assert forall b :: b in [a] + rest <==> b == a || b in rest;
  }

  /** Each of `r` is the first anchor of `anchors` carrying its href, and
      `r` lists them in document order. */
  predicate FirstOccurrences(anchors: seq<Anchor>, r: seq<Anchor>) {
    (forall x | 0 <= x < |r| ::
       FirstWithHref(anchors, r[x].href) < |anchors| && anchors[FirstWithHref(anchors, r[x].href)] == r[x])
    && (forall x, y | 0 <= x < y < |r| ::
          FirstWithHref(anchors, r[x].href) < FirstWithHref(anchors, r[y].href))
  }

  /** The anchor kept for an href is the first one carrying it, and the kept
      anchors are in document order. */
  lemma {:induction false} DedupeFirstWins(anchors: seq<Anchor>, seen: set<string>)
    ensures FirstOccurrences(anchors, Dedupe(anchors, seen))
    decreases |anchors|
  {
    if |anchors| > 0 {
      var a := anchors[0];
      var keep := Usable(a) && a.href.value !in seen;
      var seen' := if keep then seen + {a.href.value} else seen;
      DedupeFirstWins(anchors[1..], seen');
      var tail := Dedupe(anchors[1..], seen');
      assert forall x | 0 <= x < |tail| :: tail[x].href.value !in seen';
      FirstOccurrencesCons(anchors, tail);
      assert Dedupe(anchors, seen) == if keep then [a] + tail else tail;
    }
  }

  /** Putting an anchor in front keeps the first occurrences of the others,
      and the new anchor is a first occurrence before all of them. */
  lemma FirstOccurrencesCons(anchors: seq<Anchor>, tail: seq<Anchor>)
    requires |anchors| > 0 && FirstOccurrences(anchors[1..], tail)
    requires forall x | 0 <= x < |tail| :: tail[x].href != anchors[0].href
    ensures FirstOccurrences(anchors, tail)
    ensures FirstOccurrences(anchors, [anchors[0]] + tail)
  {
    var rest := anchors[1..];
    forall x | 0 <= x < |tail|
      ensures FirstWithHref(anchors, tail[x].href) == 1 + FirstWithHref(rest, tail[x].href)
    {
    }
    var r := [anchors[0]] + tail;
    assert FirstWithHref(anchors, anchors[0].href) == 0;
    forall x | 0 < x < |r|
      ensures r[x] == tail[x - 1]
    {
    }
  }

  /** Two links to the same place keep only the first; links without a
      usable href are dropped. */
  lemma DedupeExample(a: Anchor, b: Anchor, c: Anchor)
    requires a.href == Some("x/") && b.href == Some("x/") && c.href == Some("")
    ensures DedupeAnchors([a, b, c]) == [a]
  {
    var seen: set<string> := {"x/"};
    assert [a, b, c][1..] == [b, c];
    assert [b, c][1..] == [c];
    assert [c][1..] == [];
    assert Dedupe([c], seen) == [];
    assert Dedupe([b, c], seen) == [];
    assert {} + {"x/"} == seen;
    assert Dedupe([a, b, c], {}) == [a] + Dedupe([b, c], seen);
  }

  // ---------------------------------------------------------------------
  // acceptHref
  // ---------------------------------------------------------------------

  /** `URL.origin`: a tuple origin for the special schemes with a host, an
      opaque one (serialised "null") for the rest. Two origins serialise to
      the same string exactly when these values are equal. A `blob:` URL,
      whose origin is that of the URL it wraps, is given the opaque one. */
  datatype Origin = TupleOrigin(scheme: string, host: string) | OpaqueOrigin

  function OriginOf(u: Urls.Url): Origin {
    if u.protocol in {"http:", "https:", "ws:", "wss:", "ftp:"} then TupleOrigin(u.protocol, u.host)
    else OpaqueOrigin
  }

  /** `/^p/i.test(s)` for a lower-case literal `p`. */
  predicate StartsWithIgnoreCase(s: string, p: string) {
    |p| <= |s| && Lower(s[..|p|]) == p
  }

  /** `/#[^#]*$/.test(s)`: some '#' is followed by no other '#'. */
  predicate HashTail(s: string) {
    exists j | 0 <= j < |s| :: s[j] == '#' && forall k | j < k < |s| :: s[k] != '#'
  }

  /** The pattern matches exactly the strings containing a '#'. */
  lemma HashTailIffHash(s: string)
    ensures HashTail(s) <==> '#' in s
  {
    if '#' in s {
      var j := LastIndexOf(s, '#').value;
      assert s[j] == '#' && forall k | j < k < |s| :: s[k] != '#';
    }
    if HashTail(s) {
      var j :| 0 <= j < |s| && s[j] == '#' && forall k | j < k < |s| :: s[k] != '#';
      assert s[j] in s;
    }
  }

  /** `acceptHref(resolved, base, opts)`, with `resolved` the serialisation of `target`. */
  function AcceptHref(target: Urls.Url, base: Urls.Url, sameOriginOnly: bool): (r: bool)
    ensures r <==> !StartsWithIgnoreCase(Urls.Href(target), "javascript:")
                   && !StartsWithIgnoreCase(Urls.Href(target), "mailto:")
                   && !HashTail(Urls.Href(target))
                   && (sameOriginOnly ==> OriginOf(target) == OriginOf(base))
  {
    var resolved := Urls.Href(target);
    HashTailIffHash(resolved);
    if StartsWithIgnoreCase(resolved, "javascript:") then false
    else if StartsWithIgnoreCase(resolved, "mailto:") then false
    else if '#' in resolved then false
    else if sameOriginOnly && OriginOf(target) != OriginOf(base) then false
    else true
  }

  /** An accepted link has no fragment, and under `sameOriginOnly` it shares
      the scheme and host of an http(s) listing. */
  lemma AcceptedShape(target: Urls.Url, base: Urls.Url, sameOriginOnly: bool)
    requires AcceptHref(target, base, sameOriginOnly)
    ensures target.fragment.None?
    ensures sameOriginOnly && base.protocol in {"http:", "https:"} ==>
              target.protocol == base.protocol && target.host == base.host
  {
    HashTailIffHash(Urls.Href(target));
  }

  // ---------------------------------------------------------------------
  // deriveMetadataText
  // ---------------------------------------------------------------------

  /** Position of the line `lines.find(l => at && l.includes(at))` returns;
      `|lines|` when it returns `undefined`. */
  function FindLine(lines: seq<string>, at: string): (k: nat)
    ensures k <= |lines|
    ensures k < |lines| ==> at != "" && Includes(lines[k], at)
    ensures at == "" ==> k == |lines|
    ensures at != "" ==> forall j | 0 <= j < k :: !Includes(lines[j], at)
  {
    if |lines| == 0 || at == "" then |lines|
    else if Includes(lines[0], at) then 0
    else 1 + FindLine(lines[1..], at)
  }

  /** `deriveMetadataText(a)`: the table row, else the list item, else the
      line of the `<pre>` block holding the link, else the parent's text. */
  function MetadataText(a: Anchor): string {
    match a.row
    case Some(row) => if |row.cells| > 0 then Join(row.cells, ' ') else row.text
    case None =>
      match a.listItem
      case Some(li) => li
      case None =>
        match a.pre
        case Some(block) =>
          var lines := Split(block, '\n');
          var k := FindLine(lines, Trim(a.text));
          if k < |lines| then lines[k] else a.text
        case None =>
          match a.parentText
          case Some(t) => if t != "" then t else a.text
          case None => a.text
  }

  /** Each part of a join occurs in it. */
  lemma {:induction false} JoinIncludesParts(parts: seq<string>, sep: char, k: nat)
    requires k < |parts|
    ensures Includes(Join(parts, sep), parts[k])
    decreases |parts|
  {
    var j := Join(parts, sep);
    if |parts| == 1 {
      assert OccursAt(j, parts[0], 0);
    } else {
      var init := Join(parts[..|parts| - 1], sep);
      assert j == init + [sep] + parts[|parts| - 1];
      if k == |parts| - 1 {
        assert j[|init| + 1..] == parts[k];
        assert OccursAt(j, parts[k], |init| + 1);
      } else {
        JoinIncludesParts(parts[..|parts| - 1], sep, k);
        var i :| 0 <= i <= |init| && OccursAt(init, parts[k], i);
        assert j[i..i + |parts[k]|] == init[i..i + |parts[k]|];
        assert OccursAt(j, parts[k], i);
      }
    }
  }

  /** In a table row with cells, the metadata holds every cell's text. */
  lemma RowMetadata(a: Anchor)
    requires a.row.Some? && |a.row.value.cells| > 0
    ensures forall k | 0 <= k < |a.row.value.cells| :: Includes(MetadataText(a), a.row.value.cells[k])
  {
    forall k | 0 <= k < |a.row.value.cells|
      ensures Includes(MetadataText(a), a.row.value.cells[k])
    {
      JoinIncludesParts(a.row.value.cells, ' ', k);
    }
  }

  /** No line of the block includes `at`. */
  predicate NoLineIncludes(lines: seq<string>, at: string) {
    forall k | 0 <= k < |lines| :: !Includes(lines[k], at)
  }

  /** `m` is the first line of the block that includes `at`. */
  predicate FirstLineIncluding(lines: seq<string>, at: string, m: string) {
    exists k | 0 <= k < |lines| :: m == lines[k]
      && Includes(lines[k], at)
      && forall j | 0 <= j < k :: !Includes(lines[j], at)
  }

  /** Inside a `<pre>` block the metadata is the first line that includes the
      link's trimmed text, or the link text when that is empty or no line
      includes it. */
  lemma PreMetadata(a: Anchor)
    requires a.row.None? && a.listItem.None? && a.pre.Some?
    ensures var lines := Split(a.pre.value, '\n');
            var at := Trim(a.text);
            ((at == "" || NoLineIncludes(lines, at)) ==> MetadataText(a) == a.text)
            && (at != "" && !NoLineIncludes(lines, at) ==> FirstLineIncluding(lines, at, MetadataText(a)))
  {
    PreLine(Split(a.pre.value, '\n'), Trim(a.text), a.text, MetadataText(a));
  }

  /** The line `FindLine` picks, stated about the lines alone. */
  lemma PreLine(lines: seq<string>, at: string, text: string, m: string)
    requires m == if FindLine(lines, at) < |lines| then lines[FindLine(lines, at)] else text
    ensures (at == "" || NoLineIncludes(lines, at)) ==> m == text
    ensures at != "" && !NoLineIncludes(lines, at) ==> FirstLineIncluding(lines, at, m)
  {
    var k := FindLine(lines, at);
    if k < |lines| {
      assert m == lines[k] && Includes(lines[k], at);
    }
  }


  // ---------------------------------------------------------------------
  // normalizeFolderUrl
  // ---------------------------------------------------------------------

  /** `normalizeFolderUrl(u)` on the serialised URL. */
  function NormalizeFolderUrl(s: string): (r: string)
    ensures EndsWith(r, "/")
    ensures EndsWith(s, "/") ==> r == s
    ensures !EndsWith(s, "/") ==> |r| == |s| + 1 && r[..|s|] == s
  {
    if EndsWith(s, "/") then s else s + "/"
  }

  /** The URL whose serialisation is `normalizeFolderUrl(href)`: the '/' is
      appended to whichever component ends the serialisation. */
  function NormalizeFolder(u: Urls.Url): (r: Urls.Url)
    ensures Urls.Href(r) == NormalizeFolderUrl(Urls.Href(u))
    ensures r.protocol == u.protocol && r.host == u.host
  {
    if EndsWith(Urls.Href(u), "/") then u
    else
      match u.fragment
      case Some(f) => u.(fragment := Some(f + "/"))
      case None =>
        match u.query
        case Some(q) => u.(query := Some(q + "/"))
        case None => u.(pathname := u.pathname + "/")
  }

  lemma NormalizeFolderIdempotent(u: Urls.Url)
    ensures NormalizeFolder(NormalizeFolder(u)) == NormalizeFolder(u)
  {
  }

  // ---------------------------------------------------------------------
  // parseDirectoryHtml
  // ---------------------------------------------------------------------

  predicate Accepted(a: Anchor, base: Urls.Url, sameOriginOnly: bool) {
    a.target.Some? && AcceptHref(a.target.value, base, sameOriginOnly)
  }

  /** How many of `anchors` are kept by `acceptHref`. */
  function AcceptedCount(anchors: seq<Anchor>, base: Urls.Url, sameOriginOnly: bool): nat {
    if |anchors| == 0 then 0
    else (if Accepted(anchors[0], base, sameOriginOnly) then 1 else 0)
         + AcceptedCount(anchors[1..], base, sameOriginOnly)
  }

  predicate FolderOk(e: Listed) {
    e.kind == Classify.Folder && EndsWith(Urls.Href(e.url), "/") && e.size.None?
  }

  predicate FileOk(e: Listed) {
    e.kind == Classify.File && e.url.fragment.None?
  }

  /** The date and the size read from the metadata text, and the errors after them. */
  function Metadata(meta: string, errors: seq<string>): (r: (Option<Dates.DateFields>, Option<nat>, seq<string>))
    ensures r.0 == Dates.ParseDateMeta(meta, []).0 && r.1 == Sizes.ParseSizeMeta(meta)
    ensures r.2 == errors + Dates.ParseDateMeta(meta, []).1
    ensures IsPrefix(errors, r.2) && |r.2| <= |errors| + 1
  {
    var (date, afterDate) := Dates.ParseDateMeta(meta, errors);
    Dates.ParseDateMetaErrors(meta, errors);
    (date, Sizes.ParseSizeMeta(meta), afterDate)
  }

  /** The raw and the decoded last segment of the target, and the errors after decoding. */
  function NameOf(target: Urls.Url, errors: seq<string>): (r: (string, string, seq<string>))
    ensures r.0 == Urls.LastSegment(target).0 && r.1 == Urls.LastSegment(target).1
    ensures r.2 == errors + Decoding.SafeDecode(r.0, []).1
    ensures IsPrefix(errors, r.2) && |r.2| <= |errors| + 1
  {
    var segRaw := Urls.LastSegment(target).0;
    var (name, afterName) := Decoding.SafeDecode(segRaw, errors);
    Decoding.SafeDecodeAppends(segRaw, errors);
    (segRaw, name, afterName)
  }

  /** The entry of the given kind: a folder's URL normalised and its size dropped. */
  function Entry(kind: Classify.Kind, target: Urls.Url, rawName: string, name: string, hidden: bool,
                 size: Option<nat>, date: Option<Dates.DateFields>): (e: Listed)
    ensures e.kind == kind && e.rawName == rawName && e.name == name && e.hidden == hidden && e.date == date
    ensures kind == Classify.Folder ==> e.url == NormalizeFolder(target) && e.size.None?
    ensures kind != Classify.Folder ==> e.url == target && e.size == size
  {
    if kind == Classify.Folder then Listed(kind, NormalizeFolder(target), rawName, name, hidden, None, date)
    else Listed(kind, target, rawName, name, hidden, size, date)
  }

  /** The entry one accepted anchor yields, and the errors after it: the
      kind from the link and its trimmed metadata text, the name from the
      last path segment, the date read from the metadata, and for a file the
      size read from it; a failed decoding of the name and then an ambiguous
      date are reported, in that order. */
  function Describe(a: Anchor, target: Urls.Url, errors: seq<string>): (r: (Listed, seq<string>))
    ensures var meta := Trim(MetadataText(a));
            r.0.kind == Classify.ClassifyEntry(Urls.Href(target), meta)
            && r.0.hidden == Classify.DetectHidden(r.0.name)
            && r.0.date == Dates.ParseDateMeta(meta, []).0
            && (r.0.kind == Classify.File ==> r.0.size == Sizes.ParseSizeMeta(meta))
    ensures r.0.kind == Classify.Folder ==> r.0.url == NormalizeFolder(target) && r.0.size.None?
    ensures r.0.kind == Classify.File ==> r.0.url == target
    ensures r.0.rawName == Urls.LastSegment(target).0 && r.0.name == Urls.LastSegment(target).1
    ensures r.1 == errors + Decoding.SafeDecode(r.0.rawName, []).1
                   + Dates.ParseDateMeta(Trim(MetadataText(a)), []).1
    ensures IsPrefix(errors, r.1) && |r.1| <= |errors| + 2
  {
    var meta := Trim(MetadataText(a));
    var kind := Classify.ClassifyEntry(Urls.Href(target), meta);
    var (segRaw, name, afterName) := NameOf(target, errors);
    var (date, size, afterDate) := Metadata(meta, afterName);
    PrefixTransitive(errors, afterName, afterDate);
    AppendAssoc(errors, Decoding.SafeDecode(segRaw, []).1, Dates.ParseDateMeta(meta, []).1);
    (Entry(kind, target, segRaw, name, Classify.DetectHidden(name), size, date), afterDate)
  }
  /** The entry an anchor is described as does not depend on the errors
      reported before it, and its errors are appended after them. */
  lemma DescribeAfter(a: Anchor, target: Urls.Url, errors: seq<string>)
    ensures Describe(a, target, errors) == (Describe(a, target, []).0, errors + Describe(a, target, []).1)
  {
    var d := Describe(a, target, []);
    var x := Decoding.SafeDecode(d.0.rawName, []).1;
    var y := Dates.ParseDateMeta(Trim(MetadataText(a)), []).1;
    assert d.1 == x + y;
    AppendAssoc(errors, x, y);
  }


  /** Every folder entry ends with '/' and has no size; no file has a fragment. */
  predicate WellShaped(p: Parsed) {
    (forall e | e in p.folders :: FolderOk(e)) && (forall e | e in p.files :: FileOk(e))
  }

  /** `later` only appended to the folders, files and errors of `earlier`. */
  predicate Extends(earlier: Parsed, later: Parsed) {
    IsPrefix(earlier.folders, later.folders) && IsPrefix(earlier.files, later.files)
    && IsPrefix(earlier.errors, later.errors)
  }

  lemma ExtendsTransitive(a: Parsed, b: Parsed, c: Parsed)
    requires Extends(a, b) && Extends(b, c)
    ensures Extends(a, c)
  {
    assert c.folders[..|a.folders|] == c.folders[..|b.folders|][..|a.folders|];
    assert c.files[..|a.files|] == c.files[..|b.files|][..|a.files|];
    assert c.errors[..|a.errors|] == c.errors[..|b.errors|][..|a.errors|];
  }

  /** Appends a described entry to the folders or the files. */
  function Add(acc: Parsed, e: Listed, errors: seq<string>): (next: Parsed)
    requires WellShaped(acc) && IsPrefix(acc.errors, errors)
    requires e.kind == Classify.Folder ==> FolderOk(e)
    requires e.kind == Classify.File ==> FileOk(e)
    ensures WellShaped(next) && Extends(acc, next)
    ensures |next.folders| + |next.files| == |acc.folders| + |acc.files| + 1
    ensures e.kind == Classify.Folder ==> next == acc.(folders := acc.folders + [e], errors := errors)
    ensures e.kind == Classify.File ==> next == acc.(files := acc.files + [e], errors := errors)
  {
    if e.kind == Classify.Folder then
      AppendOne(acc.folders, e, FolderOk);
      acc.(folders := acc.folders + [e], errors := errors)
    else
      AppendOne(acc.files, e, FileOk);
      acc.(files := acc.files + [e], errors := errors)
  }

  /** One resolved anchor: skipped unless accepted, else described and
      appended to the folders or the files. */
  function Step(base: Urls.Url, sameOriginOnly: bool, a: Anchor, target: Urls.Url, acc: Parsed): (next: Parsed)
    requires WellShaped(acc)
    ensures WellShaped(next) && Extends(acc, next)
    ensures |next.folders| + |next.files|
              == |acc.folders| + |acc.files| + (if AcceptHref(target, base, sameOriginOnly) then 1 else 0)
    ensures !AcceptHref(target, base, sameOriginOnly) ==> next == acc
    ensures AcceptHref(target, base, sameOriginOnly) ==>
              var d := Describe(a, target, []);
              next.errors == acc.errors + d.1
              && (d.0.kind == Classify.Folder ==> next.folders == acc.folders + [d.0] && next.files == acc.files)
              && (d.0.kind == Classify.File ==> next.files == acc.files + [d.0] && next.folders == acc.folders)
  {
    if !AcceptHref(target, base, sameOriginOnly) then
      assert acc.folders[..|acc.folders|] == acc.folders && acc.files[..|acc.files|] == acc.files;
      assert acc.errors[..|acc.errors|] == acc.errors;
      acc
    else
      AcceptedShape(target, base, sameOriginOnly);
      var d := Describe(a, target, acc.errors);
      DescribeAfter(a, target, acc.errors);
      Add(acc, d.0, d.1)
  }

  lemma AppendOne(xs: seq<Listed>, e: Listed, ok: Listed -> bool)
    requires forall x | x in xs :: ok(x)
    requires ok(e)
    ensures forall x | x in xs + [e] :: ok(x)
    ensures IsPrefix(xs, xs + [e])
  {
    assert (xs + [e])[..|xs|] == xs;
  }

  predicate IsFolderEntry(e: Listed) { e.kind == Classify.Folder }

  predicate IsFileEntry(e: Listed) { e.kind == Classify.File }

  /** What the accepted anchors among `anchors` yield, in order: the entry
      each one is described as, and the errors describing it reports. */
  function Yield(base: Urls.Url, anchors: seq<Anchor>, sameOriginOnly: bool): (r: (seq<Listed>, seq<string>))
    ensures |r.0| == AcceptedCount(anchors, base, sameOriginOnly)
    decreases |anchors|
  {
    if |anchors| == 0 then ([], [])
    else
      var rest := Yield(base, anchors[1..], sameOriginOnly);
      if Accepted(anchors[0], base, sameOriginOnly) then
        var d := Describe(anchors[0], anchors[0].target.value, []);
        ([d.0] + rest.0, d.1 + rest.1)
      else rest
  }

  /** What the anchor at `i` yields, before what the rest yield. */
  lemma YieldStep(base: Urls.Url, unique: seq<Anchor>, sameOriginOnly: bool, i: nat, target: Urls.Url)
    requires i < |unique| && unique[i].target == Some(target)
    ensures var rest := Yield(base, unique[i + 1..], sameOriginOnly);
            var d := Describe(unique[i], target, []);
            var taken := AcceptHref(target, base, sameOriginOnly);
            Yield(base, unique[i..], sameOriginOnly)
              == ((if taken then [d.0] else []) + rest.0, (if taken then d.1 else []) + rest.1)
  {
    assert unique[i..][1..] == unique[i + 1..];
    var rest := Yield(base, unique[i + 1..], sameOriginOnly);
    assert [] + rest.0 == rest.0 && [] + rest.1 == rest.1;
  }

  /** A step appends to the folders or the files what the anchor yields:
      `next` is the step's result, as its contract gives it. */
  lemma StepYields(acc: Parsed, taken: bool, d: (Listed, seq<string>), next: Parsed)
    requires !taken ==> next == acc
    requires taken ==>
               next.errors == acc.errors + d.1
               && (d.0.kind == Classify.Folder ==> next.folders == acc.folders + [d.0] && next.files == acc.files)
               && (d.0.kind == Classify.File ==> next.files == acc.files + [d.0] && next.folders == acc.folders)
    ensures var first := if taken then [d.0] else [];
            next == Parsed(acc.folders + Filter(IsFolderEntry, first), acc.files + Filter(IsFileEntry, first),
                           acc.errors + (if taken then d.1 else []))
  {
    if taken {
      FilterOne(IsFolderEntry, d.0);
      FilterOne(IsFileEntry, d.0);
      if d.0.kind == Classify.Folder {
        assert acc.files + [] == acc.files;
      } else {
        assert acc.folders + [] == acc.folders;
      }
    } else {
      assert acc.folders + [] == acc.folders && acc.files + [] == acc.files && acc.errors + [] == acc.errors;
    }
  }

  /** Appending what one anchor yields and then what the rest yield is
      appending what they yield together. */
  lemma StepThenRest(acc: Parsed, first: seq<Listed>, errs: seq<string>, next: Parsed,
                     rest: (seq<Listed>, seq<string>), r: Parsed)
    requires next == Parsed(acc.folders + Filter(IsFolderEntry, first), acc.files + Filter(IsFileEntry, first),
                            acc.errors + errs)
    requires r == Parsed(next.folders + Filter(IsFolderEntry, rest.0), next.files + Filter(IsFileEntry, rest.0),
                         next.errors + rest.1)
    ensures r == Parsed(acc.folders + Filter(IsFolderEntry, first + rest.0),
                        acc.files + Filter(IsFileEntry, first + rest.0), acc.errors + (errs + rest.1))
  {
    FilterAppend(IsFolderEntry, first, rest.0);
    FilterAppend(IsFileEntry, first, rest.0);
    AppendAssoc(acc.folders, Filter(IsFolderEntry, first), Filter(IsFolderEntry, rest.0));
    AppendAssoc(acc.files, Filter(IsFileEntry, first), Filter(IsFileEntry, rest.0));
    AppendAssoc(acc.errors, errs, rest.1);
  }

  /** The loop over the de-duplicated anchors from position `i` on. */
  function Walk(base: Urls.Url, unique: seq<Anchor>, sameOriginOnly: bool, i: nat, acc: Parsed)
    : (r: Result<Parsed, string>)
    requires i <= |unique| && WellShaped(acc)
    ensures r.Failure? <==> exists k | i <= k < |unique| :: unique[k].target.None?
    ensures r.Failure? ==> r.error == InvalidUrl
    ensures r.Success? ==>
              WellShaped(r.value) && Extends(acc, r.value)
              && |r.value.folders| + |r.value.files|
                   == |acc.folders| + |acc.files| + AcceptedCount(unique[i..], base, sameOriginOnly)
    ensures r.Success? ==>
              var y := Yield(base, unique[i..], sameOriginOnly);
              r.value == Parsed(acc.folders + Filter(IsFolderEntry, y.0), acc.files + Filter(IsFileEntry, y.0),
                                acc.errors + y.1)
    decreases |unique| - i, 1
  {
    if i == |unique| then
      assert unique[i..] == [];
      assert acc.folders + [] == acc.folders && acc.files + [] == acc.files && acc.errors + [] == acc.errors;
      Success(acc)
    else
      match unique[i].target
      case None => Failure(InvalidUrl)
      case Some(target) => TakeAnchor(base, unique, sameOriginOnly, i, target, acc)
  }

  /** One turn of the loop for the anchor at `i`, resolved to `target`:
      take it in, then go on with the rest. */
  function TakeAnchor(base: Urls.Url, unique: seq<Anchor>, sameOriginOnly: bool, i: nat, target: Urls.Url,
                      acc: Parsed)
    : (r: Result<Parsed, string>)
    requires i < |unique| && unique[i].target == Some(target) && WellShaped(acc)
    ensures r.Failure? <==> exists k | i < k < |unique| :: unique[k].target.None?
    ensures r.Failure? ==> r.error == InvalidUrl
    ensures r.Success? ==>
              WellShaped(r.value) && Extends(acc, r.value)
              && |r.value.folders| + |r.value.files|
                   == |acc.folders| + |acc.files| + AcceptedCount(unique[i..], base, sameOriginOnly)
    ensures r.Success? ==>
              var y := Yield(base, unique[i..], sameOriginOnly);
              r.value == Parsed(acc.folders + Filter(IsFolderEntry, y.0), acc.files + Filter(IsFileEntry, y.0),
                                acc.errors + y.1)
    decreases |unique| - i, 0
  {
    var next := Step(base, sameOriginOnly, unique[i], target, acc);
    var r := Walk(base, unique, sameOriginOnly, i + 1, next);
    AcceptedCountStep(unique, i, base, sameOriginOnly);
    if r.Success? then
      ExtendsTransitive(acc, next, r.value);
      var d := Describe(unique[i], target, []);
      var taken := AcceptHref(target, base, sameOriginOnly);
      StepYields(acc, taken, d, next);
      YieldStep(base, unique, sameOriginOnly, i, target);
      StepThenRest(acc, if taken then [d.0] else [], if taken then d.1 else [], next,
                   Yield(base, unique[i + 1..], sameOriginOnly), r.value);
      r
    else r
  }

  lemma AcceptedCountStep(unique: seq<Anchor>, i: nat, base: Urls.Url, sameOriginOnly: bool)
    requires i < |unique|
    ensures AcceptedCount(unique[i..], base, sameOriginOnly)
            == (if Accepted(unique[i], base, sameOriginOnly) then 1 else 0)
               + AcceptedCount(unique[i + 1..], base, sameOriginOnly)
  {
    assert unique[i..][1..] == unique[i + 1..];
  }

  /** `parseDirectoryHtml(baseUrl, html, opts)`: `Failure` when a selected
      link cannot be resolved (the constructor's exception escapes). */
  function ParseDirectoryHtml(base: Urls.Url, doc: seq<Anchor>, sameOriginOnly: bool)
    : (r: Result<Parsed, string>)
    ensures var unique := DedupeAnchors(GatherAnchors(doc));
            (r.Failure? <==> exists a | a in unique :: a.target.None?)
            && (r.Success? ==>
                  |r.value.folders| + |r.value.files| == AcceptedCount(unique, base, sameOriginOnly)
                  && WellShaped(r.value))
    ensures r.Success? ==>
              var y := Yield(base, DedupeAnchors(GatherAnchors(doc)), sameOriginOnly);
              r.value == Parsed(Filter(IsFolderEntry, y.0), Filter(IsFileEntry, y.0), y.1)
  {
    var unique := DedupeAnchors(GatherAnchors(doc));
    var r := Walk(base, unique, sameOriginOnly, 0, Parsed([], [], []));
    assert unique[0..] == unique;
    assert forall a | a in unique :: exists k | 0 <= k < |unique| :: unique[k] == a;
    WalkAll(base, unique, sameOriginOnly);
    r
  }

  /** The walk from the first anchor with nothing gathered yields exactly
      what the accepted anchors yield. */
  lemma WalkAll(base: Urls.Url, unique: seq<Anchor>, sameOriginOnly: bool)
    ensures var r := Walk(base, unique, sameOriginOnly, 0, Parsed([], [], []));
            var y := Yield(base, unique, sameOriginOnly);
            r.Success? ==> r.value == Parsed(Filter(IsFolderEntry, y.0), Filter(IsFileEntry, y.0), y.1)
  {
    assert unique[0..] == unique;
    var y := Yield(base, unique, sameOriginOnly);
    assert [] + Filter(IsFolderEntry, y.0) == Filter(IsFolderEntry, y.0);
    assert [] + Filter(IsFileEntry, y.0) == Filter(IsFileEntry, y.0) && [] + y.1 == y.1;
  }
}

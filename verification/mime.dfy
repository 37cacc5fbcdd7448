/** MIME-type and size enrichment by HEAD requests (dist/core/mime.js).
    The network is an oracle giving each file's probe outcome; the
    semaphore only bounds how many probes are in flight, so the model takes
    the completion order as a parameter and shows the entries do not
    depend on it. */
module Mime {
  import opened Wrappers
  import opened Strs
  import Urls
  import Entries

  /** What `fetch(url, { method: 'HEAD' })` gives: a thrown error (network
      failure or the timeout's abort) or a response with its status and the
      Content-Type and Content-Length headers (`None` when absent). */
  datatype ProbeReply = Threw | Replied(status: int, contentType: Option<string>, contentLength: Option<string>)

  const NotSupported := "mime: HEAD not supported"

  function FailedHead(f: Entries.FileEntry): string { "mime: failed HEAD for " + Urls.Href(f.url) }

  /** `Number(len)` for the header forms modelled: blank text is 0, a run of
      decimal digits (surrounding white space trimmed) is its value, and
      every other text is `None` (NaN or a form left out). */
  function NumberOf(len: string): (r: Option<nat>)
    ensures Trim(len) == "" ==> r == Some(0)
    ensures r.Some? && Trim(len) != "" ==> forall k | 0 <= k < |Trim(len)| :: IsDigit(Trim(len)[k])
  {
    var t := Trim(len);
    if t == "" then Some(0)
    else if forall k | 0 <= k < |t| :: IsDigit(t[k]) then Some(DigitsValue(t))
    else None
  }

  /** `!f.mime`: unset or empty. */
  predicate NoMime(f: Entries.FileEntry) { f.mime.None? || f.mime.value == "" }

  /** `!f.size`: unset or zero. */
  predicate NoSize(f: Entries.FileEntry) { f.size.None? || f.size.value == 0 }

  /** The effect of one probe on its file, the HEAD counter and the errors. */
  function Probe(f: Entries.FileEntry, reply: ProbeReply, heads: nat, errors: seq<string>)
    : (r: (Entries.FileEntry, nat, seq<string>))
    ensures r.0.url == f.url && r.0.rawName == f.rawName && r.0.name == f.name
            && r.0.hidden == f.hidden && r.0.date == f.date
    ensures r.1 == heads + (if reply.Replied? then 1 else 0)
    ensures !NoMime(f) ==> r.0.mime == f.mime
    ensures !NoSize(f) ==> r.0.size == f.size
    ensures reply.Replied? && NoSize(f)
            && (reply.contentLength.None? || reply.contentLength.value == ""
                || NumberOf(reply.contentLength.value).None?)
            ==> r.0.size == f.size
    ensures reply.Threw? ==> r.0 == f && r.2 == errors + [FailedHead(f)]
    ensures reply.Replied? && 200 <= reply.status <= 299 ==>
              r.2 == errors
              && (NoMime(f) ==> r.0.mime == reply.contentType)
              && ((NoSize(f) && reply.contentLength.Some? && reply.contentLength.value != ""
                   && NumberOf(reply.contentLength.value).Some?) ==> r.0.size == NumberOf(reply.contentLength.value))
    ensures reply.Replied? && !(200 <= reply.status <= 299) ==>
              r.0 == f && r.2 == errors + (if reply.status in {405, 501} then [NotSupported] else [])
  {
    match reply
    case Threw => (f, heads, errors + [FailedHead(f)])
    case Replied(status, contentType, contentLength) =>
      if 200 <= status <= 299 then
        var withMime := if NoMime(f) then f.(mime := contentType) else f;
        var withSize :=
          match contentLength
          case Some(len) =>
            if len != "" && NoSize(f) && NumberOf(len).Some? then withMime.(size := NumberOf(len)) else withMime
          case None => withMime;
        (withSize, heads + 1, errors)
      else if status == 405 || status == 501 then (f, heads + 1, errors + [NotSupported])
      else (f, heads + 1, errors)
  }

  /** How many of the probes at `order` got a response. */
  function Responses(order: seq<nat>, probe: nat -> ProbeReply): nat {
    if |order| == 0 then 0
    else (if probe(order[0]).Replied? then 1 else 0) + Responses(order[1..], probe)
  }

  /** An error enrichment may add. */
  predicate MimeError(e: string) { e == NotSupported || StartsWith(e, "mime: failed HEAD for ") }

  /** Probes complete in `order` (positions in `files`). */
  function Complete(files: seq<Entries.FileEntry>, order: seq<nat>, probe: nat -> ProbeReply,
                    heads: nat, errors: seq<string>)
    : (r: (seq<Entries.FileEntry>, nat, seq<string>))
    requires forall k | 0 <= k < |order| :: order[k] < |files|
    ensures |r.0| == |files| && r.1 == heads + Responses(order, probe)
    ensures |r.2| >= |errors| && r.2[..|errors|] == errors
    ensures forall k | |errors| <= k < |r.2| :: MimeError(r.2[k])
    decreases |order|
  {
    if |order| == 0 then (files, heads, errors)
    else
      var i := order[0];
      var (f, h, e) := Probe(files[i], probe(i), heads, errors);
      assert forall k | |errors| <= k < |e| :: MimeError(e[k]) by {
        assert "mime: failed HEAD for " + Urls.Href(files[i].url) == FailedHead(files[i]);
        assert StartsWith(FailedHead(files[i]), "mime: failed HEAD for ");
      }
      var r := Complete(files[i := f], order[1..], probe, h, e);
      assert r.2[..|errors|] == r.2[..|e|][..|errors|];
      assert forall k | |errors| <= k < |e| :: r.2[k] == e[k];
      r
  }

  /** Whatever the completion order, each file ends as its own probe left it. */
  lemma {:induction false} CompletionOrderIrrelevant(files: seq<Entries.FileEntry>, order: seq<nat>,
                                                     probe: nat -> ProbeReply, heads: nat, errors: seq<string>)
    requires forall k | 0 <= k < |order| :: order[k] < |files|
    requires forall x, y | 0 <= x < y < |order| :: order[x] != order[y]
    ensures var r := Complete(files, order, probe, heads, errors).0;
            forall i | 0 <= i < |files| ::
              r[i] == (if i in order then Probe(files[i], probe(i), 0, []).0 else files[i])
    decreases |order|
  {
    if |order| > 0 {
      var i := order[0];
      var (f, h, e) := Probe(files[i], probe(i), heads, errors);
      var files' := files[i := f];
      CompletionOrderIrrelevant(files', order[1..], probe, h, e);
      ProbeIgnoresCounters(files[i], probe(i), heads, errors);
      forall j | 0 <= j < |files|
        ensures j in order <==> j == i || j in order[1..]
      {
        assert order == [i] + order[1..];
      }
      assert i !in order[1..];
    }
  }

  /** A probe's effect on its file does not depend on the counter or the errors. */
  lemma ProbeIgnoresCounters(f: Entries.FileEntry, reply: ProbeReply, heads: nat, errors: seq<string>)
    ensures Probe(f, reply, heads, errors).0 == Probe(f, reply, 0, []).0
  {
  }

  /** `0, 1, ..., n - 1` */
  function Positions(n: nat): (r: seq<nat>)
    ensures |r| == n && forall k | 0 <= k < n :: r[k] == k
  {
    seq(n, k requires 0 <= k < n => k)
  }

  /** `enrichMime(files, opts, stats, errors)`, with the probes completing
      in file order. */
  function EnrichMime(files: seq<Entries.FileEntry>, includeMime: bool, probe: nat -> ProbeReply,
                      heads: nat, errors: seq<string>)
    : (r: (seq<Entries.FileEntry>, nat, seq<string>))
    ensures |r.0| == |files| && |r.2| >= |errors| && r.2[..|errors|] == errors
    ensures forall k | |errors| <= k < |r.2| :: MimeError(r.2[k])
    ensures r.1 == heads + (if includeMime then Responses(Positions(|files|), probe) else 0)
    ensures !includeMime || |files| == 0 ==> r == (files, heads, errors)
    ensures includeMime ==>
              forall i | 0 <= i < |files| :: r.0[i] == Probe(files[i], probe(i), 0, []).0
  {
    if !includeMime || |files| == 0 then (files, heads, errors)
    else
      var order := Positions(|files|);
      CompletionOrderIrrelevant(files, order, probe, heads, errors);
      assert forall i | 0 <= i < |files| :: i in order by {
        forall i | 0 <= i < |files|
          ensures i in order
        {
          assert order[i] == i;
        }
      }
      Complete(files, order, probe, heads, errors)
  }

  lemma NumberOfExample()
    ensures NumberOf("4096") == Some(4096)
  {
    assert Trim("4096") == "4096";
    assert DigitsValue("4096") == 4096 by {
      assert "4096"[..3] == "409" && "409"[..2] == "40" && "40"[..1] == "4";
    }
  }

  /** A 200 reply with a Content-Type and a Content-Length of 4096 fills
      both fields of a file that had neither. */
  lemma ProbeExample(f: Entries.FileEntry, reply: ProbeReply)
    requires f.mime.None? && f.size.None?
    requires reply == Replied(200, Some("application/octet-stream"), Some("4096"))
    ensures var p := Probe(f, reply, 0, []).0;
            p.mime == Some("application/octet-stream") && p.size == Some(4096)
  {
    NumberOfExample();
  }

  lemma OneResponse(probe: nat -> ProbeReply)
    requires probe(0).Replied?
    ensures Responses(Positions(1), probe) == 1
  {
    assert Positions(1) == [0];
    assert [0][1..] == [];
  }

  /** The integration-test witness: a 200 reply with a Content-Type and a
      Content-Length fills both fields of a fresh file and counts one HEAD. */
  lemma EnrichExample(f: Entries.FileEntry, probe: nat -> ProbeReply)
    requires f.mime.None? && f.size.None?
    requires probe(0) == Replied(200, Some("application/octet-stream"), Some("4096"))
    ensures var r := EnrichMime([f], true, probe, 0, []);
            r.0[0].mime == Some("application/octet-stream") && r.0[0].size == Some(4096) && r.1 == 1
  {
    ProbeExample(f, probe(0));
    OneResponse(probe);
    var r := EnrichMime([f], true, probe, 0, []);
    assert r.0[0] == Probe([f][0], probe(0), 0, []).0;
  }
}

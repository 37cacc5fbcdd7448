/** `decodeURIComponent` (percent-decoding per section 2.1 of RFC 3986, then
    UTF-8 decoding per section 3 of RFC 3629, as ECMA-262's `Decode` abstract
    operation with an empty reserved set does it) and the crawler's
    never-throwing wrapper `safeDecodeURIComponent` (src/utils/decode.ts). */
module Decoding {
  import opened Wrappers
  import opened Strs

  predicate IsHex(c: char) { IsDigit(c) || 'a' <= c <= 'f' || 'A' <= c <= 'F' }

  function HexValue(c: char): (v: nat)
    requires IsHex(c)
    ensures v < 16
  {
    if IsDigit(c) then c as int - '0' as int
    else if 'a' <= c <= 'f' then c as int - 'a' as int + 10
    else c as int - 'A' as int + 10
  }

  /** A complete `%XX` escape starts at index `k`. */
  predicate EscapeAt(s: string, k: int) {
    0 <= k && k + 2 < |s| && s[k] == '%' && IsHex(s[k + 1]) && IsHex(s[k + 2])
  }

  /** The octet the escape at `k` denotes. */
  function ByteAt(s: string, k: int): (b: nat)
    requires EscapeAt(s, k)
    ensures b < 256
  {
    HexValue(s[k + 1]) * 16 + HexValue(s[k + 2])
  }

  /** Number of leading 1 bits of an octet: the length of the UTF-8
      sequence it starts (0 for ASCII, 1 for a continuation octet). */
  function LeadingOnes(b: nat): nat
    requires b < 256
  {
    if b < 0x80 then 0 else if b < 0xC0 then 1 else if b < 0xE0 then 2
    else if b < 0xF0 then 3 else if b < 0xF8 then 4 else if b < 0xFC then 5
    else if b < 0xFE then 6 else if b < 0xFF then 7 else 8
  }

  predicate IsContinuation(b: nat) { 0x80 <= b < 0xC0 }

  /** The escapes following a lead octet at index 0 that a sequence of `n`
      octets needs are all present and all continuation octets. */
  predicate ContinuationsAt(s: string, n: nat) {
    forall m :: 1 <= m < n ==> ContinuationAt(s, m)
  }

  /** The `m`-th escape of a sequence is present and is a continuation octet. */
  predicate ContinuationAt(s: string, m: nat) {
    EscapeAt(s, 3 * m) && IsContinuation(ByteAt(s, 3 * m))
  }

  /** The code point an `n`-octet sequence at index 0 encodes. */
  function CodePoint(s: string, n: nat): (cp: nat)
    requires 2 <= n <= 4 && EscapeAt(s, 0) && LeadingOnes(ByteAt(s, 0)) == n && ContinuationsAt(s, n)
    ensures n == 2 ==> cp < 0x800
    ensures n == 3 ==> cp < 0x10000
    ensures n == 4 ==> cp < 0x200000
  {
    assert ContinuationAt(s, 1);
    assert n >= 3 ==> ContinuationAt(s, 2);
    assert n >= 4 ==> ContinuationAt(s, 3);
    var b0 := ByteAt(s, 0);
    var b1 := ByteAt(s, 3) - 0x80;
    if n == 2 then (b0 - 0xC0) * 64 + b1
    else
      var b2 := ByteAt(s, 6) - 0x80;
      if n == 3 then (b0 - 0xE0) * 4096 + b1 * 64 + b2
      else (b0 - 0xF0) * 262144 + b1 * 4096 + b2 * 64 + (ByteAt(s, 9) - 0x80)
  }

  /** The octets are the shortest encoding of a Unicode scalar value
      (no overlong form, no surrogate, nothing above U+10FFFF). */
  predicate ValidScalar(cp: nat, n: nat) {
    if n == 2 then 0x80 <= cp
    else if n == 3 then 0x800 <= cp && !(0xD800 <= cp <= 0xDFFF)
    else 0x10000 <= cp <= 0x10FFFF
  }

  function Prepend(c: char, rest: Option<string>): Option<string> {
    match rest
    case Some(r) => Some([c] + r)
    case None => None
  }

  /** `decodeURIComponent`: `None` where the built-in throws `URIError`. */
  function Decode(s: string): Option<string>
    decreases |s|
  {
    if |s| == 0 then Some("")
    else if s[0] != '%' then Prepend(s[0], Decode(s[1..]))
    else if !EscapeAt(s, 0) then None
    else
      var n := LeadingOnes(ByteAt(s, 0));
      if n == 0 then Prepend(ByteAt(s, 0) as char, Decode(s[3..]))
      else if n == 1 || n > 4 then None
      else if !ContinuationsAt(s, n) then None
      else
        var cp := CodePoint(s, n);
        if !ValidScalar(cp, n) then None
        else
          assert ContinuationAt(s, n - 1);
          Prepend(cp as char, Decode(s[3 * n..]))
  }

  /** Text without `%` decodes to itself. */
  lemma {:induction false} DecodeWithoutPercent(s: string)
    requires '%' !in s
    ensures Decode(s) == Some(s)
    decreases |s|
  {
    if |s| > 0 {
      assert '%' !in s[1..];
      DecodeWithoutPercent(s[1..]);
      assert [s[0]] + s[1..] == s;
    }
  }

  lemma DecodePlain(s: string)
    ensures '%' !in s ==> Decode(s) == Some(s)
  {
    if '%' !in s {
      DecodeWithoutPercent(s);
    }
  }

  /** Within a well-formed multi-octet sequence every `%` starts an escape. */
  lemma EscapesInside(s: string, n: nat)
    requires 2 <= n && EscapeAt(s, 0) && ContinuationsAt(s, n)
    ensures 3 * n <= |s|
    ensures forall p :: 0 <= p < 3 * n && s[p] == '%' ==> EscapeAt(s, p)
  {
    assert ContinuationAt(s, n - 1);
    forall p | 0 <= p < 3 * n && s[p] == '%'
      ensures EscapeAt(s, p)
    {
      var m := p / 3;
      if m > 0 {
        assert ContinuationAt(s, m);
      }
    }
  }

  /** A `%` that is not followed by two hexadecimal digits makes decoding fail. */
  lemma {:induction false} MalformedEscapeFails(s: string, k: nat)
    requires k < |s| && s[k] == '%' && !EscapeAt(s, k)
    ensures Decode(s) == None
    decreases |s|
  {
    if k == 0 {
    } else if s[0] != '%' {
      MalformedEscapeFails(s[1..], k - 1);
    } else if EscapeAt(s, 0) {
      var n := LeadingOnes(ByteAt(s, 0));
      if n == 0 {
        MalformedEscapeFails(s[3..], k - 3);
      } else if 2 <= n <= 4 && ContinuationsAt(s, n) && ValidScalar(CodePoint(s, n), n) {
        EscapesInside(s, n);
        MalformedEscapeFails(s[3 * n..], k - 3 * n);
      }
    }
  }

  /** The characters `encodeURIComponent` leaves alone. */
  predicate Unreserved(c: char) {
    IsAsciiLetter(c) || IsDigit(c) || c in "-_.!~*'()"
  }

  function HexDigit(v: nat): (c: char)
    requires v < 16
    ensures IsHex(c) && HexValue(c) == v
  {
    "0123456789ABCDEF"[v]
  }

  /** `%XX` for one octet. */
  function Escape(b: nat): (e: string)
    requires b < 256
    ensures |e| == 3 && EscapeAt(e, 0) && ByteAt(e, 0) == b
  {
    ['%', HexDigit(b / 16), HexDigit(b % 16)]
  }

  /** The UTF-8 octets of a Unicode scalar value. */
  function Utf8(c: char): (bs: seq<nat>)
    ensures 1 <= |bs| <= 4
    ensures forall k :: 0 <= k < |bs| ==> bs[k] < 256
  {
    var cp := c as int;
    if cp < 0x80 then [cp]
    else if cp < 0x800 then [0xC0 + cp / 64, 0x80 + cp % 64]
    else if cp < 0x10000 then [0xE0 + cp / 4096, 0x80 + (cp / 64) % 64, 0x80 + cp % 64]
    else [0xF0 + cp / 262144, 0x80 + (cp / 4096) % 64, 0x80 + (cp / 64) % 64, 0x80 + cp % 64]
  }

  function EscapeAll(bs: seq<nat>): (e: string)
    requires forall k :: 0 <= k < |bs| ==> bs[k] < 256
    ensures |e| == 3 * |bs|
  {
    if |bs| == 0 then "" else Escape(bs[0]) + EscapeAll(bs[1..])
  }

  /** `encodeURIComponent` on text made of Unicode scalar values. */
  function Encode(s: string): string
  {
    if |s| == 0 then ""
    else (if Unreserved(s[0]) then [s[0]] else EscapeAll(Utf8(s[0]))) + Encode(s[1..])
  }

  /** The escapes of a byte sequence sit at every third index. */
  lemma EscapeAllAt(bs: seq<nat>, rest: string, m: nat)
    requires forall k :: 0 <= k < |bs| ==> bs[k] < 256
    requires m < |bs|
    ensures EscapeAt(EscapeAll(bs) + rest, 3 * m) && ByteAt(EscapeAll(bs) + rest, 3 * m) == bs[m]
    decreases m
  {
    var tail := EscapeAll(bs[1..]) + rest;
    assert EscapeAll(bs) + rest == Escape(bs[0]) + tail;
    if m == 0 {
      EscapeBefore(Escape(bs[0]), tail, 0);
    } else {
      EscapeAllAt(bs[1..], rest, m - 1);
      EscapeAfter(Escape(bs[0]), tail, 3 * (m - 1));
    }
  }

  /** An escape keeps its meaning when text is appended. */
  lemma EscapeBefore(x: string, y: string, k: nat)
    requires EscapeAt(x, k)
    ensures EscapeAt(x + y, k) && ByteAt(x + y, k) == ByteAt(x, k)
  {
    assert (x + y)[k + 1] == x[k + 1] && (x + y)[k + 2] == x[k + 2];
  }

  /** An escape keeps its meaning when text is prepended. */
  lemma EscapeAfter(x: string, y: string, k: nat)
    requires EscapeAt(y, k)
    ensures EscapeAt(x + y, |x| + k) && ByteAt(x + y, |x| + k) == ByteAt(y, k)
  {
    assert (x + y)[|x| + k + 1] == y[k + 1] && (x + y)[|x| + k + 2] == y[k + 2];
  }

  /** One step of `Decode` over a well-formed multi-octet sequence. */
  lemma DecodeSequence(s: string, n: nat, cp: nat)
    requires 2 <= n <= 4 && EscapeAt(s, 0) && LeadingOnes(ByteAt(s, 0)) == n && ContinuationsAt(s, n)
    requires CodePoint(s, n) == cp && ValidScalar(cp, n)
    ensures 3 * n <= |s| && (cp < 0xD800 || 0xE000 <= cp < 0x110000)
    ensures Decode(s) == Prepend(cp as char, Decode(s[3 * n..]))
  {
    assert ContinuationAt(s, n - 1);
  }

  lemma TwoOctetArith(cp: int)
    requires 0x80 <= cp < 0x800
    ensures 0xC2 <= 0xC0 + cp / 64 < 0xE0 && (cp / 64) * 64 + cp % 64 == cp
  {
  }

  lemma ThreeOctetArith(cp: int)
    requires 0x800 <= cp < 0x10000
    ensures 0xE0 <= 0xE0 + cp / 4096 < 0xF0
    ensures (cp / 4096) * 4096 + ((cp / 64) % 64) * 64 + cp % 64 == cp
  {
    var q := cp / 64;
    assert cp == q * 64 + cp % 64;
    assert q == (q / 64) * 64 + q % 64;
    assert cp / 4096 == q / 64;
  }

  lemma FourOctetArith(cp: int)
    requires 0x10000 <= cp <= 0x10FFFF
    ensures 0xF0 <= 0xF0 + cp / 262144 < 0xF8
    ensures (cp / 262144) * 262144 + ((cp / 4096) % 64) * 4096 + ((cp / 64) % 64) * 64 + cp % 64 == cp
  {
    var q := cp / 64;
    var r := q / 64;
    assert cp == q * 64 + cp % 64;
    assert q == r * 64 + q % 64;
    assert r == (r / 64) * 64 + r % 64;
    assert cp / 4096 == r;
    assert cp / 262144 == r / 64;
  }

  /** The escapes of `Utf8(c)` followed by `rest` satisfy the premises of `DecodeSequence`. */
  lemma EscapedSequence(c: char, rest: string, s: string)
    requires |Utf8(c)| >= 2 && s == EscapeAll(Utf8(c)) + rest
    ensures EscapeAt(s, 0) && LeadingOnes(ByteAt(s, 0)) == |Utf8(c)| && ContinuationsAt(s, |Utf8(c)|)
    ensures CodePoint(s, |Utf8(c)|) == c as int && ValidScalar(c as int, |Utf8(c)|)
    ensures s[3 * |Utf8(c)|..] == rest
  {
    var bs := Utf8(c);
    var n := |bs|;
    Utf8Shape(c);
    forall m | 0 <= m < n
      ensures EscapeAt(s, 3 * m) && ByteAt(s, 3 * m) == bs[m]
    {
      EscapeAllAt(bs, rest, m);
    }
    assert ContinuationsAt(s, n);
    assert s[3 * n..] == rest;
    CodePointOf(c, s);
  }

  /** A multi-octet encoding is a lead octet announcing its length, then continuation octets. */
  lemma Utf8Shape(c: char)
    ensures |Utf8(c)| >= 2 ==> LeadingOnes(Utf8(c)[0]) == |Utf8(c)|
    ensures forall m | 1 <= m < |Utf8(c)| :: IsContinuation(Utf8(c)[m])
  {
    var cp := c as int;
    if 0x80 <= cp < 0x800 {
      TwoOctetArith(cp);
    } else if 0x800 <= cp < 0x10000 {
      ThreeOctetArith(cp);
    } else if 0x10000 <= cp {
      FourOctetArith(cp);
    }
  }

  lemma CodePointOf(c: char, s: string)
    requires |Utf8(c)| >= 2
    requires EscapeAt(s, 0) && LeadingOnes(ByteAt(s, 0)) == |Utf8(c)| && ContinuationsAt(s, |Utf8(c)|)
    requires forall m :: 0 <= m < |Utf8(c)| ==> EscapeAt(s, 3 * m) && ByteAt(s, 3 * m) == Utf8(c)[m]
    ensures CodePoint(s, |Utf8(c)|) == c as int && ValidScalar(c as int, |Utf8(c)|)
  {
    var cp := c as int;
    var n := |Utf8(c)|;
    assert ByteAt(s, 3 * 0) == Utf8(c)[0] && ByteAt(s, 3 * 1) == Utf8(c)[1];
    if n == 2 {
      TwoOctetArith(cp);
    } else if n == 3 {
      assert ByteAt(s, 3 * 2) == Utf8(c)[2];
      ThreeOctetArith(cp);
    } else {
      assert ByteAt(s, 3 * 2) == Utf8(c)[2] && ByteAt(s, 3 * 3) == Utf8(c)[3];
      FourOctetArith(cp);
    }
  }

  /** Decoding the encoding of one character gives that character back. */
  lemma DecodeEncodedChar(c: char, rest: string)
    ensures Decode((if Unreserved(c) then [c] else EscapeAll(Utf8(c))) + rest) == Prepend(c, Decode(rest))
  {
    var s := (if Unreserved(c) then [c] else EscapeAll(Utf8(c))) + rest;
    if Unreserved(c) {
      assert s[1..] == rest;
    } else if |Utf8(c)| == 1 {
      EscapeAllAt(Utf8(c), rest, 0);
      assert s[3..] == rest;
    } else {
      EscapedSequence(c, rest, s);
      DecodeSequence(s, |Utf8(c)|, c as int);
    }
  }

  /** `encodeURIComponent` followed by `decodeURIComponent` is the identity. */
  lemma {:induction false} DecodeEncode(s: string)
    ensures Decode(Encode(s)) == Some(s)
    decreases |s|
  {
    if |s| > 0 {
      DecodeEncode(s[1..]);
      DecodeEncodedChar(s[0], Encode(s[1..]));
      assert [s[0]] + s[1..] == s;
    }
  }

  /** `safeDecodeURIComponent(segment, errors)`: the decoded text and the
      error list after the call. */
  function SafeDecode(segment: string, errors: seq<string>): (r: (string, seq<string>))
    ensures Decode(segment).Some? ==> r.0 == Decode(segment).value && r.1 == errors
    ensures Decode(segment).None? ==>
              (r.0 == segment && |r.1| == |errors| + 1 && r.1[..|errors|] == errors
               && StartsWith(r.1[|errors|], "decode:"))
  {
    match Decode(segment)
    case Some(d) => (d, errors)
    case None => (segment, errors + ["decode: failed to decode segment '" + segment + "'"])
  }
  /** The errors a decoding appends do not depend on the earlier ones. */
  lemma SafeDecodeAppends(segment: string, errors: seq<string>)
    ensures SafeDecode(segment, errors).1 == errors + SafeDecode(segment, []).1
  {
  }

}

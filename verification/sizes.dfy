/** Size heuristics for listing metadata (dist/utils/size.js). Date and time
    stamps are blanked out first, then number+unit tokens are scanned the way
    the global regular expression `/(\d+(?:\.\d+)?)([KMGTP]?B?)/gi` finds
    them, filtered, and the largest byte count wins. A token's value is an
    exact decimal, so the byte count is an exact floor. */
module Sizes {
  import opened Wrappers
  import opened Strs
  import Dates
  import opened Seqs

  // ---------------------------------------------------------------------
  // stripDateTime
  // ---------------------------------------------------------------------

  /** The three stamp patterns replaced by a space, in order:
      `/\d{4}-\d{2}-\d{2}[ T]\d{2}:\d{2}(?::\d{2})?/g`,
      `/\d{2}-\w{3}-\d{4}\s\d{2}:\d{2}/g` and
      `/\d{1,2}\/\d{1,2}\/\d{2,4}\s\d{1,2}:\d{2}(?:\s?(?:AM|PM))?/gi`. */
  datatype Stamp = IsoStamp | ApacheStamp | UsStamp

  /** End of the US stamp at `i`. Every `\d{1,2}` and the `\d{2,4}` year are
      followed by a non-digit, so each takes its whole digit run; the optional
      marker tail is taken whenever it is there. */
  function UsStampEnd(t: string, i: nat): (e: Option<nat>)
    ensures e.Some? ==> i + 11 <= e.value <= |t|
  {
    match Dates.OneOrTwoDigits(t, i, '/')
    case None => None
    case Some(me) =>
      match Dates.OneOrTwoDigits(t, me + 1, '/')
      case None => None
      case Some(de) =>
        var ye := DigitRunEnd(t, de + 1);
        if !(2 <= ye - (de + 1) <= 4 && ye < |t| && IsSpace(t[ye])) then None
        else
          match Dates.OneOrTwoDigits(t, ye + 1, ':')
          case None => None
          case Some(he) =>
            if !Dates.DigitsAt(t, he + 1, 2) then None
            else
              match Dates.MarkerStart(t, he + 3)
              case None => Some(he + 3)
              case Some(mk) => Some(mk + 2)
  }

  /** End of the match of stamp `p` starting at `i`, if one starts there. */
  function StampEnd(p: Stamp, t: string, i: nat): (e: Option<nat>)
    ensures e.Some? ==> i + 11 <= e.value <= |t|
  {
    match p
    case IsoStamp =>
      if !Dates.IsoAt(t, i) then None
      else if Dates.IsoSecondsAt(t, i) then Some(i + 19) else Some(i + 16)
    case ApacheStamp => if Dates.ApacheAt(t, i) then Some(i + 17) else None
    case UsStamp => UsStampEnd(t, i)
  }

  /** `t.slice(i).replace(pattern, ' ')` for a global pattern: from each
      position, a match is replaced by one space and the scan resumes after
      it; otherwise the character is kept. */
  function Replace(p: Stamp, t: string, i: nat): (r: string)
    requires i <= |t|
    ensures |r| <= |t| - i
    decreases |t| - i
  {
    if i == |t| then ""
    else
      match StampEnd(p, t, i)
      case Some(e) => " " + Replace(p, t, e)
      case None => [t[i]] + Replace(p, t, i + 1)
  }

  /** `stripDateTime(text)` */
  function StripDateTime(text: string): (r: string)
    ensures |r| <= |text|
  {
    var a := Replace(IsoStamp, text, 0);
    var b := Replace(ApacheStamp, a, 0);
    Replace(UsStamp, b, 0)
  }

  /** Text too short to hold any stamp is left as it is. */
  lemma {:induction false} ReplaceShort(p: Stamp, t: string, i: nat)
    requires i <= |t| < i + 11
    ensures Replace(p, t, i) == t[i..]
    decreases |t| - i
  {
    if i < |t| {
      ReplaceShort(p, t, i + 1);
      assert t[i..] == [t[i]] + t[i + 1..];
    }
  }

  /** Text in which the stamp matches nowhere is left as it is. */
  lemma {:induction false} ReplaceNoMatch(p: Stamp, t: string, i: nat)
    requires i <= |t| && forall k | i <= k < |t| :: StampEnd(p, t, k).None?
    ensures Replace(p, t, i) == t[i..]
    decreases |t| - i
  {
    if i < |t| {
      ReplaceNoMatch(p, t, i + 1);
      assert t[i..] == [t[i]] + t[i + 1..];
    }
  }

  /** One step of the scan where no match starts: the character is kept. */
  lemma ReplaceKeeps(p: Stamp, t: string, i: nat)
    requires i < |t| && StampEnd(p, t, i).None?
    ensures Replace(p, t, i) == [t[i]] + Replace(p, t, i + 1)
  {
  }

  /** One step of the scan where a match starts: it becomes a space. */
  lemma ReplaceSpaces(p: Stamp, t: string, i: nat, e: nat)
    requires i < |t| && StampEnd(p, t, i) == Some(e)
    ensures Replace(p, t, i) == " " + Replace(p, t, e)
  {
  }

  /** Scanning from `j`, the first position where a stamp matches is
      replaced, with all of its match, by one space; the characters before
      it are kept and the scan resumes after the match. */
  lemma {:induction false} ReplaceFirstStamp(p: Stamp, t: string, j: nat, i: nat, e: nat)
    requires j <= i < |t| && StampEnd(p, t, i) == Some(e)
    requires forall k | j <= k < i :: StampEnd(p, t, k).None?
    ensures Replace(p, t, j) == t[j..i] + (" " + Replace(p, t, e))
    decreases i - j
  {
    var rest := " " + Replace(p, t, e);
    if j < i {
      ReplaceKeeps(p, t, j);
      ReplaceFirstStamp(p, t, j + 1, i, e);
    } else {
      ReplaceSpaces(p, t, i, e);
    }
    SliceCons(t, j, i, rest);
  }

  /** Every stamp starts with a digit, so text without digits is left as it is. */
  lemma ReplaceWithoutDigits(p: Stamp, t: string)
    requires forall k | 0 <= k < |t| :: !IsDigit(t[k])
    ensures Replace(p, t, 0) == t
  {
    forall k | 0 <= k < |t|
      ensures StampEnd(p, t, k).None?
    {
      assert !IsDigit(t[k]);
    }
    ReplaceNoMatch(p, t, 0);
  }

  lemma StripShort(text: string)
    requires |text| < 11
    ensures StripDateTime(text) == text
  {
    ReplaceShort(IsoStamp, text, 0);
    ReplaceShort(ApacheStamp, text, 0);
    ReplaceShort(UsStamp, text, 0);
  }

  // ---------------------------------------------------------------------
  // Tokens of `/(\d+(?:\.\d+)?)([KMGTP]?B?)/gi`
  // ---------------------------------------------------------------------

  /** A token: its digits run over `[index, intEnd)`, an optional fraction
      `.ddd` over `[intEnd, numEnd)`, and an optional unit over `[numEnd, end)`. */
  datatype Token = Token(index: nat, intEnd: nat, numEnd: nat, end: nat)

  predicate IsUnitLetter(c: char) { c in "KMGTPkmgtp" }

  predicate IsByteLetter(c: char) { c == 'B' || c == 'b' }

  /** The greedy match at `i`: all digits, the fraction when a digit follows
      the '.', then a unit letter and a 'B' when present. */
  function TokenAt(t: string, i: nat): (tok: Token)
    requires i < |t| && IsDigit(t[i])
    ensures tok.index == i < tok.intEnd <= tok.numEnd <= tok.end <= |t|
    ensures forall k | i <= k < tok.intEnd :: IsDigit(t[k])
    // `\d+` takes the whole digit run
    ensures tok.intEnd == |t| || !IsDigit(t[tok.intEnd])
    // `(?:\.\d+)?` is taken exactly when a '.' and a digit follow, and then whole
    ensures tok.numEnd > tok.intEnd <==>
              tok.intEnd + 1 < |t| && t[tok.intEnd] == '.' && IsDigit(t[tok.intEnd + 1])
    ensures tok.numEnd > tok.intEnd ==>
              (forall k | tok.intEnd < k < tok.numEnd :: IsDigit(t[k]))
              && (tok.numEnd == |t| || !IsDigit(t[tok.numEnd]))
    // `[KMGTP]?B?`: a unit letter when one follows, then a 'B' when one follows
    ensures tok.end <= tok.numEnd + 2
    ensures tok.numEnd < |t| && IsUnitLetter(t[tok.numEnd]) ==>
              tok.end > tok.numEnd
              && (tok.numEnd + 1 < |t| && IsByteLetter(t[tok.numEnd + 1]) <==> tok.end == tok.numEnd + 2)
    ensures tok.numEnd < |t| && !IsUnitLetter(t[tok.numEnd]) ==>
              tok.end == tok.numEnd + (if IsByteLetter(t[tok.numEnd]) then 1 else 0)
  {
    var d := DigitRunEnd(t, i);
    var f := if d + 1 < |t| && t[d] == '.' && IsDigit(t[d + 1]) then DigitRunEnd(t, d + 1) else d;
    var u := if f < |t| && IsUnitLetter(t[f]) then f + 1 else f;
    var b := if u < |t| && IsByteLetter(t[u]) then u + 1 else u;
    Token(i, d, f, b)
  }

  /** A token is well formed in `t`. */
  predicate WellFormed(t: string, tok: Token) {
    tok.index < tok.intEnd <= tok.numEnd <= tok.end <= |t|
    && (forall k | tok.index <= k < tok.intEnd :: IsDigit(t[k]))
    && (tok.numEnd > tok.intEnd ==>
          tok.numEnd >= tok.intEnd + 2 && t[tok.intEnd] == '.'
          && forall k | tok.intEnd < k < tok.numEnd :: IsDigit(t[k]))
  }

  /** The tokens `re.exec` returns in turn from `lastIndex == i`. */
  function Tokens(t: string, i: nat): (r: seq<Token>)
    requires i <= |t|
    ensures forall k | 0 <= k < |r| :: i <= r[k].index && WellFormed(t, r[k])
    ensures forall k | 0 <= k < |r| - 1 :: r[k].end <= r[k + 1].index
    decreases |t| - i
  {
    if i == |t| then []
    else if !IsDigit(t[i]) then Tokens(t, i + 1)
    else
      var tok := TokenAt(t, i);
      [tok] + Tokens(t, tok.end)
  }

  /** Every digit at or after `i` lies inside a token: the scan misses no number. */
  lemma {:induction false} TokensCoverDigits(t: string, i: nat, k: nat)
    requires i <= k < |t| && IsDigit(t[k])
    ensures exists j | 0 <= j < |Tokens(t, i)| :: Tokens(t, i)[j].index <= k < Tokens(t, i)[j].end
    decreases |t| - i
  {
    if !IsDigit(t[i]) {
      TokensCoverDigits(t, i + 1, k);
      var j :| 0 <= j < |Tokens(t, i + 1)| && Tokens(t, i + 1)[j].index <= k < Tokens(t, i + 1)[j].end;
      assert Tokens(t, i)[j] == Tokens(t, i + 1)[j];
    } else {
      var tok := TokenAt(t, i);
      if k < tok.end {
        assert Tokens(t, i)[0] == tok;
      } else {
        TokensCoverDigits(t, tok.end, k);
        var j :| 0 <= j < |Tokens(t, tok.end)| && Tokens(t, tok.end)[j].index <= k < Tokens(t, tok.end)[j].end;
        assert Tokens(t, i)[j + 1] == Tokens(t, tok.end)[j];
      }
    }
  }

  /** The exponent of 1024 for the unit: none or B is 0, K 1, M 2, G 3, T 4, P 5. */
  function UnitPower(t: string, tok: Token): (p: nat)
    requires WellFormed(t, tok)
    ensures p <= 5
    ensures p == 0 <==> !(tok.numEnd < tok.end && IsUnitLetter(t[tok.numEnd]))
  {
    if tok.numEnd < tok.end then
      match t[tok.numEnd]
      case 'K' => 1 case 'k' => 1
      case 'M' => 2 case 'm' => 2
      case 'G' => 3 case 'g' => 3
      case 'T' => 4 case 't' => 4
      case 'P' => 5 case 'p' => 5
      case _ => 0
    else 0
  }

  /** The digits of the number without its '.', and how many follow the '.'. */
  function Mantissa(t: string, tok: Token): string
    requires WellFormed(t, tok)
  {
    t[tok.index..tok.intEnd] + (if tok.numEnd > tok.intEnd then t[tok.intEnd + 1..tok.numEnd] else "")
  }

  function FractionDigits(tok: Token): nat
  {
    if tok.numEnd > tok.intEnd then tok.numEnd - tok.intEnd - 1 else 0
  }

  /** `floor(m / 10^k * 1024^p)` for a decimal with digits `m` and `k`
      of them after the point. */
  function ScaledFloor(m: nat, p: nat, k: nat): nat
  {
    var divisor := Pow(10, k);
    m * Pow(1024, p) / divisor
  }

  /** `Math.floor(Number(m[1]) * Math.pow(1024, p))` with the number taken exactly. */
  function Bytes(t: string, tok: Token): nat
    requires WellFormed(t, tok)
  {
    ScaledFloor(DigitsValue(Mantissa(t, tok)), UnitPower(t, tok), FractionDigits(tok))
  }

  /** Without a fractional part nothing is rounded away. */
  lemma ScaledWhole(m: nat, p: nat)
    ensures ScaledFloor(m, p, 0) == m * Pow(1024, p)
  {
    assert Pow(10, 0) == 1;
  }

  /** A whole number scales by the unit's power of 1024; without a unit it
      is its own byte count. */
  lemma WholeNumberBytes(t: string, tok: Token)
    requires WellFormed(t, tok) && tok.numEnd == tok.intEnd
    ensures Bytes(t, tok) == DigitsValue(t[tok.index..tok.intEnd]) * Pow(1024, UnitPower(t, tok))
    ensures UnitPower(t, tok) == 0 ==> Bytes(t, tok) == DigitsValue(t[tok.index..tok.intEnd])
  {
    var digits := t[tok.index..tok.intEnd];
    assert Mantissa(t, tok) == digits + "" == digits;
    assert FractionDigits(tok) == 0;
    ScaledWhole(DigitsValue(digits), UnitPower(t, tok));
    if UnitPower(t, tok) == 0 {
      var m := DigitsValue(t[tok.index..tok.intEnd]);
      assert Pow(1024, 0) == 1;
      assert m * Pow(1024, 0) == m;
    }
  }

  // ---------------------------------------------------------------------
  // Per-token filters
  // ---------------------------------------------------------------------

  /** `isEmbeddedInWord(text, index, length)`: an ASCII letter right before or after. */
  predicate IsEmbeddedInWord(t: string, index: nat, length: nat) {
    (0 < index <= |t| && IsAsciiLetter(t[index - 1]))
    || (index + length < |t| && IsAsciiLetter(t[index + length]))
  }

  /** `/[\d]{4}[-/]/.test(s)` */
  predicate HasYearSep(s: string) {
    exists j | 0 <= j < |s| :: Dates.DigitsAt(s, j, 4) && j + 4 < |s| && Dates.IsDateSep(s[j + 4])
  }

  /** `cleaned.slice(max(0, idx - lo), min(len, idx + hi))` */
  function Window(t: string, idx: nat, lo: nat, hi: nat): string {
    var a := if idx < lo then 0 else idx - lo;
    var b := if idx + hi < |t| then idx + hi else |t|;
    if a <= b then t[a..b] else ""
  }

  /** The token is exactly four digits and a `dddd-` or `dddd/` lies in the
      window five before to six after its start. */
  predicate LooksLikeYear(t: string, tok: Token) {
    tok.end == tok.intEnd == tok.index + 4 && HasYearSep(Window(t, tok.index, 5, 6))
  }

  /** A token the scan loop keeps. */
  datatype Candidate = Candidate(bytes: nat, hasUnit: bool, index: nat, len: nat)

  predicate Kept(t: string, tok: Token)
    requires WellFormed(t, tok)
  {
    !IsEmbeddedInWord(t, tok.index, tok.end - tok.index) && !LooksLikeYear(t, tok)
  }

  function ToCandidate(t: string, tok: Token): (c: Candidate)
    requires WellFormed(t, tok)
  {
    Candidate(Bytes(t, tok), tok.numEnd < tok.end && IsUnitLetter(t[tok.numEnd]), tok.index, tok.end - tok.index)
  }

  /** The scan loop's `tokens` list. */
  function Accept(t: string, toks: seq<Token>): (r: seq<Candidate>)
    requires forall k | 0 <= k < |toks| :: WellFormed(t, toks[k])
    ensures |r| <= |toks|
    ensures forall c | c in r :: !IsEmbeddedInWord(t, c.index, c.len)
  {
    if |toks| == 0 then []
    else
      var rest := Accept(t, toks[1..]);
      if Kept(t, toks[0]) then
        var head := ToCandidate(t, toks[0]);
        assert head.index == toks[0].index && head.len == toks[0].end - toks[0].index;
        [head] + rest
      else rest
  }

  /** The candidates are exactly the kept tokens: each comes from a kept
      token, and every kept token gives one. */
  lemma {:induction false} AcceptKeeps(t: string, toks: seq<Token>)
    requires forall k | 0 <= k < |toks| :: WellFormed(t, toks[k])
    ensures forall c | c in Accept(t, toks) ::
              exists k | 0 <= k < |toks| :: Kept(t, toks[k]) && c == ToCandidate(t, toks[k])
    ensures forall k | 0 <= k < |toks| :: Kept(t, toks[k]) ==> ToCandidate(t, toks[k]) in Accept(t, toks)
    decreases |toks|
  {
    if |toks| > 0 {
      var tail := toks[1..];
      AcceptKeeps(t, tail);
      var rest := Accept(t, tail);
      forall c | c in rest
        ensures exists k | 0 <= k < |toks| :: Kept(t, toks[k]) && c == ToCandidate(t, toks[k])
      {
        var j :| 0 <= j < |tail| && Kept(t, tail[j]) && c == ToCandidate(t, tail[j]);
        assert toks[j + 1] == tail[j];
      }
      forall k | 1 <= k < |toks| && Kept(t, toks[k])
        ensures ToCandidate(t, toks[k]) in rest
      {
        assert toks[k] == tail[k - 1];
      }
    }
  }

  /** `\d{1,2}:\d{2}` at `j` of `s`. */
  predicate ClockAt(s: string, j: int) {
    (Dates.DigitsAt(s, j, 1) && Dates.CharAt(s, j + 1, ':') && Dates.DigitsAt(s, j + 2, 2))
    || (Dates.DigitsAt(s, j, 2) && Dates.CharAt(s, j + 2, ':') && Dates.DigitsAt(s, j + 3, 2))
  }

  predicate HasClock(s: string) {
    exists j | 0 <= j < |s| :: ClockAt(s, j)
  }

  /** The `nonDate` filter: no ':' or '-' right before or after the token,
      and a count of at most 60 must not sit near an `H:MM` clock. */
  predicate NonDate(t: string, c: Candidate) {
    var before := if 0 < c.index <= |t| then Some(t[c.index - 1]) else None;
    var after := if c.index + c.len < |t| then Some(t[c.index + c.len]) else None;
    before != Some(':') && after != Some(':') && before != Some('-') && after != Some('-')
    && !(c.bytes <= 60 && HasClock(Window(t, c.index, 5, 8)))
  }

  /** The largest byte count (`sort` descending, then `[0]`). */
  function MaxBytes(cs: seq<Candidate>): (m: nat)
    requires |cs| > 0
    ensures exists c | c in cs :: c.bytes == m
    ensures forall c | c in cs :: c.bytes <= m
  {
    if |cs| == 1 then cs[0].bytes
    else
      var rest := MaxBytes(cs[1..]);
      assert forall c | c in cs[1..] :: c in cs;
      if cs[0].bytes >= rest then cs[0].bytes else rest
  }

  // ---------------------------------------------------------------------
  // parseSizeMeta
  // ---------------------------------------------------------------------

  /** The candidates `parseSizeMeta` collects from `text`. */
  function Candidates(text: string): seq<Candidate>
  {
    var cleaned := StripDateTime(text);
    Accept(cleaned, Tokens(cleaned, 0))
  }

  /** The largest byte count among the candidates satisfying `P`; none when
      no candidate does. */
  function Largest(cs: seq<Candidate>, P: Candidate -> bool): (r: Option<nat>)
    ensures r.None? <==> forall c | c in cs :: !P(c)
    ensures r.Some? ==> (exists c | c in cs :: P(c) && c.bytes == r.value)
                        && forall c | c in cs && P(c) :: c.bytes <= r.value
  {
    var chosen := Filter(P, cs);
    if |chosen| == 0 then None
    else
      assert chosen[0] in chosen;
      Some(MaxBytes(chosen))
  }

  /** `parseSizeMeta(text)` */
  function ParseSizeMeta(text: string): (r: Option<nat>)
    ensures var cs := Candidates(text); var cleaned := StripDateTime(text);
            && ((exists c | c in cs :: c.hasUnit) ==>
                  r.Some? && (exists c | c in cs :: c.hasUnit && c.bytes == r.value)
                  && forall c | c in cs && c.hasUnit :: c.bytes <= r.value)
            && ((forall c | c in cs :: !c.hasUnit) ==>
                  (r.None? <==> forall c | c in cs :: !NonDate(cleaned, c))
                  && (r.Some? ==> (exists c | c in cs :: NonDate(cleaned, c) && c.bytes == r.value)
                                  && forall c | c in cs && NonDate(cleaned, c) :: c.bytes <= r.value))
  {
    var cleaned := StripDateTime(text);
    var cs := Candidates(text);
    var unit := (c: Candidate) => c.hasUnit;
    var nonDate := (c: Candidate) => NonDate(cleaned, c);
    assert forall c :: unit(c) == c.hasUnit && nonDate(c) == NonDate(cleaned, c);
    var withUnit := Largest(cs, unit);
    if withUnit.Some? then withUnit else Largest(cs, nonDate)
  }

  /** With no token at all the result is null. */
  lemma NoTokensNoSize(text: string)
    requires Tokens(StripDateTime(text), 0) == []
    ensures ParseSizeMeta(text).None?
  {
  }

  // ---------------------------------------------------------------------
  // Unit-test witnesses
  // ---------------------------------------------------------------------

  /** When exactly one candidate survives, it is the result. */
  lemma SingleCandidate(text: string, c: Candidate)
    requires Candidates(text) == [c]
    requires c.hasUnit || NonDate(StripDateTime(text), c)
    ensures ParseSizeMeta(text) == Some(c.bytes)
  {
  }

  lemma BareNumberExample()
    ensures ParseSizeMeta("123") == Some(123)
  {
    var t := "123";
    StripShort(t);
    var tok := Token(0, 3, 3, 3);
    assert DigitRunEnd(t, 0) == 3;
    assert TokenAt(t, 0) == tok;
    assert Tokens(t, 0) == [tok];
    assert Kept(t, tok);
    assert t[0..3] == "123";
    WholeNumberBytes(t, tok);
    assert DigitsValue("123") == 123 by {
      assert "123"[..2] == "12" && "12"[..1] == "1" && "1"[..0] == "";
    }
    var c := ToCandidate(t, tok);
    assert c == Candidate(123, false, 0, 3);
    assert Accept(t, [tok]) == [c];
    assert NonDate(t, c) by {
      assert Window(t, 0, 5, 8) == t;
      assert !HasClock(t);
    }
    SingleCandidate(t, c);
  }

  lemma KilobyteToken()
    ensures Tokens("2K", 0) == [Token(0, 1, 1, 2)] && Kept("2K", Token(0, 1, 1, 2))
    ensures ToCandidate("2K", Token(0, 1, 1, 2)) == Candidate(2048, true, 0, 2)
  {
    var t := "2K";
    var tok := Token(0, 1, 1, 2);
    assert DigitRunEnd(t, 0) == 1;
    assert TokenAt(t, 0) == tok;
    assert t[0..1] == "2";
    WholeNumberBytes(t, tok);
    assert DigitsValue("2") == 2 by {
      assert "2"[..0] == "";
    }
    assert UnitPower(t, tok) == 1;
    assert Pow(1024, 1) == 1024;
  }

  lemma KilobyteCandidate()
    ensures Candidates("2K") == [Candidate(2048, true, 0, 2)]
  {
    StripShort("2K");
    KilobyteToken();
    assert Accept("2K", [Token(0, 1, 1, 2)]) == [Candidate(2048, true, 0, 2)];
  }

  lemma KilobyteExample()
    ensures ParseSizeMeta("2K") == Some(2048)
  {
    KilobyteCandidate();
    SingleCandidate("2K", Candidate(2048, true, 0, 2));
  }

  /** "1.5M" is one token: the number "1.5" and the unit letter. */
  lemma MegabyteFractionToken()
    ensures Tokens("1.5M", 0) == [Token(0, 1, 3, 4)]
  {
    var t := "1.5M";
    assert DigitRunEnd(t, 0) == 1;
    assert DigitRunEnd(t, 2) == 3;
    assert TokenAt(t, 0) == Token(0, 1, 3, 4);
  }

  /** 1.5 mebibytes, rounded down. */
  lemma MegabyteFractionBytes()
    ensures WellFormed("1.5M", Token(0, 1, 3, 4)) && Bytes("1.5M", Token(0, 1, 3, 4)) == 1572864
  {
    var t := "1.5M";
    var tok := Token(0, 1, 3, 4);
    MegabyteFractionToken();
    assert Mantissa(t, tok) == "15";
    assert DigitsValue("15") == 15 by {
      assert "15"[..1] == "1" && "1"[..0] == "";
    }
    assert UnitPower(t, tok) == 2;
    assert FractionDigits(tok) == 1;
    assert Pow(1024, 2) == 1048576;
    assert Pow(10, 1) == 10;
    assert Bytes(t, tok) == 15 * 1048576 / 10;
  }

  lemma MegabyteFractionExample()
    ensures ParseSizeMeta("1.5M") == Some(1572864)
  {
    var t := "1.5M";
    StripShort(t);
    var tok := Token(0, 1, 3, 4);
    MegabyteFractionToken();
    MegabyteFractionBytes();
    assert Kept(t, tok);
    var c := ToCandidate(t, tok);
    assert c == Candidate(1572864, true, 0, 4);
    assert Accept(t, [tok]) == [c];
    SingleCandidate(t, c);
  }

  lemma UsStampExample()
    ensures StampEnd(UsStamp, "12/13/2024 12:00", 0) == Some(16)
  {
    var t := "12/13/2024 12:00";
    assert Dates.OneOrTwoDigits(t, 0, '/') == Some(2);
    assert Dates.OneOrTwoDigits(t, 3, '/') == Some(5);
    assert DigitRunEnd(t, 6) == 10;
    assert Dates.OneOrTwoDigits(t, 11, ':') == Some(13);
    assert Dates.DigitsAt(t, 14, 2);
    assert Dates.MarkerStart(t, 16) == None;
  }

  lemma NoIsoOrApacheStamp()
    ensures Replace(ApacheStamp, Replace(IsoStamp, "12/13/2024 12:00", 0), 0) == "12/13/2024 12:00"
  {
    var t := "12/13/2024 12:00";
    Dates.NoDateInAmbiguousExample();
    forall k | 0 <= k < |t|
      ensures StampEnd(IsoStamp, t, k).None? && StampEnd(ApacheStamp, t, k).None?
    {
      assert !Dates.IsoAt(t, k) && !Dates.ApacheAt(t, k);
    }
    ReplaceNoMatch(IsoStamp, t, 0);
    ReplaceNoMatch(ApacheStamp, t, 0);
  }

  /** A US date with a time is blanked out, so it yields no size. */
  lemma DateTimeExample()
    ensures StripDateTime("12/13/2024 12:00") == " "
    ensures ParseSizeMeta("12/13/2024 12:00").None?
  {
    var t := "12/13/2024 12:00";
    NoIsoOrApacheStamp();
    UsStampExample();
    assert Replace(UsStamp, t, 16) == "";
    assert Tokens(" ", 0) == [];
    NoTokensNoSize(t);
  }
}

/** Date heuristics for listing metadata (src/utils/date.ts). Each regular
    expression is given its meaning at one start position; `exec` takes the
    leftmost position that matches. The result is the tuple of fields handed
    to `Date.UTC`; calendar normalisation and ISO formatting are left out. */
module Dates {
  import opened Wrappers
  import opened Strs

  /** The arguments of `Date.UTC(year, monthIndex, day, hour, minute, second)`;
      `month` is zero-based and is -1 for a written month "00". */
  datatype DateFields = DateFields(year: nat, month: int, day: nat, hour: nat, minute: nat, second: nat)

  const AmbiguousError: string := "date: ambiguous numeric date pattern"

  /** `n` digits start at `i`. */
  predicate DigitsAt(t: string, i: int, n: nat) {
    0 <= i && i + n <= |t| && forall k | i <= k < i + n :: IsDigit(t[k])
  }

  /** `Number` of the `n` digits at `i`. */
  function NumAt(t: string, i: int, n: nat): nat
    requires DigitsAt(t, i, n)
  {
    DigitsValue(t[i..i + n])
  }

  /** `t[i] == c`, false out of range. */
  predicate CharAt(t: string, i: int, c: char) {
    0 <= i < |t| && t[i] == c
  }

  /** Leftmost position at or after `i` where `P` holds: what `exec` does
      with a pattern whose match at each position is `P`. */
  function Leftmost(P: (string, int) -> bool, t: string, i: nat): (r: Option<nat>)
    requires i <= |t|
    ensures r.Some? ==> i <= r.value <= |t| && P(t, r.value)
    ensures forall q | i <= q <= |t| && (r.None? || q < r.value) :: !P(t, q)
    decreases |t| - i
  {
    if P(t, i) then Some(i)
    else if i == |t| then None
    else Leftmost(P, t, i + 1)
  }

  /** A pattern with no match anywhere has no leftmost match. */
  lemma LeftmostNone(P: (string, int) -> bool, t: string)
    requires forall q | 0 <= q <= |t| :: !P(t, q)
    ensures Leftmost(P, t, 0).None?
  {
  }

  // ---------------------------------------------------------------------
  // 1. `/(\d{4})-(\d{2})-(\d{2})[ T](\d{2}):(\d{2})(?::(\d{2}))?/`
  // ---------------------------------------------------------------------

  /** The mandatory part matches at `i`. */
  predicate IsoAt(t: string, i: int) {
    DigitsAt(t, i, 4) && CharAt(t, i + 4, '-') && DigitsAt(t, i + 5, 2) && CharAt(t, i + 7, '-')
    && DigitsAt(t, i + 8, 2) && (CharAt(t, i + 10, ' ') || CharAt(t, i + 10, 'T'))
    && DigitsAt(t, i + 11, 2) && CharAt(t, i + 13, ':') && DigitsAt(t, i + 14, 2)
  }

  /** The greedy optional `:SS` group is taken whenever it is there. */
  predicate IsoSecondsAt(t: string, i: int) {
    CharAt(t, i + 16, ':') && DigitsAt(t, i + 17, 2)
  }

  function IsoFields(t: string, i: int): (f: DateFields)
    requires IsoAt(t, i)
    ensures f.second == (if IsoSecondsAt(t, i) then NumAt(t, i + 17, 2) else 0)
    ensures f.year == NumAt(t, i, 4) && f.month == NumAt(t, i + 5, 2) - 1
  {
    DateFields(NumAt(t, i, 4), NumAt(t, i + 5, 2) - 1, NumAt(t, i + 8, 2),
               NumAt(t, i + 11, 2), NumAt(t, i + 14, 2),
               if IsoSecondsAt(t, i) then NumAt(t, i + 17, 2) else 0)
  }

  // ---------------------------------------------------------------------
  // 2. `/(\d{2})-(\w{3})-(\d{4})\s(\d{2}):(\d{2})/`
  // ---------------------------------------------------------------------

  predicate ApacheAt(t: string, i: int) {
    DigitsAt(t, i, 2) && CharAt(t, i + 2, '-')
    && i + 6 <= |t| && IsWordChar(t[i + 3]) && IsWordChar(t[i + 4]) && IsWordChar(t[i + 5])
    && CharAt(t, i + 6, '-') && DigitsAt(t, i + 7, 4)
    && i + 11 < |t| && IsSpace(t[i + 11])
    && DigitsAt(t, i + 12, 2) && CharAt(t, i + 14, ':') && DigitsAt(t, i + 15, 2)
  }

  const MonthNames: seq<string> := ["jan", "feb", "mar", "apr", "may", "jun", "jul", "aug", "sep", "oct", "nov", "dec"]

  /** `shortMonthToIndex(mon)`: the position of the lower-cased name in the
      month list. Only ASCII letters lower-case to the letters of the list,
      so ASCII lower-casing gives the same index as `toLowerCase`. */
  function ShortMonthToIndex(mon: string): (r: Option<nat>)
    ensures r.Some? ==> r.value < 12 && MonthNames[r.value] == Lower(mon)
    ensures r.None? <==> Lower(mon) !in MonthNames
  {
    IndexOf(MonthNames, Lower(mon), 0)
  }

  /** `xs.indexOf(x, from)` */
  function IndexOf(xs: seq<string>, x: string, from: nat): (r: Option<nat>)
    requires from <= |xs|
    ensures r.Some? ==> from <= r.value < |xs| && xs[r.value] == x
                        && forall k | from <= k < r.value :: xs[k] != x
    ensures r.None? <==> forall k | from <= k < |xs| :: xs[k] != x
    decreases |xs| - from
  {
    if from == |xs| then None
    else if xs[from] == x then Some(from)
    else IndexOf(xs, x, from + 1)
  }

  /** The Apache fields at a match, `None` when the month name is unknown. */
  function ApacheFields(t: string, i: int): (f: Option<DateFields>)
    requires ApacheAt(t, i)
    ensures f.Some? <==> ShortMonthToIndex(t[i + 3..i + 6]).Some?
    ensures f.Some? ==> f.value.month == ShortMonthToIndex(t[i + 3..i + 6]).value && f.value.second == 0
  {
    match ShortMonthToIndex(t[i + 3..i + 6])
    case None => None
    case Some(m) => Some(DateFields(NumAt(t, i + 7, 4), m, NumAt(t, i, 2), NumAt(t, i + 12, 2), NumAt(t, i + 15, 2), 0))
  }

  // ---------------------------------------------------------------------
  // 3. `/(\d{1,2})\/(\d{1,2})\/(\d{4})\s(\d{1,2}):(\d{2})(?:\s?(AM|PM))/i`
  // ---------------------------------------------------------------------

  /** End of a `(\d{1,2})` group at `i` that must be followed by `sep`. The
      following literal is not a digit, so at most one of the two lengths
      fits and backtracking cannot pick a different one. */
  function OneOrTwoDigits(t: string, i: int, sep: char): (e: Option<nat>)
    requires !IsDigit(sep)
    ensures e.Some? ==> (e.value == i + 1 || e.value == i + 2) && DigitsAt(t, i, e.value - i) && CharAt(t, e.value, sep)
    ensures e.None? ==> !(DigitsAt(t, i, 1) && CharAt(t, i + 1, sep)) && !(DigitsAt(t, i, 2) && CharAt(t, i + 2, sep))
  {
    if DigitsAt(t, i, 2) && CharAt(t, i + 2, sep) then Some(i + 2)
    else if DigitsAt(t, i, 1) && CharAt(t, i + 1, sep) then Some(i + 1)
    else None
  }

  /** `AM` or `PM` in any letter case at `k`. */
  predicate MeridiemAt(t: string, k: int) {
    0 <= k && k + 2 <= |t| && (Lower(t[k..k + 2]) == "am" || Lower(t[k..k + 2]) == "pm")
  }

  /** Where the `\s?(AM|PM)` tail's marker starts after the minutes ending at
      `k`: the optional space is taken when the marker follows it. */
  function MarkerStart(t: string, k: int): (m: Option<int>)
    ensures m.Some? ==> MeridiemAt(t, m.value) && (m.value == k || (m.value == k + 1 && 0 <= k < |t| && IsSpace(t[k])))
    ensures m.None? ==> !MeridiemAt(t, k) && !(0 <= k < |t| && IsSpace(t[k]) && MeridiemAt(t, k + 1))
  {
    if 0 <= k < |t| && IsSpace(t[k]) && MeridiemAt(t, k + 1) then Some(k + 1)
    else if MeridiemAt(t, k) then Some(k)
    else None
  }

  /** A US date: month, day and hour end positions, and the marker start. */
  datatype UsShape = UsShape(monthEnd: nat, dayEnd: nat, hourEnd: nat, marker: int)

  function UsShapeAt(t: string, i: int): Option<UsShape>
  {
    match OneOrTwoDigits(t, i, '/')
    case None => None
    case Some(me) =>
      match OneOrTwoDigits(t, me + 1, '/')
      case None => None
      case Some(de) =>
        if !(DigitsAt(t, de + 1, 4) && de + 5 < |t| && IsSpace(t[de + 5])) then None
        else
          match OneOrTwoDigits(t, de + 6, ':')
          case None => None
          case Some(he) =>
            if !DigitsAt(t, he + 1, 2) then None
            else
              match MarkerStart(t, he + 3)
              case None => None
              case Some(mk) => Some(UsShape(me, de, he, mk))
  }

  predicate UsAt(t: string, i: int) {
    UsShapeAt(t, i).Some?
  }

  /** 12-hour clock to 24-hour clock, as the two marker tests do it. */
  function ClockHour(h: nat, pm: bool): (r: nat)
    ensures !pm && h == 12 ==> r == 0
    ensures pm && h == 12 ==> r == 12
    ensures h != 12 ==> r == (if pm then h + 12 else h)
    ensures h <= 12 && h != 0 ==> (if pm then 12 <= r < 24 else r < 12)
  {
    if !pm then (if h == 12 then 0 else h)
    else (if h != 12 then h + 12 else h)
  }

  function UsFields(t: string, i: int): (f: DateFields)
    requires UsAt(t, i)
  {
    var s := UsShapeAt(t, i).value;
    var pm := Lower(t[s.marker..s.marker + 2]) == "pm";
    DateFields(NumAt(t, s.dayEnd + 1, 4), NumAt(t, i, s.monthEnd - i) - 1, NumAt(t, s.monthEnd + 1, s.dayEnd - s.monthEnd - 1),
               ClockHour(NumAt(t, s.dayEnd + 6, s.hourEnd - s.dayEnd - 6), pm), NumAt(t, s.hourEnd + 1, 2), 0)
  }

  // ---------------------------------------------------------------------
  // `/\b\d{1,2}[-/]\d{1,2}[-/]\d{2,4}\b/`
  // ---------------------------------------------------------------------

  predicate IsDateSep(c: char) { c == '-' || c == '/' }

  predicate WordBoundary(t: string, p: int) {
    (0 < p <= |t| && IsWordChar(t[p - 1])) != (0 <= p < |t| && IsWordChar(t[p]))
  }

  /** The loose pattern matches at `i` with groups of `a`, `b` and `c` digits. */
  predicate LooseShape(t: string, i: int, a: int, b: int, c: int) {
    1 <= a <= 2 && 1 <= b <= 2 && 2 <= c <= 4
    && WordBoundary(t, i) && DigitsAt(t, i, a) && i + a < |t| && IsDateSep(t[i + a])
    && DigitsAt(t, i + a + 1, b) && i + a + 1 + b < |t| && IsDateSep(t[i + a + 1 + b])
    && DigitsAt(t, i + a + b + 2, c) && WordBoundary(t, i + a + b + 2 + c)
  }

  /** Some choice of group lengths makes the loose pattern match at `i`. */
  predicate LooseAt(t: string, i: int) {
    exists a, b, c | 1 <= a <= 2 && 1 <= b <= 2 && 2 <= c <= 4 :: LooseShape(t, i, a, b, c)
  }

  // ---------------------------------------------------------------------
  // parseDateMeta
  // ---------------------------------------------------------------------

  /** A pattern matches somewhere in `t`. */
  predicate Somewhere(P: (string, int) -> bool, t: string) {
    exists i | 0 <= i <= |t| :: P(t, i)
  }

  /** `i` is the leftmost match of `P` in `t`. */
  predicate FirstAt(P: (string, int) -> bool, t: string, i: int) {
    0 <= i <= |t| && P(t, i) && forall q | 0 <= q < i :: !P(t, q)
  }

  /** The outcome of the Apache step: fields at its leftmost match when its
      month name is known, `None` (fall through) otherwise. */
  function ApacheStep(t: string): Option<DateFields>
  {
    match Leftmost(ApacheAt, t, 0)
    case None => None
    case Some(i) => ApacheFields(t, i)
  }

  /** The leftmost match exists exactly when some match does, and it is the first. */
  lemma LeftmostFirst(P: (string, int) -> bool, t: string)
    ensures Leftmost(P, t, 0).Some? <==> Somewhere(P, t)
    ensures Leftmost(P, t, 0).Some? ==> FirstAt(P, t, Leftmost(P, t, 0).value)
  {
  }

  /** `parseDateMeta(text, errors)`: the date and the errors list afterwards. */
  function ParseDateMeta(t: string, errors: seq<string>): (r: (Option<DateFields>, seq<string>))
    ensures Somewhere(IsoAt, t) ==>
              r.1 == errors && exists i :: FirstAt(IsoAt, t, i) && r.0 == Some(IsoFields(t, i))
    ensures !Somewhere(IsoAt, t) && ApacheStep(t).Some? ==> r == (ApacheStep(t), errors)
    ensures !Somewhere(IsoAt, t) && ApacheStep(t).None? && Somewhere(UsAt, t) ==>
              r.1 == errors && exists i :: FirstAt(UsAt, t, i) && r.0 == Some(UsFields(t, i))
    ensures !Somewhere(IsoAt, t) && ApacheStep(t).None? && !Somewhere(UsAt, t) ==>
              r.0 == None && r.1 == (if Somewhere(LooseAt, t) then errors + [AmbiguousError] else errors)
  {
    LeftmostFirst(IsoAt, t);
    LeftmostFirst(UsAt, t);
    LeftmostFirst(LooseAt, t);
    match Leftmost(IsoAt, t, 0)
    case Some(i) => (Some(IsoFields(t, i)), errors)
    case None =>
      var apache := ApacheStep(t);
      if apache.Some? then (apache, errors)
      else
        match Leftmost(UsAt, t, 0)
        case Some(i) => (Some(UsFields(t, i)), errors)
        case None =>
          if Leftmost(LooseAt, t, 0).Some? then (None, errors + [AmbiguousError])
          else (None, errors)
  }

  /** Each call appends at most one error, only the ambiguity error, and only
      when no date was found; earlier errors are kept and do not affect the date. */
  lemma ParseDateMetaErrors(t: string, errors: seq<string>)
    ensures var r := ParseDateMeta(t, errors);
            (r.1 == errors || (r.1 == errors + [AmbiguousError] && r.0.None?))
            && r.0 == ParseDateMeta(t, []).0 && r.1 == errors + ParseDateMeta(t, []).1
  {
  }

  /** The Apache step's month is a month index. */
  lemma ApacheMonthInRange(t: string)
    ensures ApacheStep(t).Some? ==> 0 <= ApacheStep(t).value.month < 12
  {
  }

  /** An unknown month name at the leftmost Apache-shaped text falls
      through: the result is what the later patterns give. */
  lemma UnknownMonthFallsThrough(t: string, errors: seq<string>, i: nat)
    requires !Somewhere(IsoAt, t) && FirstAt(ApacheAt, t, i)
    requires ShortMonthToIndex(t[i + 3..i + 6]).None?
    ensures ParseDateMeta(t, errors).0.Some? <==> Somewhere(UsAt, t)
  {
    assert Leftmost(ApacheAt, t, 0) == Some(i);
  }

  // ---------------------------------------------------------------------
  // First-match-wins, one pattern at a time
  // ---------------------------------------------------------------------

  /** Only one position can be the leftmost match. */
  lemma FirstAtIsLeftmost(P: (string, int) -> bool, t: string, i: int)
    requires FirstAt(P, t, i)
    ensures Leftmost(P, t, 0) == Some(i)
  {
  }

  /** The leftmost ISO match decides the result, whatever follows. */
  lemma IsoWins(t: string, errors: seq<string>, i: int)
    requires FirstAt(IsoAt, t, i)
    ensures ParseDateMeta(t, errors) == (Some(IsoFields(t, i)), errors)
  {
    FirstAtIsLeftmost(IsoAt, t, i);
  }

  /** Without an ISO match, a known month at the leftmost Apache match decides. */
  lemma ApacheWins(t: string, errors: seq<string>, i: int)
    requires !Somewhere(IsoAt, t) && FirstAt(ApacheAt, t, i) && ApacheFields(t, i).Some?
    ensures ParseDateMeta(t, errors) == (ApacheFields(t, i), errors)
  {
    FirstAtIsLeftmost(ApacheAt, t, i);
  }

  /** Without an ISO or Apache date, the leftmost US match decides. */
  lemma UsWins(t: string, errors: seq<string>, i: int)
    requires !Somewhere(IsoAt, t) && ApacheStep(t).None? && FirstAt(UsAt, t, i)
    ensures ParseDateMeta(t, errors) == (Some(UsFields(t, i)), errors)
  {
    FirstAtIsLeftmost(UsAt, t, i);
  }

  /** With no date found, a loose numeric date adds exactly the ambiguity error. */
  lemma AmbiguousFlagged(t: string, errors: seq<string>)
    requires !Somewhere(IsoAt, t) && ApacheStep(t).None? && !Somewhere(UsAt, t) && Somewhere(LooseAt, t)
    ensures ParseDateMeta(t, errors) == (None, errors + [AmbiguousError])
  {
  }

  // ---------------------------------------------------------------------
  // Unit-test witnesses
  // ---------------------------------------------------------------------

  function DigitValue(c: char): nat { if IsDigit(c) then c as int - '0' as int else 0 }

  lemma DigitsValueSnoc(s: string)
    requires |s| > 0
    ensures DigitsValue(s) == DigitsValue(s[..|s| - 1]) * 10 + DigitValue(s[|s| - 1])
  {
  }

  lemma OneDigit(t: string, i: int)
    requires DigitsAt(t, i, 1)
    ensures NumAt(t, i, 1) == DigitValue(t[i])
  {
    var s := t[i..i + 1];
    DigitsValueSnoc(s);
    assert s[..0] == [];
  }

  lemma TwoDigits(t: string, i: int)
    requires DigitsAt(t, i, 2)
    ensures NumAt(t, i, 2) == 10 * DigitValue(t[i]) + DigitValue(t[i + 1])
  {
    var s := t[i..i + 2];
    DigitsValueSnoc(s);
    assert s[..1] == t[i..i + 1];
    OneDigit(t, i);
  }

  lemma FourDigits(t: string, i: int)
    requires DigitsAt(t, i, 4)
    ensures NumAt(t, i, 4) == 1000 * DigitValue(t[i]) + 100 * DigitValue(t[i + 1])
                              + 10 * DigitValue(t[i + 2]) + DigitValue(t[i + 3])
  {
    var s := t[i..i + 4];
    DigitsValueSnoc(s);
    assert s[..3] == t[i..i + 3];
    DigitsValueSnoc(t[i..i + 3]);
    assert t[i..i + 3][..2] == t[i..i + 2];
    TwoDigits(t, i);
  }

  lemma IsoShapeExample()
    ensures IsoAt("2024-03-01 12:05", 0) && !IsoSecondsAt("2024-03-01 12:05", 0)
  {
  }

  lemma IsoFieldsExample()
    ensures IsoAt("2024-03-01 12:05", 0)
    ensures IsoFields("2024-03-01 12:05", 0) == DateFields(2024, 2, 1, 12, 5, 0)
  {
    var t := "2024-03-01 12:05";
    IsoShapeExample();
    FourDigits(t, 0);
    TwoDigits(t, 5);
    TwoDigits(t, 8);
    TwoDigits(t, 11);
    TwoDigits(t, 14);
  }

  lemma IsoExample(errors: seq<string>)
    ensures ParseDateMeta("2024-03-01 12:05", errors) == (Some(DateFields(2024, 2, 1, 12, 5, 0)), errors)
  {
    IsoFieldsExample();
    IsoWins("2024-03-01 12:05", errors, 0);
  }

  lemma NoIsoInApacheExample()
    ensures !Somewhere(IsoAt, "08-Oct-2023 05:44")
  {
    var t := "08-Oct-2023 05:44";
    forall q | 0 <= q <= |t|
      ensures !IsoAt(t, q)
    {
      if q == 0 {
        assert !IsDigit(t[3]);
      } else if q == 1 {
        assert !IsDigit(t[3]);
      }
    }
  }

  lemma OctoberIndex()
    ensures ShortMonthToIndex("Oct") == Some(9)
  {
    assert Lower("Oct") == "oct";
    assert MonthNames[9] == "oct";
    assert forall k | 0 <= k < 9 :: MonthNames[k] != "oct";
  }

  lemma ApacheAtExample()
    ensures ApacheAt("08-Oct-2023 05:44", 0) && "08-Oct-2023 05:44"[3..6] == "Oct"
  {
  }

  lemma ApacheShapeExample()
    ensures ApacheAt("08-Oct-2023 05:44", 0)
    ensures ApacheFields("08-Oct-2023 05:44", 0) == Some(DateFields(2023, 9, 8, 5, 44, 0))
  {
    var t := "08-Oct-2023 05:44";
    ApacheAtExample();
    OctoberIndex();
    TwoDigits(t, 0);
    FourDigits(t, 7);
    TwoDigits(t, 12);
    TwoDigits(t, 15);
  }

  lemma ApacheExample(errors: seq<string>)
    ensures ParseDateMeta("08-Oct-2023 05:44", errors) == (Some(DateFields(2023, 9, 8, 5, 44, 0)), errors)
  {
    NoIsoInApacheExample();
    ApacheShapeExample();
    ApacheWins("08-Oct-2023 05:44", errors, 0);
  }

  lemma NoIsoOrApacheInUsExample()
    ensures !Somewhere(IsoAt, "1/2/2022 3:04 PM") && !Somewhere(ApacheAt, "1/2/2022 3:04 PM")
  {
    var t := "1/2/2022 3:04 PM";
    forall q | 0 <= q <= |t|
      ensures !IsoAt(t, q) && !ApacheAt(t, q)
    {
      if q == 0 {
        assert !IsDigit(t[1]);
      }
    }
  }

  lemma UsShapeExample()
    ensures UsShapeAt("1/2/2022 3:04 PM", 0) == Some(UsShape(1, 3, 10, 14))
  {
    var t := "1/2/2022 3:04 PM";
    assert OneOrTwoDigits(t, 0, '/') == Some(1);
    assert OneOrTwoDigits(t, 2, '/') == Some(3);
    assert DigitsAt(t, 4, 4);
    assert OneOrTwoDigits(t, 9, ':') == Some(10);
    assert DigitsAt(t, 11, 2);
    assert t[14..16] == "PM";
    assert Lower("PM") == "pm";
    assert MarkerStart(t, 13) == Some(14);
  }

  lemma UsFieldsExample()
    ensures UsAt("1/2/2022 3:04 PM", 0)
    ensures UsFields("1/2/2022 3:04 PM", 0) == DateFields(2022, 0, 2, 15, 4, 0)
  {
    var t := "1/2/2022 3:04 PM";
    UsShapeExample();
    assert t[14..16] == "PM";
    assert Lower("PM") == "pm";
    OneDigit(t, 0);
    OneDigit(t, 2);
    FourDigits(t, 4);
    OneDigit(t, 9);
    TwoDigits(t, 11);
  }

  lemma UsExample(errors: seq<string>)
    ensures ParseDateMeta("1/2/2022 3:04 PM", errors) == (Some(DateFields(2022, 0, 2, 15, 4, 0)), errors)
  {
    var t := "1/2/2022 3:04 PM";
    NoIsoOrApacheInUsExample();
    LeftmostNone(ApacheAt, t);
    UsFieldsExample();
    UsWins(t, errors, 0);
  }

  lemma MeridiemNeedsLetter(t: string, k: int)
    requires MeridiemAt(t, k)
    ensures IsAsciiLetter(t[k])
  {
    assert Lower(t[k..k + 2])[0] == LowerChar(t[k]);
  }

  /** A US match needs an AM/PM marker, which needs a letter. */
  lemma UsNeedsMarker(t: string, i: int)
    requires forall k | 0 <= k < |t| :: !IsAsciiLetter(t[k])
    ensures !UsAt(t, i)
  {
    if UsAt(t, i) {
      MeridiemNeedsLetter(t, UsShapeAt(t, i).value.marker);
    }
  }

  lemma NoDateInAmbiguousExample()
    ensures !Somewhere(IsoAt, "12/13/2024 12:00") && !Somewhere(ApacheAt, "12/13/2024 12:00")
    ensures !Somewhere(UsAt, "12/13/2024 12:00")
  {
    var t := "12/13/2024 12:00";
    forall q | 0 <= q <= |t|
      ensures !IsoAt(t, q) && !ApacheAt(t, q) && !UsAt(t, q)
    {
      UsNeedsMarker(t, q);
    }
  }

  lemma AmbiguousExample(errors: seq<string>)
    ensures ParseDateMeta("12/13/2024 12:00", errors) == (None, errors + [AmbiguousError])
  {
    var t := "12/13/2024 12:00";
    NoDateInAmbiguousExample();
    LeftmostNone(ApacheAt, t);
    LooseExample();
    AmbiguousFlagged(t, errors);
  }

  lemma LooseExample()
    ensures Somewhere(LooseAt, "12/13/2024 12:00")
  {
    var t := "12/13/2024 12:00";
    assert LooseShape(t, 0, 2, 2, 4);
    assert LooseAt(t, 0);
  }
}

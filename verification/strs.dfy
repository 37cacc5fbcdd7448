/** Character classes and string operations with the meaning the JavaScript
    built-ins and regular-expression escapes have in the crawler's code.
    Case-insensitive regular expressions without the `u` flag fold only
    ASCII letters, so ASCII folding is all that is needed here. */
module Strs {
  import opened Wrappers

  /** `\d` */
  predicate IsDigit(c: char) { '0' <= c <= '9' }

  /** `[A-Za-z]` */
  predicate IsAsciiLetter(c: char) { 'a' <= c <= 'z' || 'A' <= c <= 'Z' }

  /** `\w` */
  predicate IsWordChar(c: char) { IsDigit(c) || IsAsciiLetter(c) || c == '_' }

  /** `\s`, which is also the set `String.prototype.trim` removes. */
  predicate IsSpace(c: char) {
    var n := c as int;
    (0x09 <= n <= 0x0D) || n == 0x20 || n == 0xA0 || n == 0x1680 || (0x2000 <= n <= 0x200A)
    || n == 0x2028 || n == 0x2029 || n == 0x202F || n == 0x205F || n == 0x3000 || n == 0xFEFF
  }

  /** The characters the regular-expression `.` does not match. */
  predicate IsLineTerminator(c: char) {
    c == '\n' || c == '\r' || c as int == 0x2028 || c as int == 0x2029
  }

  function LowerChar(c: char): char {
    if 'A' <= c <= 'Z' then (c as int + 32) as char else c
  }

  /** ASCII lower-casing. */
  function Lower(s: string): (r: string)
    ensures |r| == |s|
  {
    seq(|s|, i requires 0 <= i < |s| => LowerChar(s[i]))
  }

  predicate StartsWith(s: string, p: string) { |p| <= |s| && s[..|p|] == p }

  predicate EndsWith(s: string, p: string) { |p| <= |s| && s[|s| - |p|..] == p }

  /** `p` occurs in `s` starting at index `i`. */
  predicate OccursAt(s: string, p: string, i: int) {
    0 <= i && i + |p| <= |s| && s[i..i + |p|] == p
  }

  /** `s.includes(p)` */
  predicate Includes(s: string, p: string) {
    exists i | 0 <= i <= |s| :: OccursAt(s, p, i)
  }

  /** Index of the last occurrence of `c` in `s`. */
  function LastIndexOf(s: string, c: char): (r: Option<nat>)
    ensures r.Some? ==> r.value < |s| && s[r.value] == c && forall k | r.value < k < |s| :: s[k] != c
    ensures r.None? ==> c !in s
    decreases |s|
  {
    if |s| == 0 then None
    else if s[|s| - 1] == c then Some(|s| - 1)
    else LastIndexOf(s[..|s| - 1], c)
  }

  /** `s.split(sep)` for a one-character separator: `n` separators give `n + 1` pieces. */
  function Split(s: string, sep: char): (r: seq<string>)
    ensures |r| >= 1
    decreases |s|
  {
    if |s| == 0 then [""]
    else
      var init := Split(s[..|s| - 1], sep);
      if s[|s| - 1] == sep then init + [""]
      else init[..|init| - 1] + [init[|init| - 1] + [s[|s| - 1]]]
  }

  /** `parts.join(sep)` */
  function Join(parts: seq<string>, sep: char): string
  {
    if |parts| == 0 then ""
    else if |parts| == 1 then parts[0]
    else Join(parts[..|parts| - 1], sep) + [sep] + parts[|parts| - 1]
  }

  /** `parts.filter(Boolean)`: the non-empty pieces, in order. */
  function NonEmpty(parts: seq<string>): seq<string>
  {
    if |parts| == 0 then []
    else NonEmpty(parts[..|parts| - 1]) + (if parts[|parts| - 1] == "" then [] else [parts[|parts| - 1]])
  }

  /** No piece of `Split` contains the separator. */
  lemma {:induction false} SplitPiecesFree(s: string, sep: char)
    ensures forall k :: 0 <= k < |Split(s, sep)| ==> sep !in Split(s, sep)[k]
    decreases |s|
  {
    if |s| > 0 {
      SplitPiecesFree(s[..|s| - 1], sep);
    }
  }

  lemma JoinSnoc(p: seq<string>, x: string, sep: char)
    requires |p| >= 1
    ensures Join(p + [x], sep) == Join(p, sep) + [sep] + x
  {
    assert (p + [x])[..|p|] == p;
  }

  lemma JoinExtendLast(p: seq<string>, t: string, sep: char)
    requires |p| >= 1
    ensures Join(p[..|p| - 1] + [p[|p| - 1] + t], sep) == Join(p, sep) + t
  {
    var q := p[..|p| - 1];
    if |q| >= 1 {
      JoinSnoc(q, p[|p| - 1] + t, sep);
      JoinSnoc(q, p[|p| - 1], sep);
      assert q + [p[|p| - 1]] == p;
    }
  }

  /** The pieces after one more character `c` is appended to the split string. */
  function Extend(p: seq<string>, c: char, sep: char): seq<string>
    requires |p| >= 1
  {
    if c == sep then p + [""] else p[..|p| - 1] + [p[|p| - 1] + [c]]
  }

  lemma SplitSnoc(s: string, c: char, sep: char)
    ensures Split(s + [c], sep) == Extend(Split(s, sep), c, sep)
  {
    assert (s + [c])[..|s|] == s;
  }

  lemma ExtendAppend(ia: seq<string>, ib: seq<string>, c: char, sep: char)
    requires |ib| >= 1
    ensures Extend(ia + ib, c, sep) == ia + Extend(ib, c, sep)
  {
    if c != sep {
      assert (ia + ib)[..|ia + ib| - 1] == ia + ib[..|ib| - 1];
    }
  }

  /** Joining the pieces of a split gives back the string. */
  lemma {:induction false} JoinSplit(s: string, sep: char)
    ensures Join(Split(s, sep), sep) == s
    decreases |s|
  {
    if |s| > 0 {
      var s', c := s[..|s| - 1], s[|s| - 1];
      assert s == s' + [c];
      JoinSplit(s', sep);
      SplitSnoc(s', c, sep);
      if c == sep {
        JoinSnoc(Split(s', sep), "", sep);
      } else {
        JoinExtendLast(Split(s', sep), [c], sep);
      }
    }
  }

  /** Splitting a separator-free string gives that string alone. */
  lemma {:induction false} SplitFree(s: string, sep: char)
    requires sep !in s
    ensures Split(s, sep) == [s]
    decreases |s|
  {
    if |s| > 0 {
      var s', c := s[..|s| - 1], s[|s| - 1];
      assert s == s' + [c];
      SplitFree(s', sep);
      SplitSnoc(s', c, sep);
    }
  }

  /** Splitting distributes over a separator: the pieces of `a + sep + b` are
      the pieces of `a` followed by those of `b`. */
  lemma {:induction false} SplitAt(a: string, sep: char, b: string)
    ensures Split(a + [sep] + b, sep) == Split(a, sep) + Split(b, sep)
    decreases |b|
  {
    if |b| == 0 {
      assert a + [sep] + b == a + [sep];
      SplitSnoc(a, sep, sep);
    } else {
      var b', c := b[..|b| - 1], b[|b| - 1];
      var pre := a + [sep] + b';
      assert b == b' + [c];
      assert a + [sep] + b == pre + [c];
      SplitAt(a, sep, b');
      SplitSnoc(pre, c, sep);
      SplitSnoc(b', c, sep);
      ExtendAppend(Split(a, sep), Split(b', sep), c, sep);
    }
  }

  lemma {:induction false} NonEmptyAppend(a: seq<string>, b: seq<string>)
    ensures NonEmpty(a + b) == NonEmpty(a) + NonEmpty(b)
    decreases |b|
  {
    if |b| == 0 {
      assert a + b == a;
    } else {
      var b', x := b[..|b| - 1], b[|b| - 1];
      assert (a + b)[..|a + b| - 1] == a + b';
      assert (a + b)[|a + b| - 1] == x;
      NonEmptyAppend(a, b');
    }
  }

  /** Every piece `NonEmpty` keeps is a non-empty piece of its input. */
  lemma {:induction false} NonEmptyPieces(parts: seq<string>)
    ensures forall k :: 0 <= k < |NonEmpty(parts)| ==> NonEmpty(parts)[k] != "" && NonEmpty(parts)[k] in parts
    decreases |parts|
  {
    if |parts| > 0 {
      NonEmptyPieces(parts[..|parts| - 1]);
    }
  }

  /** Value of a run of decimal digits (`Number` on a digit string). */
  function DigitsValue(s: string): nat
  {
    if |s| == 0 then 0
    else DigitsValue(s[..|s| - 1]) * 10 + (if IsDigit(s[|s| - 1]) then s[|s| - 1] as int - '0' as int else 0)
  }

  function Pow(b: nat, e: nat): (r: nat)
    ensures b >= 1 ==> r >= 1
  {
    if e == 0 then 1 else b * Pow(b, e - 1)
  }

  /** Index just past the run of characters satisfying `IsDigit` that starts at `i`. */
  function DigitRunEnd(s: string, i: nat): (e: nat)
    requires i <= |s|
    ensures i <= e <= |s|
    ensures forall k :: i <= k < e ==> IsDigit(s[k])
    ensures e == |s| || !IsDigit(s[e])
    decreases |s| - i
  {
    if i < |s| && IsDigit(s[i]) then DigitRunEnd(s, i + 1) else i
  }

  /** Leading characters removed by `trim`. */
  function TrimStart(s: string): (r: string)
    ensures |r| <= |s| && r == s[|s| - |r|..]
    ensures forall k :: 0 <= k < |s| - |r| ==> IsSpace(s[k])
    ensures r == "" || !IsSpace(r[0])
    decreases |s|
  {
    if |s| > 0 && IsSpace(s[0]) then TrimStart(s[1..]) else s
  }

  function TrimEnd(s: string): (r: string)
    ensures |r| <= |s| && r == s[..|r|]
    ensures forall k :: |r| <= k < |s| ==> IsSpace(s[k])
    ensures r == "" || !IsSpace(r[|r| - 1])
    decreases |s|
  {
    if |s| > 0 && IsSpace(s[|s| - 1]) then TrimEnd(s[..|s| - 1]) else s
  }

  /** `String.prototype.trim` */
  function Trim(s: string): string { TrimEnd(TrimStart(s)) }
}

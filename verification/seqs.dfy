/** Generic sequence helpers with the meaning of the JavaScript array methods. */
module Seqs {

  /** `xs.filter(P)` */
  function Filter<T(!new)>(P: T -> bool, xs: seq<T>): (r: seq<T>)
    ensures forall x :: x in r <==> x in xs && P(x)
    ensures |r| <= |xs|
  {
    if |xs| == 0 then []
    else (if P(xs[0]) then [xs[0]] else []) + Filter(P, xs[1..])
  }

  /** Filtering keeps order: it works piece by piece. */
  lemma {:induction false} FilterAppend<T(!new)>(P: T -> bool, xs: seq<T>, ys: seq<T>)
    ensures Filter(P, xs + ys) == Filter(P, xs) + Filter(P, ys)
    decreases |xs|
  {
    if |xs| == 0 {
      assert xs + ys == ys;
    } else {
      var head := if P(xs[0]) then [xs[0]] else [];
      assert (xs + ys)[0] == xs[0] && (xs + ys)[1..] == xs[1..] + ys;
      assert Filter(P, xs + ys) == head + Filter(P, xs[1..] + ys);
      FilterAppend(P, xs[1..], ys);
      assert Filter(P, xs) == head + Filter(P, xs[1..]);
    }
  }

  /** A single element is kept exactly when it satisfies `P`. */
  lemma FilterOne<T(!new)>(P: T -> bool, x: T)
    ensures Filter(P, [x]) == if P(x) then [x] else []
  {
    assert [x][1..] == [];
  }

  lemma AppendAssoc<T>(a: seq<T>, b: seq<T>, c: seq<T>)
    ensures a + (b + c) == (a + b) + c
  {
  }

  /** `a` is a prefix of `b`: `b` only appended to `a`. */
  predicate IsPrefix<T(==)>(a: seq<T>, b: seq<T>) { |a| <= |b| && b[..|a|] == a }

  /** Peeling the first element off a slice in front of `rest`. */
  lemma SliceCons<T>(t: seq<T>, j: nat, i: nat, rest: seq<T>)
    requires j <= i <= |t|
    ensures j < i ==> [t[j]] + (t[j + 1..i] + rest) == t[j..i] + rest
    ensures j == i ==> t[j..i] + rest == rest
  {
    if j < i {
      assert t[j..i] == [t[j]] + t[j + 1..i];
      AppendAssoc([t[j]], t[j + 1..i], rest);
    } else {
      assert t[j..i] == [];
    }
  }

  lemma PrefixHas<T>(a: seq<T>, b: seq<T>, x: T)
    requires IsPrefix(a, b) && x in a
    ensures x in b
  {
    var i :| 0 <= i < |a| && a[i] == x;
    assert b[i] == b[..|a|][i];
  }

  lemma PrefixTransitive<T>(a: seq<T>, b: seq<T>, c: seq<T>)
    requires IsPrefix(a, b) && IsPrefix(b, c)
    ensures IsPrefix(a, c)
  {
    assert c[..|a|] == c[..|b|][..|a|];
  }
}

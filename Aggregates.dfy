/**
 * SQL aggregates over a nullable numeric column, as PostgreSQL evaluates them:
 * `max` and `avg` skip NULLs and give NULL when no value is present; `avg` is the
 * exact sum divided by the count of present values (rates are reals, not floats).
 */
module Aggregates {
  import opened Wrappers

  /** The present (non-NULL) values, in order. */
  function Present(xs: seq<Option<real>>): (vs: seq<real>)
    ensures |vs| <= |xs|
    ensures forall v :: v in vs <==> Some(v) in xs
    ensures |vs| == 0 <==> forall i :: 0 <= i < |xs| ==> xs[i].None?
    decreases |xs|
  {
    if xs == [] then []
    else
      var rest := Present(xs[1..]);
      assert forall i :: 1 <= i < |xs| ==> xs[i] == xs[1..][i - 1];
      assert forall v :: Some(v) in xs[1..] ==> Some(v) in xs;
      match xs[0]
      case Some(v) => [v] + rest
      case None => rest
  }

  /** Each value occurs in `Present(xs)` exactly as often as it occurs, non-NULL, in `xs`. */
  lemma {:induction false} PresentCounts(xs: seq<Option<real>>)
    ensures forall v :: multiset(Present(xs))[v] == multiset(xs)[Some(v)]
    decreases |xs|
  {
    if xs != [] {
      PresentCounts(xs[1..]);
      PresentHead(xs);
      assert multiset(xs) == multiset{xs[0]} + multiset(xs[1..]) by {
        assert xs == [xs[0]] + xs[1..];
      }
    }
  }

  lemma PresentHead(xs: seq<Option<real>>)
    requires xs != []
    ensures multiset(Present(xs)) ==
      (if xs[0].Some? then multiset{xs[0].value} else multiset{}) + multiset(Present(xs[1..]))
  {
    var head := if xs[0].Some? then [xs[0].value] else [];
    assert Present(xs) == head + Present(xs[1..]);
  }

  /** `m` is what SQL `max` gives over `xs`: NULL exactly when nothing is present, otherwise a present value no smaller than any other. */
  ghost predicate IsMaxOf(m: Option<real>, xs: seq<Option<real>>) {
    && (m.None? <==> forall i :: 0 <= i < |xs| ==> xs[i].None?)
    && (m.Some? ==> m in xs && forall i :: 0 <= i < |xs| && xs[i].Some? ==> xs[i].value <= m.value)
  }

  /** SQL `max` over a nullable column. */
  function Max(xs: seq<Option<real>>): (m: Option<real>)
    ensures IsMaxOf(m, xs)
    decreases |xs|
  {
    if xs == [] then None
    else
      var rest := Max(xs[1..]);
      assert forall i :: 1 <= i < |xs| ==> xs[i] == xs[1..][i - 1];
      match (xs[0], rest)
      case (None, _) => rest
      case (Some(v), None) => Some(v)
      case (Some(v), Some(w)) => if v >= w then Some(v) else Some(w)
  }

  function Sum(vs: seq<real>): real
    decreases |vs|
  {
    if vs == [] then 0.0 else vs[0] + Sum(vs[1..])
  }

  /** SQL `avg` over a nullable column. */
  function Avg(xs: seq<Option<real>>): (a: Option<real>)
    ensures a.None? <==> forall i :: 0 <= i < |xs| ==> xs[i].None?
  {
    var vs := Present(xs);
    if |vs| == 0 then None else Some(Sum(vs) / |vs| as real)
  }

  lemma {:induction false} SumAtLeast(vs: seq<real>, lo: real)
    requires forall i :: 0 <= i < |vs| ==> lo <= vs[i]
    ensures |vs| as real * lo <= Sum(vs)
    decreases |vs|
  {
    if vs != [] {
      SumAtLeast(vs[1..], lo);
    }
  }

  lemma {:induction false} SumAtMost(vs: seq<real>, hi: real)
    requires forall i :: 0 <= i < |vs| ==> vs[i] <= hi
    ensures Sum(vs) <= |vs| as real * hi
    decreases |vs|
  {
    if vs != [] {
      SumAtMost(vs[1..], hi);
    }
  }

  lemma QuotientAtLeast(s: real, n: real, lo: real)
    requires n > 0.0 && n * lo <= s
    ensures lo <= s / n
  {
    var q := s / n;
    assert q * n == s;
    assert (q - lo) * n == s - n * lo;
  }

  lemma QuotientAtMost(s: real, n: real, hi: real)
    requires n > 0.0 && s <= n * hi
    ensures s / n <= hi
  {
    var q := s / n;
    assert q * n == s;
    assert (hi - q) * n == n * hi - s;
  }

  /** Every present value satisfies a property every non-NULL entry has. */
  lemma {:induction false} PresentAll(xs: seq<Option<real>>, p: real -> bool)
    requires forall i :: 0 <= i < |xs| && xs[i].Some? ==> p(xs[i].value)
    ensures forall k :: 0 <= k < |Present(xs)| ==> p(Present(xs)[k])
    decreases |xs|
  {
    if xs != [] {
      assert forall i :: 1 <= i < |xs| ==> xs[i] == xs[1..][i - 1];
      PresentAll(xs[1..], p);
    }
  }

  lemma MeanAtLeast(vs: seq<real>, lo: real)
    requires |vs| > 0 && forall k :: 0 <= k < |vs| ==> lo <= vs[k]
    ensures lo <= Sum(vs) / |vs| as real
  {
    SumAtLeast(vs, lo);
    QuotientAtLeast(Sum(vs), |vs| as real, lo);
  }

  lemma MeanAtMost(vs: seq<real>, hi: real)
    requires |vs| > 0 && forall k :: 0 <= k < |vs| ==> vs[k] <= hi
    ensures Sum(vs) / |vs| as real <= hi
  {
    SumAtMost(vs, hi);
    QuotientAtMost(Sum(vs), |vs| as real, hi);
  }

  /** A mean is no smaller than a bound every present value respects. */
  lemma AvgAtLeast(xs: seq<Option<real>>, lo: real)
    requires forall i :: 0 <= i < |xs| && xs[i].Some? ==> lo <= xs[i].value
    ensures Avg(xs).Some? ==> lo <= Avg(xs).value
  {
    var vs := Present(xs);
    if |vs| > 0 {
      PresentAll(xs, v => lo <= v);
      MeanAtLeast(vs, lo);
    }
  }

  /** A mean is no larger than a bound every present value respects. */
  lemma AvgAtMost(xs: seq<Option<real>>, hi: real)
    requires forall i :: 0 <= i < |xs| && xs[i].Some? ==> xs[i].value <= hi
    ensures Avg(xs).Some? ==> Avg(xs).value <= hi
  {
    var vs := Present(xs);
    if |vs| > 0 {
      PresentAll(xs, v => v <= hi);
      MeanAtMost(vs, hi);
    }
  }

  /** A mean lies in any interval that holds every present value (e.g. rates in [0, 1]). */
  lemma AvgBounds(xs: seq<Option<real>>, lo: real, hi: real)
    requires forall i :: 0 <= i < |xs| && xs[i].Some? ==> lo <= xs[i].value <= hi
    ensures Avg(xs).Some? ==> lo <= Avg(xs).value <= hi
  {
    AvgAtLeast(xs, lo);
    AvgAtMost(xs, hi);
  }

  /** The mean of a group never exceeds its maximum. */
  lemma AvgAtMostMax(xs: seq<Option<real>>)
    ensures Avg(xs).Some? ==> Max(xs).Some? && Avg(xs).value <= Max(xs).value
  {
    var m := Max(xs);
    if m.Some? {
      AvgAtMost(xs, m.value);
    }
  }

  /** When every present value is `v`, both `avg` and `max` give `v`. */
  lemma ConstantColumn(xs: seq<Option<real>>, v: real)
    requires Some(v) in xs
    requires forall i :: 0 <= i < |xs| && xs[i].Some? ==> xs[i].value == v
    ensures Avg(xs) == Some(v) && Max(xs) == Some(v)
  {
    AvgBounds(xs, v, v);
  }
}

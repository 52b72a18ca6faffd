/**
 * The tracking error metrics, over the reals. Square roots and norms are described by what they satisfy: a root is
 * the non-negative number with the given square.
 */
module Metrics {
  import opened RealSums

  function Sq(x: real): real {
    x * x
  }

  predicate IsRoot(r: real, square: real) {
    r >= 0.0 && Sq(r) == square
  }

  function Squares(v: seq<real>): (s: seq<real>)
    ensures |s| == |v| && forall i :: 0 <= i < |v| ==> s[i] == Sq(v[i])
  {
    seq(|v|, i requires 0 <= i < |v| => Sq(v[i]))
  }

  function Absolutes(v: seq<real>): (s: seq<real>)
    ensures |s| == |v| && forall i :: 0 <= i < |v| ==> s[i] == if v[i] < 0.0 then -v[i] else v[i]
  {
    seq(|v|, i requires 0 <= i < |v| => if v[i] < 0.0 then -v[i] else v[i])
  }

  /** `m` is the mean of `v`: taken once for each value, it adds up to their sum. */
  predicate MeanOf(m: real, v: seq<real>) {
    v != [] && Times(|v|, m) == Sum(v, |v|)
  }

  predicate RmsOf(r: real, v: seq<real>) {
    r >= 0.0 && MeanOf(Sq(r), Squares(v))
  }

  predicate MaxOf(m: real, v: seq<real>) {
    m in v && forall i :: 0 <= i < |v| ==> v[i] <= m
  }

  // ----- one series of values

  /** `MeanOf` is the usual quotient. */
  lemma MeanIsQuotient(v: seq<real>, m: real)
    requires v != []
    ensures MeanOf(m, v) <==> m == Sum(v, |v|) / |v| as real
  {
    TimesIsProduct(|v|, m);
    Quotient(|v| as real, m, Sum(v, |v|));
  }

  lemma Quotient(n: real, m: real, s: real)
    requires n > 0.0
    ensures n * m == s <==> m == s / n
  {
  }

  function Deviations(v: seq<real>, x: real): (s: seq<real>)
    ensures |s| == |v| && forall i :: 0 <= i < |v| ==> s[i] == Sq(v[i] - x)
  {
    seq(|v|, i requires 0 <= i < |v| => Sq(v[i] - x))
  }

  /** What a value and the mean contribute to each other. */
  function Cross(v: seq<real>, x: real): (s: seq<real>)
    ensures |s| == |v| && forall i :: 0 <= i < |v| ==> s[i] == 2.0 * x * v[i] - Sq(x)
  {
    seq(|v|, i requires 0 <= i < |v| => 2.0 * x * v[i] - Sq(x))
  }

  lemma {:induction false} SumOfDifference(d: seq<real>, q: seq<real>, c: seq<real>, n: nat)
    requires n <= |d| && n <= |q| && n <= |c| && forall i :: 0 <= i < n ==> d[i] == q[i] - c[i]
    ensures Sum(d, n) == Sum(q, n) - Sum(c, n)
    decreases n
  {
    if n > 0 {
      SumOfDifference(d, q, c, n - 1);
    }
  }

  lemma SquareOfDifference(y: real, x: real)
    ensures Sq(y - x) == Sq(y) - (2.0 * x * y - Sq(x))
  {
  }

  lemma DeviationsExpand(v: seq<real>, x: real)
    ensures Sum(Deviations(v, x), |v|) == Sum(Squares(v), |v|) - Sum(Cross(v, x), |v|)
  {
    var d, q, c := Deviations(v, x), Squares(v), Cross(v, x);
    forall i | 0 <= i < |v|
      ensures d[i] == q[i] - c[i]
    {
      SquareOfDifference(v[i], x);
    }
    SumOfDifference(d, q, c, |v|);
  }

  function CrossTotal(n: nat, x: real, s: real): real {
    2.0 * x * s - n as real * Sq(x)
  }

  lemma CrossTotalStep(n: nat, x: real, s: real, y: real)
    ensures CrossTotal(n + 1, x, s + y) == CrossTotal(n, x, s) + (2.0 * x * y - Sq(x))
  {
    assert 2.0 * x * (s + y) == 2.0 * x * s + 2.0 * x * y;
    assert (n + 1) as real * Sq(x) == n as real * Sq(x) + Sq(x);
  }

  lemma {:induction false} CrossSum(c: seq<real>, v: seq<real>, x: real, n: nat)
    requires n <= |c| && n <= |v| && forall i :: 0 <= i < n ==> c[i] == 2.0 * x * v[i] - Sq(x)
    ensures Sum(c, n) == CrossTotal(n, x, Sum(v, n))
    decreases n
  {
    if n > 0 {
      CrossSum(c, v, x, n - 1);
      CrossTotalStep(n - 1, x, Sum(v, n - 1), v[n - 1]);
    }
  }

  lemma CrossAtMean(n: nat, m: real, s: real)
    requires Times(n, m) == s
    ensures CrossTotal(n, m, s) == Times(n, Sq(m))
  {
    TimesIsProduct(n, m);
    TimesIsProduct(n, Sq(m));
    assert m * s == n as real * Sq(m);
  }

  lemma {:induction false} NonNegativeSum(s: seq<real>, n: nat)
    requires n <= |s| && forall i :: 0 <= i < n ==> s[i] >= 0.0
    ensures Sum(s, n) >= 0.0
    ensures Sum(s, n) == 0.0 <==> forall i :: 0 <= i < n ==> s[i] == 0.0
    decreases n
  {
    if n > 0 {
      NonNegativeSum(s, n - 1);
    }
  }

  /** The mean square exceeds the squared mean by exactly the mean squared deviation. */
  lemma VarianceIdentity(v: seq<real>, m: real, q: real, d: real)
    requires MeanOf(m, v) && MeanOf(q, Squares(v)) && MeanOf(d, Deviations(v, m))
    ensures q == Sq(m) + d
  {
    DeviationsExpand(v, m);
    CrossSum(Cross(v, m), v, m, |v|);
    CrossAtMean(|v|, m, Sum(v, |v|));
    TimesAdds(|v|, Sq(m), d);
    TimesOrders(|v|, q, Sq(m) + d);
  }

  lemma MeanSign(s: seq<real>, m: real)
    requires MeanOf(m, s) && forall i :: 0 <= i < |s| ==> s[i] >= 0.0
    ensures m >= 0.0
    ensures m == 0.0 <==> forall i :: 0 <= i < |s| ==> s[i] == 0.0
  {
    NonNegativeSum(s, |s|);
    TimesIsProduct(|s|, 0.0);
    TimesOrders(|s|, 0.0, m);
  }

  lemma LesserSquare(a: real, b: real)
    requires 0.0 <= a < b
    ensures Sq(a) < Sq(b)
  {
    var x, y := b - a, b + a;
    assert x * y > 0.0;
    assert Sq(b) - Sq(a) == x * y;
  }

  lemma RootsOrdered(a: real, b: real)
    requires a >= 0.0 && b >= 0.0
    ensures a <= b <==> Sq(a) <= Sq(b)
    ensures a == b <==> Sq(a) == Sq(b)
  {
    if a < b {
      LesserSquare(a, b);
    } else if b < a {
      LesserSquare(b, a);
    }
  }

  lemma NegatedSquare(d: real)
    ensures Sq(-d) == Sq(d)
  {
  }

  lemma SquareIsZero(d: real)
    ensures Sq(d) >= 0.0 && (Sq(d) == 0.0 <==> d == 0.0)
  {
    if d < 0.0 {
      LesserSquare(0.0, -d);
      NegatedSquare(d);
    } else if d > 0.0 {
      LesserSquare(0.0, d);
    }
  }

  lemma SomeMean(s: seq<real>) returns (m: real)
    requires s != []
    ensures MeanOf(m, s)
  {
    m := Sum(s, |s|) / |s| as real;
    MeanIsQuotient(s, m);
  }

  /** The mean is at most the root mean square, with equality exactly if all values agree. */
  lemma MeanBelowRms(v: seq<real>, m: real, rms: real)
    requires MeanOf(m, v) && RmsOf(rms, v) && forall i :: 0 <= i < |v| ==> v[i] >= 0.0
    ensures 0.0 <= m <= rms && Sq(m) <= Sq(rms)
    ensures m == rms <==> forall i :: 0 <= i < |v| ==> v[i] == m
  {
    var ds := Deviations(v, m);
    var d := SomeMean(ds);
    VarianceIdentity(v, m, Sq(rms), d);
    forall i | 0 <= i < |v|
      ensures ds[i] >= 0.0 && (ds[i] == 0.0 <==> v[i] == m)
    {
      SquareIsZero(v[i] - m);
    }
    MeanSign(v, m);
    MeanSign(ds, d);
    RootsOrdered(m, rms);
  }

  lemma {:induction false} SumAtMost(s: seq<real>, n: nat, top: real)
    requires n <= |s| && forall i :: 0 <= i < n ==> s[i] <= top
    ensures Sum(s, n) <= Times(n, top)
    decreases n
  {
    if n > 0 {
      SumAtMost(s, n - 1, top);
    }
  }

  lemma MeanAtMost(s: seq<real>, m: real, top: real)
    requires MeanOf(m, s) && forall i :: 0 <= i < |s| ==> s[i] <= top
    ensures m <= top
  {
    SumAtMost(s, |s|, top);
    TimesOrders(|s|, m, top);
  }

  /** The root mean square is at most the largest value. */
  lemma RmsBelowMax(v: seq<real>, rms: real, top: real)
    requires RmsOf(rms, v) && MaxOf(top, v) && forall i :: 0 <= i < |v| ==> v[i] >= 0.0
    ensures rms <= top && Sq(rms) <= Sq(top)
  {
    var s := Squares(v);
    forall i | 0 <= i < |s|
      ensures s[i] <= Sq(top)
    {
      RootsOrdered(v[i], top);
    }
    MeanAtMost(s, Sq(rms), Sq(top));
    RootsOrdered(rms, top);
  }

  // ----- a trajectory of error vectors

  /** Every vector has the same number of axes. */
  predicate Shape(es: seq<seq<real>>, axes: nat) {
    forall i :: 0 <= i < |es| ==> |es[i]| == axes
  }

  function Errors(actual: seq<seq<real>>, desired: seq<seq<real>>, axes: nat): (es: seq<seq<real>>)
    requires |actual| == |desired| && Shape(actual, axes) && Shape(desired, axes)
    ensures |es| == |actual| && Shape(es, axes)
    ensures forall i, a :: 0 <= i < |es| && 0 <= a < axes ==> es[i][a] == actual[i][a] - desired[i][a]
  {
    seq(|actual|, i requires 0 <= i < |actual| =>
      seq(axes, a requires 0 <= a < axes => actual[i][a] - desired[i][a]))
  }

  function Column(es: seq<seq<real>>, axes: nat, a: nat): (c: seq<real>)
    requires Shape(es, axes) && a < axes
    ensures |c| == |es| && forall i :: 0 <= i < |es| ==> c[i] == es[i][a]
  {
    seq(|es|, i requires 0 <= i < |es| => es[i][a])
  }

  /** `np.linalg.norm(es, axis=1)` */
  predicate NormsOf(ns: seq<real>, es: seq<seq<real>>) {
    |ns| == |es| && forall i :: 0 <= i < |es| ==> IsRoot(ns[i], Sum(Squares(es[i]), |es[i]|))
  }

  /** Sum of squares over all vectors and axes, axis by axis. */
  function AxisSquares(es: seq<seq<real>>, axes: nat, a: nat): real
    requires Shape(es, axes) && a <= axes
  {
    if a == 0 then 0.0 else
      AxisSquares(es, axes, a - 1) + Sum(Squares(Column(es, axes, a - 1)), |es|)
  }

  lemma {:induction false} ColumnSnoc(es: seq<seq<real>>, axes: nat, e: seq<real>, a: nat)
    requires Shape(es, axes) && |e| == axes && a < axes
    ensures Shape(es + [e], axes)
    ensures Sum(Squares(Column(es + [e], axes, a)), |es| + 1) == Sum(Squares(Column(es, axes, a)), |es|) + Sq(e[a])
  {
    var s, t := Squares(Column(es, axes, a)), Squares(Column(es + [e], axes, a));
    SumPrefix(s, t, |es|);
    assert t[|es|] == Sq(e[a]);
  }

  lemma {:induction false} AxisSquaresSnoc(es: seq<seq<real>>, axes: nat, e: seq<real>, a: nat)
    requires Shape(es, axes) && |e| == axes && a <= axes && Shape(es + [e], axes)
    ensures AxisSquares(es + [e], axes, a) == AxisSquares(es, axes, a) + Sum(Squares(e), a)
    decreases a
  {
    if a > 0 {
      AxisSquaresSnoc(es, axes, e, a - 1);
      ColumnSnoc(es, axes, e, a - 1);
    }
  }

  lemma {:induction false} AxisSquaresNone(axes: nat, a: nat)
    requires a <= axes
    ensures AxisSquares([], axes, a) == 0.0
    decreases a
  {
    if a > 0 {
      AxisSquaresNone(axes, a - 1);
    }
  }

  /** Summing squares vector by vector or axis by axis is the same. */
  lemma {:induction false} NormsByAxis(es: seq<seq<real>>, axes: nat, ns: seq<real>)
    requires Shape(es, axes) && NormsOf(ns, es)
    ensures Sum(Squares(ns), |ns|) == AxisSquares(es, axes, axes)
    decreases |es|
  {
    if es == [] {
      AxisSquaresNone(axes, axes);
    } else {
      var k := |es| - 1;
      var e := es[k];
      assert es == es[..k] + [e];
      NormsByAxis(es[..k], axes, ns[..k]);
      AxisSquaresSnoc(es[..k], axes, e, axes);
      SumPrefix(Squares(ns[..k]), Squares(ns), k);
    }
  }

  datatype Stats = Stats(mean: real, rms: real, max: real, axisMean: seq<real>, axisRms: seq<real>, axisMax: seq<real>)

  /** One half of `compute_metrics`: the position part, or (without the means) the arm part. */
  predicate Computes(m: Stats, es: seq<seq<real>>, axes: nat, ns: seq<real>)
    requires Shape(es, axes)
  {
    && es != [] && NormsOf(ns, es)
    && MeanOf(m.mean, ns) && RmsOf(m.rms, ns) && MaxOf(m.max, ns)
    && |m.axisMean| == |m.axisRms| == |m.axisMax| == axes
    && forall a :: 0 <= a < axes ==> AxisComputes(m, es, axes, a)
  }

  predicate AxisComputes(m: Stats, es: seq<seq<real>>, axes: nat, a: nat)
    requires Shape(es, axes) && es != [] && a < |m.axisMean| == |m.axisRms| == |m.axisMax| == axes
  {
    && MeanOf(m.axisMean[a], Absolutes(Column(es, axes, a)))
    && RmsOf(m.axisRms[a], Column(es, axes, a))
    && MaxOf(m.axisMax[a], Absolutes(Column(es, axes, a)))
  }

  lemma AxisMeanSquare(m: Stats, es: seq<seq<real>>, axes: nat, a: nat)
    requires Shape(es, axes) && es != [] && a < |m.axisMean| == |m.axisRms| == |m.axisMax| == axes
    requires AxisComputes(m, es, axes, a)
    ensures Times(|es|, Squares(m.axisRms)[a]) == Sum(Squares(Column(es, axes, a)), |es|)
  {
  }

  /** The axes' mean squares, taken once for each sample, add up to all squared errors. */
  lemma {:induction false} AxesTogether(qs: seq<real>, es: seq<seq<real>>, axes: nat, a: nat)
    requires Shape(es, axes) && a <= axes == |qs|
    requires forall k :: 0 <= k < axes ==> Times(|es|, qs[k]) == Sum(Squares(Column(es, axes, k)), |es|)
    ensures Times(|es|, Sum(qs, a)) == AxisSquares(es, axes, a)
    decreases a
  {
    if a == 0 {
      TimesIsProduct(|es|, 0.0);
    } else {
      AxesTogether(qs, es, axes, a - 1);
      TimesAdds(|es|, Sum(qs, a - 1), qs[a - 1]);
    }
  }

  /** The squared position RMS is the sum of the squared RMS values of the axes. */
  lemma RmsByAxis(m: Stats, es: seq<seq<real>>, axes: nat, ns: seq<real>)
    requires Shape(es, axes) && Computes(m, es, axes, ns)
    ensures Sq(m.rms) == Sum(Squares(m.axisRms), axes)
  {
    var qs := Squares(m.axisRms);
    forall a | 0 <= a < axes
      ensures Times(|es|, qs[a]) == Sum(Squares(Column(es, axes, a)), |es|)
    {
      AxisMeanSquare(m, es, axes, a);
    }
    AxesTogether(qs, es, axes, axes);
    NormsByAxis(es, axes, ns);
    RmsTimes(m.rms, ns);
    SameMean(|es|, Sq(m.rms), Sum(qs, axes), Sum(Squares(ns), |ns|));
  }

  lemma RmsTimes(r: real, v: seq<real>)
    requires RmsOf(r, v)
    ensures Times(|v|, Sq(r)) == Sum(Squares(v), |v|)
  {
  }

  lemma SameMean(n: nat, x: real, y: real, s: real)
    requires n > 0 && Times(n, x) == s && Times(n, y) == s
    ensures x == y
  {
    TimesOrders(n, x, y);
  }

  /** Mean, RMS and maximum are ordered, and mean and RMS agree exactly for a constant error norm. */
  lemma MetricsOrdered(m: Stats, es: seq<seq<real>>, axes: nat, ns: seq<real>)
    requires Shape(es, axes) && Computes(m, es, axes, ns)
    ensures 0.0 <= m.mean <= m.rms <= m.max
    ensures Sq(m.mean) <= Sq(m.rms) <= Sq(m.max)
    ensures m.mean == m.rms <==> forall i :: 0 <= i < |ns| ==> ns[i] == m.mean
  {
    MeanBelowRms(ns, m.mean, m.rms);
    RmsBelowMax(ns, m.rms, m.max);
  }

  lemma AbsoluteSquares(v: seq<real>)
    ensures Squares(Absolutes(v)) == Squares(v)
  {
    var s, t := Squares(Absolutes(v)), Squares(v);
    forall i | 0 <= i < |v|
      ensures s[i] == t[i]
    {
      NegatedSquare(v[i]);
    }
  }

  /** The same order holds on every axis. */
  lemma AxisOrdered(m: Stats, es: seq<seq<real>>, axes: nat, ns: seq<real>, a: nat)
    requires Shape(es, axes) && Computes(m, es, axes, ns) && a < axes
    ensures 0.0 <= m.axisMean[a] <= m.axisRms[a] <= m.axisMax[a]
  {
    assert AxisComputes(m, es, axes, a);
    var c := Column(es, axes, a);
    AbsoluteSquares(c);
    MeanBelowRms(Absolutes(c), m.axisMean[a], m.axisRms[a]);
    RmsBelowMax(Absolutes(c), m.axisRms[a], m.axisMax[a]);
  }

  lemma {:induction false} SumCovers(s: seq<real>, n: nat, a: nat)
    requires a < n <= |s| && forall i :: 0 <= i < n ==> s[i] >= 0.0
    ensures s[a] <= Sum(s, n)
    decreases n
  {
    if a == n - 1 {
      NonNegativeSum(s, n - 1);
    } else {
      SumCovers(s, n - 1, a);
    }
  }

  lemma BoundedByRoot(x: real, r: real, square: real, total: real)
    requires x >= 0.0 && Sq(x) == square <= total && IsRoot(r, total)
    ensures x <= r
  {
    RootsOrdered(x, r);
  }

  /** No coordinate of a vector exceeds its norm. */
  lemma CoordinateBelowNorm(e: seq<real>, r: real, a: nat)
    requires IsRoot(r, Sum(Squares(e), |e|)) && a < |e|
    ensures Absolutes(e)[a] <= r
  {
    var s := Squares(e);
    forall i | 0 <= i < |e|
      ensures s[i] >= 0.0
    {
      SquareIsZero(e[i]);
    }
    SumCovers(s, |e|, a);
    NegatedSquare(e[a]);
    BoundedByRoot(Absolutes(e)[a], r, s[a], Sum(s, |e|));
  }

  /** No axis ever errs by more than the largest error norm. */
  lemma AxisMaxBelowMax(m: Stats, es: seq<seq<real>>, axes: nat, ns: seq<real>, a: nat)
    requires Shape(es, axes) && Computes(m, es, axes, ns) && a < axes
    ensures m.axisMax[a] <= m.max
  {
    assert AxisComputes(m, es, axes, a);
    var c := Absolutes(Column(es, axes, a));
    var i :| 0 <= i < |c| && c[i] == m.axisMax[a];
    CoordinateBelowNorm(es[i], ns[i], a);
  }

  /**
   * `compute_metrics` on any non-empty trajectory: the three position figures are ordered, on every axis too, and
   * the squared RMS splits over the axes.
   */
  lemma MetricsLaws(m: Stats, actual: seq<seq<real>>, desired: seq<seq<real>>, axes: nat, ns: seq<real>)
    requires |actual| == |desired| && Shape(actual, axes) && Shape(desired, axes)
    requires Computes(m, Errors(actual, desired, axes), axes, ns)
    ensures Sq(m.mean) <= Sq(m.rms) <= Sq(m.max) && 0.0 <= m.mean <= m.rms <= m.max
    ensures Sq(m.rms) == Sum(Squares(m.axisRms), axes)
    ensures forall a :: 0 <= a < axes ==> 0.0 <= m.axisMean[a] <= m.axisRms[a] <= m.axisMax[a] <= m.max
  {
    var es := Errors(actual, desired, axes);
    MetricsOrdered(m, es, axes, ns);
    RmsByAxis(m, es, axes, ns);
    forall a | 0 <= a < axes
      ensures 0.0 <= m.axisMean[a] <= m.axisRms[a] <= m.axisMax[a] <= m.max
    {
      AxisOrdered(m, es, axes, ns, a);
      AxisMaxBelowMax(m, es, axes, ns, a);
    }
  }
}

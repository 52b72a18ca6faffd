/** Averaging calibration samples into 2000 equal temperature intervals (over the reals). */
module Resample {
  import opened RealSums

  const BINS: nat := 2000

  // ----- the smallest and the largest sample

  function Least(x: seq<real>): (m: real)
    requires x != []
    ensures m in x && forall i :: 0 <= i < |x| ==> m <= x[i]
  {
    if |x| == 1 then x[0] else
      var m := Least(x[1..]);
      assert forall i :: 1 <= i < |x| ==> x[i] == x[1..][i - 1];
      if x[0] < m then x[0] else m
  }

  function Greatest(x: seq<real>): (m: real)
    requires x != []
    ensures m in x && forall i :: 0 <= i < |x| ==> x[i] <= m
  {
    if |x| == 1 then x[0] else
      var m := Greatest(x[1..]);
      assert forall i :: 1 <= i < |x| ==> x[i] == x[1..][i - 1];
      if m < x[0] then x[0] else m
  }

  // ----- which interval a sample falls into

  /** The width of one of `n` equal parts. */
  function Part(lo: real, hi: real, n: nat): real
    requires n > 0
  {
    (hi - lo) / n as real
  }

  /** Which of `n` equal parts `v` falls into; the last one takes the right end. */
  function PartOf(v: real, lo: real, hi: real, n: nat): (b: nat)
    requires lo <= hi && n > 0
    ensures b < n
  {
    if v < lo then 0
    else if v < hi then
      PartTimes(hi - lo, n);
      PartPositive(lo, hi, n);
      WholeSteps(v - lo, Part(lo, hi, n), n);
      ((v - lo) / Part(lo, hi, n)).Floor
    else n - 1
  }

  lemma PartPositive(lo: real, hi: real, n: nat)
    requires n > 0
    ensures lo < hi ==> Part(lo, hi, n) > 0.0
    ensures lo <= hi ==> Part(lo, hi, n) >= 0.0
  {
  }

  lemma PartEdges(v: real, lo: real, hi: real, n: nat)
    requires lo <= v <= hi && n > 0
    ensures var b := PartOf(v, lo, hi, n);
      && lo + Times(b, Part(lo, hi, n)) <= v
      && (b < n - 1 ==> v < lo + Times(b + 1, Part(lo, hi, n)))
  {
    var w := Part(lo, hi, n);
    PartTimes(hi - lo, n);
    PartPositive(lo, hi, n);
    if v < hi {
      WholeSteps(v - lo, w, n);
    } else {
      assert Times(n, w) == Times(n - 1, w) + w;
    }
  }

  function Width(lo: real, hi: real): real {
    Part(lo, hi, BINS)
  }

  /** The left edge of interval `b`. */
  function Edge(lo: real, hi: real, b: nat): real {
    lo + Times(b, Width(lo, hi))
  }

  function Bin(v: real, lo: real, hi: real): (b: nat)
    requires lo <= hi
    ensures b < BINS
  {
    PartOf(v, lo, hi, BINS)
  }

  /** Every sample lies in its own interval: from its left edge on, and short of the next one unless it is the last. */
  lemma BinEdges(v: real, lo: real, hi: real)
    requires lo <= v <= hi
    ensures Edge(lo, hi, Bin(v, lo, hi)) <= v
    ensures Bin(v, lo, hi) < BINS - 1 ==> v < Edge(lo, hi, Bin(v, lo, hi) + 1)
  {
    PartEdges(v, lo, hi, BINS);
  }

  /** The 2000 intervals, all of one width, span the samples. */
  lemma EdgesSpan(lo: real, hi: real)
    requires lo <= hi
    ensures Edge(lo, hi, 0) == lo && Edge(lo, hi, 2000) == hi
    ensures forall b: nat :: Edge(lo, hi, b + 1) - Edge(lo, hi, b) == Edge(lo, hi, 1) - Edge(lo, hi, 0)
  {
    PartTimes(hi - lo, BINS);
    forall b: nat
      ensures Edge(lo, hi, b + 1) - Edge(lo, hi, b) == Edge(lo, hi, 1) - Edge(lo, hi, 0)
    {
      TimesNext(b, Width(lo, hi));
      TimesNext(0, Width(lo, hi));
    }
  }

  lemma TimesNext(n: nat, w: real)
    ensures Times(n + 1, w) == Times(n, w) + w
  {
  }

  lemma EdgeMonotone(lo: real, hi: real, a: nat, b: nat)
    requires lo <= hi && a <= b
    ensures Edge(lo, hi, a) <= Edge(lo, hi, b)
  {
    PartPositive(lo, hi, BINS);
    TimesMonotone(a, b, Width(lo, hi));
  }

  // ----- what each interval accumulates

  /** The samples lie between `lo` and `hi`, and `ps` says which interval each one goes to. */
  predicate Placed(ps: seq<nat>, x: seq<real>, lo: real, hi: real) {
    |ps| == |x| && lo <= hi && forall i :: 0 <= i < |x| ==> lo <= x[i] <= hi && ps[i] == Bin(x[i], lo, hi)
  }

  function Places(x: seq<real>): (ps: seq<nat>)
    requires x != []
    ensures Placed(ps, x, Least(x), Greatest(x))
  {
    var lo, hi := Least(x), Greatest(x);
    assert lo <= x[0] <= hi;
    seq(|x|, i requires 0 <= i < |x| => Bin(x[i], lo, hi))
  }

  /** Sum of those of the first `n` values that go to interval `b`. */
  function BinSum(ps: seq<nat>, v: seq<real>, n: nat, b: nat): real
    requires n <= |ps| && n <= |v|
  {
    if n == 0 then 0.0 else BinSum(ps, v, n - 1, b) + (if ps[n - 1] == b then v[n - 1] else 0.0)
  }

  function BinCount(ps: seq<nat>, n: nat, b: nat): nat
    requires n <= |ps|
  {
    if n == 0 then 0 else BinCount(ps, n - 1, b) + (if ps[n - 1] == b then 1 else 0)
  }

  function Count(c: seq<nat>, n: nat): nat
    requires n <= |c|
  {
    if n == 0 then 0 else Count(c, n - 1) + c[n - 1]
  }

  predicate Sums(s: seq<real>, ps: seq<nat>, v: seq<real>, n: nat)
    requires n <= |ps| && n <= |v|
  {
    |s| == BINS && forall b :: 0 <= b < BINS ==> s[b] == BinSum(ps, v, n, b)
  }

  predicate Counts(c: seq<nat>, ps: seq<nat>, n: nat)
    requires n <= |ps|
  {
    |c| == BINS && forall b :: 0 <= b < BINS ==> c[b] == BinCount(ps, n, b)
  }

  lemma SumsStep(s: seq<real>, ps: seq<nat>, v: seq<real>, n: nat)
    requires n < |ps| && n < |v| && ps[n] < BINS && Sums(s, ps, v, n)
    ensures Sums(s[ps[n] := s[ps[n]] + v[n]], ps, v, n + 1)
  {
    var t := s[ps[n] := s[ps[n]] + v[n]];
    forall b | 0 <= b < BINS
      ensures t[b] == BinSum(ps, v, n + 1, b)
    {
      assert s[b] == BinSum(ps, v, n, b);
    }
  }

  lemma CountsStep(c: seq<nat>, ps: seq<nat>, n: nat)
    requires n < |ps| && ps[n] < BINS && Counts(c, ps, n)
    ensures Counts(c[ps[n] := c[ps[n]] + 1], ps, n + 1)
  {
    var t := c[ps[n] := c[ps[n]] + 1];
    forall b | 0 <= b < BINS
      ensures t[b] == BinCount(ps, n + 1, b)
    {
      assert c[b] == BinCount(ps, n, b);
    }
  }

  method AddTo(a: array<real>, b: nat, v: real)
    requires b < a.Length
    modifies a
    ensures a[..] == old(a[..])[b := old(a[b]) + v]
  {
    a[b] := a[b] + v;
  }

  method CountAt(c: array<nat>, b: nat)
    requires b < c.Length
    modifies c
    ensures c[..] == old(c[..])[b := old(c[b]) + 1]
  {
    c[b] := c[b] + 1;
  }

  /** Adds sample `n` to the interval `b` it belongs to. */
  method AddSample(sx: array<real>, sy: array<real>, c: array<nat>, x: seq<real>, y: seq<real>, b: nat,
                   ghost ps: seq<nat>, n: nat)
    requires n < |ps| && n < |x| && n < |y| && b == ps[n] < BINS && sx != sy
    requires Sums(sx[..], ps, x, n) && Sums(sy[..], ps, y, n) && Counts(c[..], ps, n)
    modifies sx, sy, c
    ensures Sums(sx[..], ps, x, n + 1) && Sums(sy[..], ps, y, n + 1) && Counts(c[..], ps, n + 1)
  {
    SumsStep(sx[..], ps, x, n);
    SumsStep(sy[..], ps, y, n);
    CountsStep(c[..], ps, n);
    AddTo(sy, b, y[n]);
    AddTo(sx, b, x[n]);
    CountAt(c, b);
  }

  /** The accumulating loop. */
  method Accumulate(x: seq<real>, y: seq<real>) returns (sx: array<real>, sy: array<real>, c: array<nat>)
    requires x != [] && |x| <= |y|
    ensures Sums(sx[..], Places(x), x, |x|) && Sums(sy[..], Places(x), y, |x|) && Counts(c[..], Places(x), |x|)
  {
    var lo, hi := Least(x), Greatest(x);
    sx := new real[BINS](_ => 0.0);
    sy := new real[BINS](_ => 0.0);
    c := new nat[BINS](_ => 0);
    ghost var ps := Places(x);
    for n := 0 to |x|
      invariant sx != sy && fresh(sx) && fresh(sy) && fresh(c)
      invariant Sums(sx[..], ps, x, n) && Sums(sy[..], ps, y, n) && Counts(c[..], ps, n)
    {
      AddSample(sx, sy, c, x, y, Bin(x[n], lo, hi), ps, n);
    }
  }

  // ----- dropping the empty intervals and dividing

  /** Positions of entries of `c` below `n` that are not zero, in order. */
  predicate Picks(ks: seq<nat>, c: seq<nat>, n: nat) {
    && (forall i :: 0 <= i < |ks| ==> ks[i] < n && ks[i] < |c| && c[ks[i]] != 0)
    && (forall i, j :: 0 <= i < j < |ks| ==> ks[i] < ks[j])
  }

  /** The first `n` intervals that are not empty, in order. */
  function NotEmpty(c: seq<nat>, n: nat): (ks: seq<nat>)
    requires n <= |c|
    ensures Picks(ks, c, n)
  {
    if n == 0 then [] else if c[n - 1] != 0 then NotEmpty(c, n - 1) + [n - 1] else NotEmpty(c, n - 1)
  }

  function Select<T>(s: seq<T>, ks: seq<nat>): (r: seq<T>)
    requires forall i :: 0 <= i < |ks| ==> ks[i] < |s|
    ensures |r| == |ks| && forall i :: 0 <= i < |ks| ==> r[i] == s[ks[i]]
  {
    seq(|ks|, i requires 0 <= i < |ks| => s[ks[i]])
  }

  function Divided(s: seq<real>, c: seq<nat>): (r: seq<real>)
    requires |s| == |c| && forall i :: 0 <= i < |c| ==> c[i] != 0
    ensures |r| == |s| && forall i :: 0 <= i < |s| ==> r[i] == s[i] / c[i] as real
  {
    seq(|s|, i requires 0 <= i < |s| => s[i] / c[i] as real)
  }

  /** Sum of the means, each counted as often as its interval holds samples. */
  function Weighted(means: seq<real>, counts: seq<nat>, n: nat): real
    requires n <= |means| && n <= |counts|
  {
    if n == 0 then 0.0 else Weighted(means, counts, n - 1) + counts[n - 1] as real * means[n - 1]
  }

  // ----- nothing is lost

  lemma {:induction false} BinSumsStep(ps: seq<nat>, v: seq<real>, n: nat, s: seq<real>, t: seq<real>, m: nat)
    requires n < |ps| && n < |v| && m <= |s| == |t|
    requires forall b :: 0 <= b < m ==> s[b] == BinSum(ps, v, n, b) && t[b] == BinSum(ps, v, n + 1, b)
    ensures Sum(t, m) == Sum(s, m) + (if ps[n] < m then v[n] else 0.0)
    decreases m
  {
    if m > 0 {
      BinSumsStep(ps, v, n, s, t, m - 1);
    }
  }

  /** Over all intervals the sums add up to the sum of the samples. */
  lemma {:induction false} SumsAddUp(s: seq<real>, ps: seq<nat>, v: seq<real>, n: nat)
    requires n <= |ps| && n <= |v| && Sums(s, ps, v, n) && forall i :: 0 <= i < |ps| ==> ps[i] < BINS
    ensures Sum(s, BINS) == Sum(v, n)
    decreases n
  {
    if n == 0 {
      ZeroSum(s, BINS);
    } else {
      var before := seq(BINS, b requires 0 <= b < BINS => BinSum(ps, v, n - 1, b));
      SumsAddUp(before, ps, v, n - 1);
      BinSumsStep(ps, v, n - 1, before, s, BINS);
    }
  }

  lemma {:induction false} ZeroSum(s: seq<real>, m: nat)
    requires m <= |s| && forall b :: 0 <= b < m ==> s[b] == 0.0
    ensures Sum(s, m) == 0.0
    decreases m
  {
    if m > 0 {
      ZeroSum(s, m - 1);
    }
  }

  /** An empty interval accumulated nothing. */
  lemma {:induction false} EmptyBin(ps: seq<nat>, v: seq<real>, n: nat, b: nat)
    requires n <= |ps| && n <= |v| && BinCount(ps, n, b) == 0
    ensures BinSum(ps, v, n, b) == 0.0
    decreases n
  {
    if n > 0 {
      EmptyBin(ps, v, n - 1, b);
    }
  }

  lemma {:induction false} CountPrefix(a: seq<nat>, b: seq<nat>, n: nat)
    requires n <= |a| && n <= |b| && forall i :: 0 <= i < n ==> a[i] == b[i]
    ensures Count(a, n) == Count(b, n)
    decreases n
  {
    if n > 0 {
      CountPrefix(a, b, n - 1);
    }
  }

  lemma SelectSnocSum(s: seq<real>, ks: seq<nat>, k: nat)
    requires k < |s| && forall i :: 0 <= i < |ks| ==> ks[i] < |s|
    ensures Sum(Select(s, ks + [k]), |ks| + 1) == Sum(Select(s, ks), |ks|) + s[k]
  {
    var a, b := Select(s, ks), Select(s, ks + [k]);
    SumPrefix(a, b, |ks|);
    assert b[|ks|] == s[k];
  }

  lemma SelectSnocCount(c: seq<nat>, ks: seq<nat>, k: nat)
    requires k < |c| && forall i :: 0 <= i < |ks| ==> ks[i] < |c|
    ensures Count(Select(c, ks + [k]), |ks| + 1) == Count(Select(c, ks), |ks|) + c[k]
  {
    var a, b := Select(c, ks), Select(c, ks + [k]);
    CountPrefix(a, b, |ks|);
    assert b[|ks|] == c[k];
  }

  /** Dropping the empty intervals changes no sum. */
  lemma {:induction false} SelectedSum(s: seq<real>, c: seq<nat>, n: nat, ks: seq<nat>)
    requires |s| == |c| && n <= |c| && forall b :: 0 <= b < |c| && c[b] == 0 ==> s[b] == 0.0
    requires ks == NotEmpty(c, n) && forall i :: 0 <= i < |ks| ==> ks[i] < |s|
    ensures Sum(Select(s, ks), |ks|) == Sum(s, n)
    decreases n
  {
    if n > 0 {
      var before := NotEmpty(c, n - 1);
      SelectedSum(s, c, n - 1, before);
      if c[n - 1] != 0 {
        SelectSnocSum(s, before, n - 1);
      }
    }
  }

  lemma {:induction false} SelectedCount(c: seq<nat>, n: nat, ks: seq<nat>)
    requires n <= |c|
    requires ks == NotEmpty(c, n) && forall i :: 0 <= i < |ks| ==> ks[i] < |c|
    ensures Count(Select(c, ks), |ks|) == Count(c, n)
    decreases n
  {
    if n > 0 {
      var before := NotEmpty(c, n - 1);
      SelectedCount(c, n - 1, before);
      if c[n - 1] != 0 {
        SelectSnocCount(c, before, n - 1);
      }
    }
  }

  lemma TimesMean(s: real, c: nat)
    requires c > 0
    ensures c as real * (s / c as real) == s
  {
  }

  lemma {:induction false} WeightedIsSum(means: seq<real>, c: seq<nat>, s: seq<real>, n: nat)
    requires n <= |means| && n <= |c| && n <= |s| && forall i :: 0 <= i < n ==> c[i] as real * means[i] == s[i]
    ensures Weighted(means, c, n) == Sum(s, n)
    decreases n
  {
    if n > 0 {
      WeightedIsSum(means, c, s, n - 1);
    }
  }

  /** Multiplying each mean by its count gives back the sum. */
  lemma DividedWeighted(s: seq<real>, c: seq<nat>)
    requires |s| == |c| && forall i :: 0 <= i < |c| ==> c[i] != 0
    ensures Weighted(Divided(s, c), c, |c|) == Sum(s, |s|)
  {
    var means := Divided(s, c);
    forall i | 0 <= i < |s|
      ensures c[i] as real * means[i] == s[i]
    {
      TimesMean(s[i], c[i]);
    }
    WeightedIsSum(means, c, s, |s|);
  }

  lemma {:induction false} BinCountsStep(ps: seq<nat>, n: nat, c: seq<nat>, d: seq<nat>, m: nat)
    requires n < |ps| && m <= |c| == |d|
    requires forall b :: 0 <= b < m ==> c[b] == BinCount(ps, n, b) && d[b] == BinCount(ps, n + 1, b)
    ensures Count(d, m) == Count(c, m) + (if ps[n] < m then 1 else 0)
    decreases m
  {
    if m > 0 {
      BinCountsStep(ps, n, c, d, m - 1);
    }
  }

  lemma {:induction false} ZeroCount(c: seq<nat>, m: nat)
    requires m <= |c| && forall b :: 0 <= b < m ==> c[b] == 0
    ensures Count(c, m) == 0
    decreases m
  {
    if m > 0 {
      ZeroCount(c, m - 1);
    }
  }

  /** Over all intervals the counts add up to the number of samples. */
  lemma {:induction false} CountsAddUp(c: seq<nat>, ps: seq<nat>, n: nat)
    requires n <= |ps| && Counts(c, ps, n) && forall i :: 0 <= i < |ps| ==> ps[i] < BINS
    ensures Count(c, BINS) == n
    decreases n
  {
    if n == 0 {
      ZeroCount(c, BINS);
    } else {
      var before := seq(BINS, b requires 0 <= b < BINS => BinCount(ps, n - 1, b));
      CountsAddUp(before, ps, n - 1);
      BinCountsStep(ps, n - 1, before, c, BINS);
    }
  }

  // ----- each mean stays inside its own interval

  lemma {:induction false} BinSumAtLeast(ps: seq<nat>, v: seq<real>, n: nat, b: nat, e: real)
    requires n <= |ps| && n <= |v| && forall i :: 0 <= i < n && ps[i] == b ==> e <= v[i]
    ensures Times(BinCount(ps, n, b), e) <= BinSum(ps, v, n, b)
    decreases n
  {
    if n > 0 {
      BinSumAtLeast(ps, v, n - 1, b, e);
    }
  }

  lemma {:induction false} BinSumBelow(ps: seq<nat>, v: seq<real>, n: nat, b: nat, e: real)
    requires n <= |ps| && n <= |v| && forall i :: 0 <= i < n && ps[i] == b ==> v[i] < e
    ensures BinSum(ps, v, n, b) <= Times(BinCount(ps, n, b), e)
    ensures BinCount(ps, n, b) > 0 ==> BinSum(ps, v, n, b) < Times(BinCount(ps, n, b), e)
    decreases n
  {
    if n > 0 {
      BinSumBelow(ps, v, n - 1, b, e);
    }
  }

  lemma MeanAtLeast(s: real, c: nat, e: real)
    requires c > 0 && Times(c, e) <= s
    ensures e <= s / c as real
  {
    PartTimes(s, c);
    TimesOrders(c, e, s / c as real);
  }

  lemma MeanBelow(s: real, c: nat, e: real)
    requires c > 0 && s < Times(c, e)
    ensures s / c as real < e
  {
    PartTimes(s, c);
    TimesOrders(c, e, s / c as real);
  }

  predicate Within(v: real, e: real, f: real, last: bool) {
    e <= v && (last || v < f)
  }

  /** The mean of values in `[e, f)` is in `[e, f)` (in `[e, ..)` for the last interval). */
  lemma MeanWithin(ps: seq<nat>, v: seq<real>, n: nat, b: nat, e: real, f: real, last: bool)
    requires n <= |ps| && n <= |v| && BinCount(ps, n, b) > 0
    requires forall i :: 0 <= i < n && ps[i] == b ==> Within(v[i], e, f, last)
    ensures Within(BinSum(ps, v, n, b) / BinCount(ps, n, b) as real, e, f, last)
  {
    BinSumAtLeast(ps, v, n, b, e);
    MeanAtLeast(BinSum(ps, v, n, b), BinCount(ps, n, b), e);
    if !last {
      BinSumBelow(ps, v, n, b, f);
      MeanBelow(BinSum(ps, v, n, b), BinCount(ps, n, b), f);
    }
  }

  predicate InInterval(v: real, lo: real, hi: real, b: nat) {
    Within(v, Edge(lo, hi, b), Edge(lo, hi, b + 1), b == BINS - 1)
  }

  lemma MeanInInterval(x: seq<real>, ps: seq<nat>, lo: real, hi: real, b: nat)
    requires Placed(ps, x, lo, hi) && b < BINS && BinCount(ps, |x|, b) > 0
    ensures InInterval(BinSum(ps, x, |x|, b) / BinCount(ps, |x|, b) as real, lo, hi, b)
  {
    var e, f, last := Edge(lo, hi, b), Edge(lo, hi, b + 1), b == BINS - 1;
    forall i | 0 <= i < |x| && ps[i] == b
      ensures Within(x[i], e, f, last)
    {
      BinEdges(x[i], lo, hi);
    }
    MeanWithin(ps, x, |x|, b, e, f, last);
  }

  /** A value in a later interval is larger. */
  lemma LaterIsLarger(u: real, v: real, lo: real, hi: real, a: nat, b: nat)
    requires lo <= hi && a < b < BINS && InInterval(u, lo, hi, a) && InInterval(v, lo, hi, b)
    ensures u < v
  {
    EdgeMonotone(lo, hi, a + 1, b);
  }

  // ----- the whole operation

  /** What remains of the sums of `v` in the occupied intervals, averaged, still weighs as much as `v` did. */
  lemma MeansConserve(s: seq<real>, c: seq<nat>, ps: seq<nat>, v: seq<real>, n: nat)
    requires n <= |ps| && n <= |v| && Sums(s, ps, v, n) && Counts(c, ps, n)
    requires forall i :: 0 <= i < |ps| ==> ps[i] < BINS
    ensures var ks := NotEmpty(c, BINS);
      Weighted(Divided(Select(s, ks), Select(c, ks)), Select(c, ks), |ks|) == Sum(v, n)
  {
    forall b | 0 <= b < BINS && c[b] == 0
      ensures s[b] == 0.0
    {
      EmptyBin(ps, v, n, b);
    }
    var ks := NotEmpty(c, BINS);
    DividedWeighted(Select(s, ks), Select(c, ks));
    SelectedSum(s, c, BINS, ks);
    SumsAddUp(s, ps, v, n);
  }

  predicate StrictlyIncreasing(r: seq<real>) {
    forall i, j :: 0 <= i < j < |r| ==> r[i] < r[j]
  }

  lemma MeansIncrease(s: seq<real>, c: seq<nat>, x: seq<real>, ps: seq<nat>, lo: real, hi: real)
    requires Placed(ps, x, lo, hi) && Sums(s, ps, x, |x|) && Counts(c, ps, |x|)
    ensures var ks := NotEmpty(c, BINS); StrictlyIncreasing(Divided(Select(s, ks), Select(c, ks)))
  {
    var ks := NotEmpty(c, BINS);
    var means := Divided(Select(s, ks), Select(c, ks));
    forall i, j | 0 <= i < j < |means|
      ensures means[i] < means[j]
    {
      MeanInInterval(x, ps, lo, hi, ks[i]);
      MeanInInterval(x, ps, lo, hi, ks[j]);
      LaterIsLarger(means[i], means[j], lo, hi, ks[i], ks[j]);
    }
  }

  /** With `counts` as weights neither sum has changed. */
  predicate Conserves(rx: seq<real>, ry: seq<real>, counts: seq<nat>, x: seq<real>, y: seq<real>)
    requires |x| <= |y|
  {
    && |rx| == |ry| == |counts| <= BINS
    && Count(counts, |counts|) == |x|
    && Weighted(rx, counts, |counts|) == Sum(x, |x|)
    && Weighted(ry, counts, |counts|) == Sum(y, |x|)
  }

  /** Interval `ks[k]` holds `counts[k]` of the samples, and `r[k]` is the mean of their values. */
  predicate Averages(r: seq<real>, counts: seq<nat>, ks: seq<nat>, ps: seq<nat>, v: seq<real>)
    requires |ps| <= |v|
  {
    |r| == |counts| == |ks| &&
    forall k :: 0 <= k < |ks| ==>
      && counts[k] == BinCount(ps, |ps|, ks[k]) > 0
      && r[k] == BinSum(ps, v, |ps|, ks[k]) / counts[k] as real
  }

  lemma DividedAverages(s: seq<real>, c: seq<nat>, ks: seq<nat>, ps: seq<nat>, v: seq<real>)
    requires |ps| <= |v| && Sums(s, ps, v, |ps|) && Counts(c, ps, |ps|) && Picks(ks, c, BINS)
    ensures Averages(Divided(Select(s, ks), Select(c, ks)), Select(c, ks), ks, ps, v)
  {
  }

  /** Exactly the occupied intervals, from left to right. */
  predicate Occupied(ks: seq<nat>, ps: seq<nat>) {
    && (forall i, j :: 0 <= i < j < |ks| ==> ks[i] < ks[j])
    && (forall k :: 0 <= k < |ks| ==> ks[k] < BINS)
    && (forall i :: 0 <= i < |ps| ==> ps[i] in ks)
  }

  lemma {:induction false} NotEmptyAll(c: seq<nat>, n: nat, k: nat)
    requires k < n <= |c| && c[k] != 0
    ensures k in NotEmpty(c, n)
    decreases n
  {
    if k < n - 1 {
      NotEmptyAll(c, n - 1, k);
    }
  }

  lemma {:induction false} Counted(ps: seq<nat>, n: nat, i: nat)
    requires i < n <= |ps|
    ensures BinCount(ps, n, ps[i]) > 0
    decreases n
  {
    if i < n - 1 {
      Counted(ps, n - 1, i);
    }
  }

  lemma NotEmptyOccupied(c: seq<nat>, ps: seq<nat>)
    requires Counts(c, ps, |ps|) && forall i :: 0 <= i < |ps| ==> ps[i] < BINS
    ensures Occupied(NotEmpty(c, BINS), ps)
  {
    forall i | 0 <= i < |ps|
      ensures ps[i] in NotEmpty(c, BINS)
    {
      Counted(ps, |ps|, i);
      NotEmptyAll(c, BINS, ps[i]);
    }
  }

  lemma {:induction false} PicksBound(ks: seq<nat>, c: seq<nat>, n: nat)
    requires Picks(ks, c, n)
    ensures |ks| <= n
    decreases n
  {
    if ks != [] {
      PicksBound(ks[..|ks| - 1], c, ks[|ks| - 1]);
    }
  }

  /** Everything the returned points satisfy. */
  lemma Resampled(sx: seq<real>, sy: seq<real>, c: seq<nat>, x: seq<real>, y: seq<real>, ps: seq<nat>)
    requires x != [] && |x| <= |y| && ps == Places(x)
    requires Sums(sx, ps, x, |x|) && Sums(sy, ps, y, |x|) && Counts(c, ps, |x|)
    ensures var ks := NotEmpty(c, BINS);
      var kept := Select(c, ks);
      var rx, ry := Divided(Select(sx, ks), kept), Divided(Select(sy, ks), kept);
      && Conserves(rx, ry, kept, x, y) && StrictlyIncreasing(rx)
      && Averages(rx, kept, ks, ps, x) && Averages(ry, kept, ks, ps, y) && Occupied(ks, ps)
  {
    var ks := NotEmpty(c, BINS);
    MeansConserve(sx, c, ps, x, |x|);
    MeansConserve(sy, c, ps, y, |x|);
    MeansIncrease(sx, c, x, ps, Least(x), Greatest(x));
    SelectedCount(c, BINS, ks);
    CountsAddUp(c, ps, |x|);
    PicksBound(ks, c, BINS);
    DividedAverages(sx, c, ks, ps, x);
    DividedAverages(sy, c, ks, ps, y);
    NotEmptyOccupied(c, ps);
  }

  /**
   * `resampleWithDeltaX`: raises on no sample at all and on fewer values than samples; otherwise returns one point
   * for each occupied interval.
   */
  method ResampleWithDeltaX(x: seq<real>, y: seq<real>)
    returns (raised: bool, rx: seq<real>, ry: seq<real>, ghost counts: seq<nat>, ghost ks: seq<nat>)
    ensures raised <==> x == [] || |y| < |x|
    ensures !raised ==> Conserves(rx, ry, counts, x, y) && StrictlyIncreasing(rx) && Occupied(ks, Places(x))
    ensures !raised ==> Averages(rx, counts, ks, Places(x), x) && Averages(ry, counts, ks, Places(x), y)
  {
    rx, ry, counts, ks := [], [], [], [];
    if x == [] || |y| < |x| {
      return true, rx, ry, counts, ks;
    }
    raised := false;
    var sx, sy, c := Accumulate(x, y);
    Resampled(sx[..], sy[..], c[..], x, y, Places(x));
    var idxNotEmpty := NotEmpty(c[..], BINS);
    var kept := Select(c[..], idxNotEmpty);
    rx := Divided(Select(sx[..], idxNotEmpty), kept);
    ry := Divided(Select(sy[..], idxNotEmpty), kept);
    counts, ks := kept, idxNotEmpty;
  }
}

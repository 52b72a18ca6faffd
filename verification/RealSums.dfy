/** Sums of real samples, and multiples of a real number. */
module RealSums {

  function Sum(v: seq<real>, n: nat): real
    requires n <= |v|
  {
    if n == 0 then 0.0 else Sum(v, n - 1) + v[n - 1]
  }

  lemma {:induction false} SumPrefix(a: seq<real>, b: seq<real>, n: nat)
    requires n <= |a| && n <= |b| && forall i :: 0 <= i < n ==> a[i] == b[i]
    ensures Sum(a, n) == Sum(b, n)
    decreases n
  {
    if n > 0 {
      SumPrefix(a, b, n - 1);
    }
  }

  /** `x` added up `n` times. */
  function Times(n: nat, x: real): real {
    if n == 0 then 0.0 else Times(n - 1, x) + x
  }

  lemma {:induction false} TimesIsProduct(n: nat, x: real)
    ensures Times(n, x) == n as real * x
  {
    if n > 0 {
      TimesIsProduct(n - 1, x);
      assert n as real * x == (n - 1) as real * x + x;
    }
  }

  lemma {:induction false} TimesAdds(n: nat, x: real, y: real)
    ensures Times(n, x + y) == Times(n, x) + Times(n, y)
  {
    if n > 0 {
      TimesAdds(n - 1, x, y);
    }
  }

  lemma {:induction false} TimesGrows(n: nat, x: real, y: real)
    requires n > 0 && x < y
    ensures Times(n, x) < Times(n, y)
  {
    if n > 1 {
      TimesGrows(n - 1, x, y);
    }
  }

  lemma TimesOrders(n: nat, x: real, y: real)
    requires n > 0
    ensures x <= y <==> Times(n, x) <= Times(n, y)
    ensures x == y <==> Times(n, x) == Times(n, y)
  {
    if x < y {
      TimesGrows(n, x, y);
    } else if y < x {
      TimesGrows(n, y, x);
    }
  }

  lemma {:induction false} TimesNonNegative(n: nat, x: real)
    requires x >= 0.0
    ensures Times(n, x) >= 0.0
  {
    if n > 0 {
      TimesNonNegative(n - 1, x);
    }
  }

  lemma {:induction false} TimesMonotone(a: nat, b: nat, x: real)
    requires a <= b && x >= 0.0
    ensures Times(a, x) <= Times(b, x)
    decreases b
  {
    if a < b {
      TimesMonotone(a, b - 1, x);
    }
  }

  lemma QuotientTimes(s: real, n: nat)
    requires n > 0
    ensures n as real * (s / n as real) == s
  {
  }

  /** An `n`-th part, taken `n` times, is the whole. */
  lemma PartTimes(s: real, n: nat)
    requires n > 0
    ensures Times(n, s / n as real) == s
  {
    TimesIsProduct(n, s / n as real);
    QuotientTimes(s, n);
  }

  lemma DivAdds(a: real, b: real, w: real)
    requires w > 0.0
    ensures (a + b) / w == a / w + b / w
  {
  }

  lemma DivSelf(w: real)
    requires w > 0.0
    ensures w / w == 1.0
  {
  }

  lemma DivShift(d: real, w: real)
    requires w > 0.0
    ensures (d - w) / w == d / w - 1.0
  {
    DivAdds(d - w, w, w);
    DivSelf(w);
    assert d - w + w == d;
  }

  lemma DivSmall(d: real, w: real)
    requires 0.0 <= d < w
    ensures 0.0 <= d / w < 1.0
  {
  }

  /** Which of `n` steps of width `w` the value `d` falls into: the whole part of the quotient. */
  lemma {:induction false} WholeSteps(d: real, w: real, n: nat)
    requires w > 0.0 && 0.0 <= d < Times(n, w)
    ensures 0 <= (d / w).Floor < n
    ensures Times((d / w).Floor, w) <= d < Times((d / w).Floor, w) + w
    decreases n
  {
    if d < w {
      DivSmall(d, w);
    } else {
      DivShift(d, w);
      WholeSteps(d - w, w, n - 1);
      assert ((d - w) / w).Floor == (d / w).Floor - 1;
    }
  }
}

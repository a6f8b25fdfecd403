/** Column statistics over exact reals, as pandas computes them per column:
    sum, mean, sample variance (ddof = 1), minimum, maximum, linear-interpolation
    quantiles and the median, plus the z-score comparisons used by the outlier
    filters, stated without square roots. */
module Stats {

  /** The square of x. The second factor is passed through `Same`, which keeps
      the product an ordinary product of two terms for the solver instead of a
      power it reasons about less reliably. */
  function Sq(x: real): (r: real)
    ensures r >= 0.0
  {
    x * Same(x)
  }

  function Same(x: real): real
  {
    x
  }

  function Abs(x: real): (r: real)
    ensures r >= 0.0 && Sq(r) == Sq(x)
  {
    if x < 0.0 then -x else x
  }

  function Sum(s: seq<real>): real
  {
    if s == [] then 0.0 else s[0] + Sum(s[1..])
  }

  function Mean(s: seq<real>): real
    requires |s| > 0
  {
    Sum(s) / |s| as real
  }

  /** Sum of the squared deviations of the values of `s` from `m`. */
  function SumSqDev(s: seq<real>, m: real): (r: real)
    ensures r >= 0.0
  {
    if s == [] then 0.0 else Sq(s[0] - m) + SumSqDev(s[1..], m)
  }

  /** Sample variance with one degree of freedom removed, pandas' default. */
  function SampleVariance(s: seq<real>): real
    requires |s| >= 2
  {
    SumSqDev(s, Mean(s)) / (|s| - 1) as real
  }

  function Min(s: seq<real>): (m: real)
    requires |s| > 0
    ensures forall i | 0 <= i < |s| :: m <= s[i]
  {
    if |s| == 1 then s[0]
    else
      var rest := Min(s[1..]);
      if s[0] <= rest then s[0] else rest
  }

  function Max(s: seq<real>): (m: real)
    requires |s| > 0
    ensures forall i | 0 <= i < |s| :: s[i] <= m
  {
    if |s| == 1 then s[0]
    else
      var rest := Max(s[1..]);
      if s[0] >= rest then s[0] else rest
  }

  /** The minimum and the maximum are values of the column. */
  lemma {:induction false} MinMaxAttained(s: seq<real>)
    requires |s| > 0
    ensures Min(s) in s && Max(s) in s
  {
    if |s| > 1 {
      MinMaxAttained(s[1..]);
    }
  }

  /** A sum of values that all lie in [lo, hi] lies between |s|*lo and |s|*hi. */
  lemma {:induction false} SumBounds(s: seq<real>, lo: real, hi: real)
    requires forall i | 0 <= i < |s| :: lo <= s[i] <= hi
    ensures |s| as real * lo <= Sum(s) <= |s| as real * hi
  {
    if s != [] {
      SumBounds(s[1..], lo, hi);
    }
  }

  /** The mean of a non-empty column lies between its minimum and maximum. */
  lemma MeanWithinRange(s: seq<real>)
    requires |s| > 0
    ensures Min(s) <= Mean(s) <= Max(s)
  {
    var lo, hi, sum, n := Min(s), Max(s), Sum(s), |s| as real;
    assert n * lo <= sum <= n * hi by { SumBounds(s, lo, hi); }
    assert n > 0.0;
    DivBounds(sum, n, lo, hi);
  }

  predicate IsSorted(s: seq<real>)
  {
    forall i, j | 0 <= i <= j < |s| :: s[i] <= s[j]
  }

  function Insert(x: real, s: seq<real>): (r: seq<real>)
    requires IsSorted(s)
    ensures |r| == |s| + 1
    ensures IsSorted(r)
    ensures multiset(r) == multiset(s) + multiset{x}
  {
    if s == [] || x <= s[0] then
      SortedCons(x, s);
      [x] + s
    else
      var rest := Insert(x, s[1..]);
      assert s == [s[0]] + s[1..];
      BoundBelow(s[0], rest, s[1..], x);
      SortedCons(s[0], rest);
      [s[0]] + rest
  }

  /** A value no larger than anything in a sorted sequence may be put in front of it. */
  lemma SortedCons(h: real, t: seq<real>)
    requires IsSorted(t)
    requires t != [] ==> h <= t[0]
    ensures IsSorted([h] + t)
  {
  }

  /** A lower bound of `t` and of `x` bounds every element of a sequence holding exactly their values. */
  lemma BoundBelow(lo: real, r: seq<real>, t: seq<real>, x: real)
    requires multiset(r) == multiset(t) + multiset{x}
    requires lo <= x && forall j | 0 <= j < |t| :: lo <= t[j]
    ensures forall i | 0 <= i < |r| :: lo <= r[i]
  {
    forall i | 0 <= i < |r|
      ensures lo <= r[i]
    {
      assert r[i] in multiset(r);
      if r[i] != x {
        assert r[i] in multiset(t);
        var j :| 0 <= j < |t| && t[j] == r[i];
      }
    }
  }

  /** The values of `s` in ascending order. */
  function Sort(s: seq<real>): (r: seq<real>)
    ensures |r| == |s|
    ensures IsSorted(r)
    ensures multiset(r) == multiset(s)
  {
    if s == [] then []
    else
      assert s == [s[0]] + s[1..];
      Insert(s[0], Sort(s[1..]))
  }

  /** The smallest and the largest value of a column are the two ends of its sorted order. */
  lemma SortEnds(s: seq<real>)
    requires |s| > 0
    ensures Sort(s)[0] == Min(s) && Sort(s)[|s| - 1] == Max(s)
  {
    MinMaxAttained(s);
    SortedFirst(Sort(s), s);
    SortedLast(Sort(s), s);
  }

  lemma SortedFirst(v: seq<real>, s: seq<real>)
    requires |s| > 0 && IsSorted(v) && multiset(v) == multiset(s) && Min(s) in s
    ensures |v| > 0 && v[0] == Min(s)
  {
    assert Min(s) in multiset(v);
    var k :| 0 <= k < |v| && v[k] == Min(s);
    assert v[0] in multiset(s);
    var i :| 0 <= i < |s| && s[i] == v[0];
  }

  lemma SortedLast(v: seq<real>, s: seq<real>)
    requires |s| > 0 && IsSorted(v) && multiset(v) == multiset(s) && Max(s) in s
    ensures |v| == |s| && v[|v| - 1] == Max(s)
  {
    assert |v| == |multiset(v)| == |s|;
    assert Max(s) in multiset(v);
    var k :| 0 <= k < |v| && v[k] == Max(s);
    assert v[|v| - 1] in multiset(s);
    var i :| 0 <= i < |s| && s[i] == v[|v| - 1];
  }

  lemma DivPosition(pos: nat, den: nat, m: nat)
    requires 0 < den && pos <= m * den
    ensures pos / den <= m
    ensures pos % den != 0 ==> pos / den < m
  {
    var lo, rem := pos / den, pos % den;
    assert lo * den + rem == pos;
    assert lo * den <= m * den;
    IntMulCancel(lo, m, den);
    if rem != 0 {
      assert lo * den < m * den;
      IntMulCancel(lo + 1, m, den);
    }
  }

  /** Linear interpolation into the ascending sequence `v` at the fractional
      position pos/den (numpy's "linear" method). */
  function Interpolate(v: seq<real>, pos: nat, den: nat): real
    requires |v| > 0 && 0 < den && pos <= (|v| - 1) * den
  {
    DivPosition(pos, den, |v| - 1);
    var lo, rem := pos / den, pos % den;
    if rem == 0 then v[lo]
    else v[lo] + (rem as real / den as real) * (v[lo + 1] - v[lo])
  }

  /** An interpolated value is the entry at the whole part of the position
      when the position is whole, and lies between the two entries it
      interpolates otherwise. */
  lemma InterpolateBetween(v: seq<real>, pos: nat, den: nat)
    requires |v| > 0 && 0 < den && pos <= (|v| - 1) * den
    requires IsSorted(v)
    ensures pos / den < |v| && v[pos / den] <= Interpolate(v, pos, den)
    ensures pos % den == 0 ==> Interpolate(v, pos, den) == v[pos / den]
    ensures pos % den != 0 ==> pos / den + 1 < |v| && Interpolate(v, pos, den) <= v[pos / den + 1]
  {
    DivPosition(pos, den, |v| - 1);
    var lo, rem := pos / den, pos % den;
    if rem != 0 {
      Fraction(rem, den);
      LerpBetween(v[lo], v[lo + 1], rem as real / den as real);
    }
  }

  /** Interpolation into an ascending sequence is monotone in the position. */
  lemma InterpolateMonotone(v: seq<real>, p1: nat, p2: nat, den: nat)
    requires |v| > 0 && 0 < den && p1 <= p2 <= (|v| - 1) * den
    requires IsSorted(v)
    ensures Interpolate(v, p1, den) <= Interpolate(v, p2, den)
  {
    InterpolateBetween(v, p1, den);
    InterpolateBetween(v, p2, den);
    DivMonotone(p1, p2, den);
    var lo1, lo2 := p1 / den, p2 / den;
    if lo1 == lo2 && p1 % den != 0 {
      InterpolateSameCell(v, p1, p2, den);
    } else if lo1 < lo2 {
      assert v[if p1 % den != 0 then lo1 + 1 else lo1] <= v[lo2];
    }
  }

  /** Within one gap between neighbouring entries, interpolation grows with the remainder. */
  lemma InterpolateSameCell(v: seq<real>, p1: nat, p2: nat, den: nat)
    requires |v| > 0 && 0 < den && p1 <= p2 <= (|v| - 1) * den
    requires IsSorted(v)
    requires p1 / den == p2 / den && 0 < p1 % den <= p2 % den
    ensures Interpolate(v, p1, den) <= Interpolate(v, p2, den)
  {
    DivPosition(p2, den, |v| - 1);
    var lo, r1, r2 := p1 / den, p1 % den, p2 % den;
    FractionMonotone(r1, r2, den);
    LerpMonotone(v[lo], v[lo + 1], r1 as real / den as real, r2 as real / den as real);
  }

  lemma PositionBound(n: nat, num: nat, den: nat)
    requires num <= den
    ensures 0 <= n * num <= n * den
  {
  }

  /** The num/den quantile of a non-empty column, interpolating linearly
      between the two nearest order statistics (pandas' default). */
  function Quantile(s: seq<real>, num: nat, den: nat): real
    requires |s| > 0 && 0 < den && num <= den
  {
    PositionBound(|s| - 1, num, den);
    Interpolate(Sort(s), (|s| - 1) * num, den)
  }

  /** Every quantile lies between the column's minimum and maximum. */
  lemma QuantileWithinRange(s: seq<real>, num: nat, den: nat)
    requires |s| > 0 && 0 < den && num <= den
    ensures Min(s) <= Quantile(s, num, den) <= Max(s)
  {
    PositionBound(|s| - 1, num, den);
    SortEnds(s);
    InterpolateWithin(Sort(s), (|s| - 1) * num, den);
  }

  lemma InterpolateWithin(v: seq<real>, pos: nat, den: nat)
    requires |v| > 0 && 0 < den && pos <= (|v| - 1) * den
    requires IsSorted(v)
    ensures v[0] <= Interpolate(v, pos, den) <= v[|v| - 1]
  {
    InterpolateBetween(v, pos, den);
  }

  /** A higher quantile is never below a lower one. */
  lemma QuantileMonotone(s: seq<real>, a: nat, b: nat, den: nat)
    requires |s| > 0 && 0 < den && a <= b <= den
    ensures Quantile(s, a, den) <= Quantile(s, b, den)
  {
    PositionBound(|s| - 1, a, b);
    PositionBound(|s| - 1, b, den);
    InterpolateMonotone(Sort(s), (|s| - 1) * a, (|s| - 1) * b, den);
  }

  function Median(s: seq<real>): real
    requires |s| > 0
  {
    Quantile(s, 1, 2)
  }

  /** The median of an even number of values is the average of the two middle
      values in sorted order; of an odd number, the middle value. */
  lemma MedianMiddle(s: seq<real>)
    requires |s| > 0
    ensures |s| % 2 == 0 ==> Median(s) == (Sort(s)[|s| / 2 - 1] + Sort(s)[|s| / 2]) / 2.0
    ensures |s| % 2 == 1 ==> Median(s) == Sort(s)[|s| / 2]
  {
    var v := Sort(s);
    assert (|s| - 1) * 1 == |v| - 1;
    assert Median(s) == Interpolate(v, |v| - 1, 2);
    InterpolateHalf(v);
  }

  lemma InterpolateHalf(v: seq<real>)
    requires |v| > 0
    ensures |v| % 2 == 0 ==> Interpolate(v, |v| - 1, 2) == (v[|v| / 2 - 1] + v[|v| / 2]) / 2.0
    ensures |v| % 2 == 1 ==> Interpolate(v, |v| - 1, 2) == v[|v| / 2]
  {
    var n := |v|;
    if n % 2 == 0 {
      assert (n - 1) / 2 == n / 2 - 1 && (n - 1) % 2 == 1;
    } else {
      assert (n - 1) / 2 == n / 2 && (n - 1) % 2 == 0;
    }
  }

  /** The median lies between the column's minimum and maximum. */
  lemma MedianWithinRange(s: seq<real>)
    requires |s| > 0
    ensures Min(s) <= Median(s) <= Max(s)
  {
    QuantileWithinRange(s, 1, 2);
  }

  /** A z-score against `col` is defined: pandas' sample standard deviation is
      NaN for fewer than two values and zero for a constant column, and every
      comparison against the resulting NaN is false. */
  predicate HasSpread(col: seq<real>)
  {
    |col| >= 2 && SumSqDev(col, Mean(col)) > 0.0
  }

  /** |z| < thr for the value x against the mean and sample standard deviation
      of `col`, compared in squared form: (x - mean)^2 * (n - 1) < thr^2 * SS. */
  predicate AbsZBelow(x: real, col: seq<real>, thr: real)
  {
    && |col| >= 2 && HasSpread(col) && thr > 0.0
    && Sq(x - Mean(col)) * (|col| - 1) as real < Sq(thr) * SumSqDev(col, Mean(col))
  }

  /** |z| > thr, in the same squared form. */
  predicate AbsZAbove(x: real, col: seq<real>, thr: real)
  {
    && |col| >= 2 && HasSpread(col)
    && (thr < 0.0 || Sq(x - Mean(col)) * (|col| - 1) as real > Sq(thr) * SumSqDev(col, Mean(col)))
  }

  /** |z| == thr exactly, for a non-negative threshold. */
  predicate AbsZEquals(x: real, col: seq<real>, thr: real)
  {
    && |col| >= 2 && HasSpread(col) && thr >= 0.0
    && Sq(x - Mean(col)) * (|col| - 1) as real == Sq(thr) * SumSqDev(col, Mean(col))
  }

  /** The squared forms agree with |x - mean| / sd compared against thr, for
      any positive sd whose square is the sample variance. */
  lemma ZScoreSquaredForm(x: real, col: seq<real>, thr: real, sd: real)
    requires |col| >= 2 && sd > 0.0 && Sq(sd) == SampleVariance(col)
    ensures AbsZBelow(x, col, thr) <==> Abs(x - Mean(col)) / sd < thr
    ensures AbsZAbove(x, col, thr) <==> Abs(x - Mean(col)) / sd > thr
  {
    var m := Mean(col);
    SquaredForm(x - m, (|col| - 1) as real, SumSqDev(col, m), sd, thr);
  }

  /** The squared comparison for a deviation d, n1 = n - 1 and a sum of
      squared deviations ss whose quotient by n1 is sd squared. */
  lemma SquaredForm(d: real, n1: real, ss: real, sd: real, thr: real)
    requires n1 > 0.0 && sd > 0.0 && Sq(sd) == ss / n1
    ensures ss > 0.0
    ensures Abs(d) / sd < thr <==> thr > 0.0 && Sq(d) * n1 < Sq(thr) * ss
    ensures Abs(d) / sd > thr <==> thr < 0.0 || Sq(d) * n1 > Sq(thr) * ss
  {
    VarianceTimesCount(ss, n1, Sq(sd));
    SqPositive(sd);
    MulPositive(Sq(sd), n1);
    assert Sq(Abs(d)) == Sq(d);
    ScaledComparison(Abs(d), sd, thr, n1);
  }

  lemma VarianceTimesCount(ss: real, n1: real, v: real)
    requires n1 > 0.0 && v == ss / n1
    ensures ss == v * n1
  {
  }

  /** d / sd compared with thr, restated on squares scaled by n1. */
  lemma ScaledComparison(d: real, sd: real, thr: real, n1: real)
    requires d >= 0.0 && sd > 0.0 && n1 > 0.0
    ensures d / sd < thr <==> thr > 0.0 && Sq(d) * n1 < Sq(thr) * (Sq(sd) * n1)
    ensures d / sd > thr <==> thr < 0.0 || Sq(d) * n1 > Sq(thr) * (Sq(sd) * n1)
  {
    var z := d / sd;
    assert z * sd == d;
    assert z >= 0.0;
    SquareCompare(z, thr);
    assert Sq(z) * Sq(sd) == Sq(d);
    SqPositive(sd);
    MulPositive(Sq(sd), n1);
    ScaleCompare(Sq(z), Sq(thr), Sq(sd) * n1);
    assert Sq(z) * (Sq(sd) * n1) == Sq(d) * n1;
  }

  lemma SquareCompare(z: real, thr: real)
    requires z >= 0.0
    ensures z < thr <==> thr > 0.0 && Sq(z) < Sq(thr)
    ensures z > thr <==> thr < 0.0 || Sq(z) > Sq(thr)
  {
    if thr >= 0.0 {
      SqLt(z, thr);
      SqLt(thr, z);
    }
  }

  lemma ScaleCompare(a: real, b: real, c: real)
    requires c > 0.0
    ensures a < b <==> a * c < b * c
    ensures a > b <==> a * c > b * c
  {
  }

  /** No value is both below and above the same threshold. */
  lemma ZExclusive(x: real, col: seq<real>, thr: real)
    ensures !(AbsZBelow(x, col, thr) && AbsZAbove(x, col, thr))
    ensures AbsZEquals(x, col, thr) ==> !AbsZBelow(x, col, thr) && !AbsZAbove(x, col, thr)
  {
  }

  // Facts of real and integer arithmetic the solver needs stated on their own.

  lemma SqPositive(x: real)
    requires x != 0.0
    ensures Sq(x) > 0.0
  {
  }

  lemma MulPositive(x: real, y: real)
    requires x > 0.0 && y > 0.0
    ensures x * y > 0.0
  {
  }

  lemma DivBounds(sum: real, n: real, lo: real, hi: real)
    requires n > 0.0 && n * lo <= sum <= n * hi
    ensures lo <= sum / n <= hi
  {
  }

  lemma SqLt(a: real, b: real)
    requires a >= 0.0 && b >= 0.0
    ensures a < b <==> Sq(a) < Sq(b)
  {
    if a < b {
      MulLe(Same(a), b, a);
      MulLt(a, Same(b), b);
    } else {
      MulLe(Same(b), a, b);
      MulLe(b, Same(a), a);
    }
  }

  lemma Whole(n: real)
    requires n > 0.0
    ensures n / n == 1.0
  {
  }

  lemma MulLe(x: real, y: real, z: real)
    requires z >= 0.0 && x <= y
    ensures z * x <= z * y
  {
  }

  lemma MulLt(x: real, y: real, z: real)
    requires z > 0.0 && x < y
    ensures z * x < z * y
  {
  }

  lemma IntMulCancel(a: int, b: int, c: int)
    requires c > 0 && a * c <= b * c
    ensures a <= b
  {
  }

  lemma DivMonotone(p1: nat, p2: nat, d: nat)
    requires d > 0 && p1 <= p2
    ensures p1 / d <= p2 / d
    ensures p1 / d == p2 / d ==> p1 % d <= p2 % d
  {
    QuotientOrder(p1 / d, p1 % d, p2 / d, p2 % d, d);
  }

  /** Quotient and remainder order: q1 * d + r1 <= q2 * d + r2 with both
      remainders below d orders the quotients, then the remainders. */
  lemma QuotientOrder(q1: int, r1: int, q2: int, r2: int, d: int)
    requires d > 0 && 0 <= r1 < d && 0 <= r2 < d
    requires q1 * d + r1 <= q2 * d + r2
    ensures q1 <= q2 && (q1 == q2 ==> r1 <= r2)
  {
    assert (q2 + 1) * d == q2 * d + d;
    IntMulLtCancel(q1, q2 + 1, d);
  }

  lemma IntMulLtCancel(a: int, b: int, c: int)
    requires c > 0 && a * c < b * c
    ensures a < b
  {
  }

  lemma Fraction(r: int, d: int)
    requires 0 <= r < d
    ensures 0.0 <= r as real / d as real < 1.0
  {
    var x, y := r as real, d as real;
    assert x / y * y == x;
  }

  lemma FractionMonotone(r1: int, r2: int, d: int)
    requires 0 <= r1 <= r2 && 0 < d
    ensures r1 as real / d as real <= r2 as real / d as real
  {
  }

  lemma LerpBetween(a: real, b: real, f: real)
    requires a <= b && 0.0 <= f <= 1.0
    ensures a <= a + f * (b - a) <= b
  {
  }

  lemma LerpMonotone(a: real, b: real, f1: real, f2: real)
    requires a <= b && f1 <= f2
    ensures a + f1 * (b - a) <= a + f2 * (b - a)
  {
  }
}

/** The lag-1 Pearson correlation of the latencies in transmission order, computed in one pass by `check_iid`. */
module Pearson {
  import opened Numeric
  import opened Sorting
  import opened Comparators

  /** A double: finite, infinite, or not a number. */
  datatype Double = NotANumber | Infinite(positive: bool) | Finite(value: real)

  function Squares(s: seq<int>): (r: seq<int>)
    ensures |r| == |s| && forall i :: 0 <= i < |s| ==> r[i] == s[i] * s[i]
  {
    seq(|s|, i requires 0 <= i < |s| => s[i] * s[i])
  }

  function Total(s: seq<real>): real {
    if s == [] then 0.0 else Total(s[..|s| - 1]) + s[|s| - 1]
  }

  /** The values measured from `m`. */
  function Centred(s: seq<int>, m: real): (r: seq<real>)
    ensures |r| == |s| && forall i :: 0 <= i < |s| ==> r[i] == s[i] as real - m
  {
    seq(|s|, i requires 0 <= i < |s| => s[i] as real - m)
  }

  function Products(u: seq<real>, v: seq<real>): (r: seq<real>)
    requires |u| == |v|
    ensures |r| == |u| && forall i :: 0 <= i < |u| ==> r[i] == u[i] * v[i]
  {
    seq(|u|, i requires 0 <= i < |u| => u[i] * v[i])
  }

  function Dot(u: seq<real>, v: seq<real>): real
    requires |u| == |v|
  {
    Total(Products(u, v))
  }

  // The two-pass definitions.

  ghost function Mean(s: seq<int>): real
    requires |s| > 0
  {
    Sum(s) as real / |s| as real
  }

  ghost function Covariance(x: seq<int>, y: seq<int>): real
    requires |x| == |y| > 0
  {
    Dot(Centred(x, Mean(x)), Centred(y, Mean(y))) / |x| as real
  }

  ghost function Variance(x: seq<int>): real
    requires |x| > 0
  {
    Covariance(x, x)
  }

  /** The first and the last of the lagged series: all values but the last, all values but the first. */
  ghost function Lead(s: seq<int>): seq<int>
    requires |s| > 0
  {
    s[..|s| - 1]
  }

  ghost function Lag(s: seq<int>): seq<int>
    requires |s| > 0
  {
    s[1..]
  }

  /** `r` is the correlation coefficient of `x` and `y`; undefined when one of them is constant. */
  ghost predicate IsCorrelation(r: Double, x: seq<int>, y: seq<int>)
    requires |x| == |y| > 0
  {
    if Variance(x) > 0.0 && Variance(y) > 0.0 then
      && r.Finite? && -1.0 <= r.value <= 1.0
      && r.value * r.value * (Variance(x) * Variance(y)) == Covariance(x, y) * Covariance(x, y)
      && (0.0 <= r.value <==> 0.0 <= Covariance(x, y))
    else
      r == NotANumber
  }

  // Sums of linear combinations.

  ghost predicate IsCombination(w: seq<real>, a: seq<real>, b: seq<real>, c: seq<real>, j: real, k: real) {
    && |w| == |a| == |b| == |c|
    && forall i :: 0 <= i < |w| ==> w[i] == Combine(a[i], b[i], c[i], j, k)
  }

  ghost function Combine(a: real, b: real, c: real, j: real, k: real): real {
    a + j * b + k * c
  }

  lemma {:induction false} TotalCombines(w: seq<real>, a: seq<real>, b: seq<real>, c: seq<real>, j: real, k: real)
    requires IsCombination(w, a, b, c, j, k)
    ensures Total(w) == Combine(Total(a), Total(b), Total(c), j, k)
  {
    if w != [] {
      var n := |w| - 1;
      TotalCombines(w[..n], a[..n], b[..n], c[..n], j, k);
      CombineStep(Total(a[..n]), Total(b[..n]), Total(c[..n]), a[n], b[n], c[n], j, k);
    }
  }

  lemma CombineStep(a: real, b: real, c: real, x: real, y: real, z: real, j: real, k: real)
    ensures Combine(a, b, c, j, k) + Combine(x, y, z, j, k) == Combine(a + x, b + y, c + z, j, k)
  {
  }

  // Cauchy-Schwarz.

  lemma Square(d: real)
    ensures 0.0 <= d * d
  {
  }

  lemma {:induction false} TotalNonNegative(s: seq<real>)
    requires forall i :: 0 <= i < |s| ==> 0.0 <= s[i]
    ensures 0.0 <= Total(s)
  {
    if s != [] {
      TotalNonNegative(s[..|s| - 1]);
    }
  }

  lemma DotNonNegative(w: seq<real>)
    ensures 0.0 <= Dot(w, w)
  {
    forall i | 0 <= i < |w| ensures 0.0 <= Products(w, w)[i] {
      Square(w[i]);
    }
    TotalNonNegative(Products(w, w));
  }

  /** What remains of `u` after taking away `t` times `v`. */
  ghost function Residual(u: seq<real>, v: seq<real>, t: real): (w: seq<real>)
    requires |u| == |v|
    ensures |w| == |u| && forall i :: 0 <= i < |u| ==> w[i] == u[i] - t * v[i]
  {
    seq(|u|, i requires 0 <= i < |u| => u[i] - t * v[i])
  }

  lemma ResidualSquare(a: real, b: real, t: real)
    ensures (a - t * b) * (a - t * b) == Combine(a * a, a * b, b * b, -2.0 * t, t * t)
  {
  }

  lemma ResidualCombination(u: seq<real>, v: seq<real>, t: real)
    requires |u| == |v|
    ensures var w := Residual(u, v, t);
            IsCombination(Products(w, w), Products(u, u), Products(u, v), Products(v, v), -2.0 * t, t * t)
  {
    var w := Residual(u, v, t);
    var ww, uu, uv, vv := Products(w, w), Products(u, u), Products(u, v), Products(v, v);
    forall i | 0 <= i < |u| ensures ww[i] == Combine(uu[i], uv[i], vv[i], -2.0 * t, t * t) {
      ResidualSquare(u[i], v[i], t);
      assert w[i] == u[i] - t * v[i];
    }
  }

  /** What a non-negative residual says about the three sums for a given `t`. */
  lemma ResidualBound(u: seq<real>, v: seq<real>, t: real)
    requires |u| == |v|
    ensures 0.0 <= Combine(Dot(u, u), Dot(u, v), Dot(v, v), -2.0 * t, t * t)
  {
    hide Combine, IsCombination, Total;
    var w := Residual(u, v, t);
    ResidualCombination(u, v, t);
    TotalCombines(Products(w, w), Products(u, u), Products(u, v), Products(v, v), -2.0 * t, t * t);
    DotNonNegative(w);
  }

  /** (sum of products)^2 <= (sum of squares) * (sum of squares). */
  lemma CauchySchwarz(u: seq<real>, v: seq<real>)
    requires |u| == |v|
    ensures Dot(u, v) * Dot(u, v) <= Dot(u, u) * Dot(v, v)
  {
    var a, c, e := Dot(u, u), Dot(u, v), Dot(v, v);
    DotNonNegative(u);
    DotNonNegative(v);
    if e > 0.0 {
      ResidualBound(u, v, c / e);
      BestSlope(a, c, e, c / e);
    } else if c != 0.0 {
      var t := (a + 1.0) / (2.0 * c);
      TooSteep(a, c, e, t);
      ResidualBound(u, v, t);
    }
  }

  lemma BestSlope(a: real, c: real, e: real, t: real)
    requires e > 0.0 && t == c / e
    requires 0.0 <= Combine(a, c, e, -2.0 * t, t * t)
    ensures c * c <= a * e
  {
    assert t * e == c;
    assert t * t * e == t * c;
    assert 0.0 <= a - t * c;
    Product(a - t * c, e);
    assert (a - t * c) * e == a * e - c * (t * e);
  }

  lemma TooSteep(a: real, c: real, e: real, t: real)
    requires c != 0.0 && t == (a + 1.0) / (2.0 * c) && e == 0.0 && 0.0 <= a
    ensures Combine(a, c, e, -2.0 * t, t * t) < 0.0
  {
    assert t * (2.0 * c) == a + 1.0;
  }

  // One pass against two passes.

  ghost function Reals(s: seq<int>): (r: seq<real>)
    ensures |r| == |s| && forall i :: 0 <= i < |s| ==> r[i] == s[i] as real
  {
    seq(|s|, i requires 0 <= i < |s| => s[i] as real)
  }

  ghost function Ones(n: nat): (r: seq<real>)
    ensures |r| == n && forall i :: 0 <= i < n ==> r[i] == 1.0
  {
    seq(n, _ => 1.0)
  }

  lemma {:induction false} TotalOfReals(s: seq<int>)
    ensures Total(Reals(s)) == Sum(s) as real
    ensures Total(Ones(|s|)) == |s| as real
  {
    if s != [] {
      var n := |s| - 1;
      TotalOfReals(s[..n]);
      assert Reals(s)[..n] == Reals(s[..n]) && Ones(|s|)[..n] == Ones(n);
    }
  }

  lemma CentredSquare(z: int, m: real)
    ensures (z as real - m) * (z as real - m) == Combine((z * z) as real, z as real, 1.0, -2.0 * m, m * m)
  {
    assert (z * z) as real == z as real * z as real;
  }

  lemma CentredCombination(x: seq<int>, m: real)
    ensures var u := Centred(x, m);
            IsCombination(Products(u, u), Reals(Squares(x)), Reals(x), Ones(|x|), -2.0 * m, m * m)
  {
    var u := Centred(x, m);
    var uu, xx, x1, ones := Products(u, u), Reals(Squares(x)), Reals(x), Ones(|x|);
    forall i | 0 <= i < |x| ensures uu[i] == Combine(xx[i], x1[i], ones[i], -2.0 * m, m * m) {
      CentredSquare(x[i], m);
      assert u[i] == x[i] as real - m;
    }
  }

  lemma DotAround(x: seq<int>, m: real)
    ensures var u := Centred(x, m);
            Dot(u, u) == Combine(Sum(Squares(x)) as real, Sum(x) as real, |x| as real, -2.0 * m, m * m)
  {
    hide Combine, IsCombination, Total, Sum;
    var u := Centred(x, m);
    CentredCombination(x, m);
    TotalCombines(Products(u, u), Reals(Squares(x)), Reals(x), Ones(|x|), -2.0 * m, m * m);
    TotalOfReals(Squares(x));
    TotalOfReals(x);
  }

  /** Mean of squares minus square of mean is the variance. */
  lemma OnePassVariance(x: seq<int>)
    requires |x| > 0
    ensures Sum(Squares(x)) as real / |x| as real - Mean(x) * Mean(x) == Variance(x)
  {
    hide Mean, Total, Sum, Dot;
    MeanTimesLength(x);
    OnePassAround(x, Mean(x));
  }

  lemma MeanTimesLength(x: seq<int>)
    requires |x| > 0
    ensures Mean(x) * |x| as real == Sum(x) as real
  {
  }

  lemma OnePassAround(x: seq<int>, m: real)
    requires |x| > 0 && m * |x| as real == Sum(x) as real
    ensures Sum(Squares(x)) as real / |x| as real - m * m == Dot(Centred(x, m), Centred(x, m)) / |x| as real
  {
    hide Combine, Total, Sum, Dot;
    DotAround(x, m);
    OnePassStep(Dot(Centred(x, m), Centred(x, m)), Sum(Squares(x)) as real, Sum(x) as real, |x| as real, m);
  }

  lemma OnePassStep(dot: real, squares: real, sum: real, n: real, m: real)
    requires n > 0.0 && m * n == sum
    requires dot == Combine(squares, sum, n, -2.0 * m, m * m)
    ensures squares / n - m * m == dot / n
  {
    assert -2.0 * m * sum == -2.0 * (n * (m * m));
    DivideDifference(squares, m * m, n);
  }

  lemma DivideDifference(s: real, q: real, n: real)
    requires n > 0.0
    ensures (s - n * q) / n == s / n - q
  {
    assert (s - n * q) / n == s / n - (n * q) / n;
  }

  lemma VarianceNonNegative(x: seq<int>)
    requires |x| > 0
    ensures 0.0 <= Variance(x)
  {
    DotNonNegative(Centred(x, Mean(x)));
  }

  /** The covariance is bounded by the variances. */
  lemma CovarianceBound(x: seq<int>, y: seq<int>)
    requires |x| == |y| > 0
    ensures Covariance(x, y) * Covariance(x, y) <= Variance(x) * Variance(y)
  {
    var u, v := Centred(x, Mean(x)), Centred(y, Mean(y));
    CauchySchwarz(u, v);
    DivideSquares(Dot(u, u), Dot(u, v), Dot(v, v), |x| as real);
  }

  lemma DivideSquares(a: real, c: real, e: real, n: real)
    requires n > 0.0 && c * c <= a * e
    ensures (c / n) * (c / n) <= (a / n) * (e / n)
  {
    var i := 1.0 / n;
    Product(n, i);
    assert c / n == c * i && a / n == a * i && e / n == e * i;
    Square(i);
    ScaleLe(c * c, a * e, i * i);
    assert (c * i) * (c * i) == (c * c) * (i * i);
    assert (a * i) * (e * i) == (a * e) * (i * i);
  }

  /** Dividing the covariance by the product of the deviations gives the correlation coefficient. */
  lemma QuotientIsCorrelation(cov: real, vx: real, vy: real, sx: real, sy: real)
    requires vx > 0.0 && vy > 0.0 && cov * cov <= vx * vy
    requires sx > 0.0 && sy > 0.0 && sx * sx == vx && sy * sy == vy
    ensures sx * sy > 0.0
    ensures var r := cov / (sx * sy);
            -1.0 <= r <= 1.0 && r * r * (vx * vy) == cov * cov && (0.0 <= r <==> 0.0 <= cov)
  {
    Product(sx, sy);
    var d := sx * sy;
    var r := cov / d;
    assert r * d == cov;
    assert d * d == vx * vy by { assert d * d == (sx * sx) * (sy * sy); }
    assert r * r * (d * d) == (r * d) * (r * d);
    if r > 1.0 {
      ScaleLt(1.0, r, d);
      SquareLt(d, cov);
    }
    if r < -1.0 {
      ScaleLt(r, -1.0, d);
      SquareLt(d, -cov);
    }
    if 0.0 <= r {
      Product(r, d);
    } else {
      ScaleLt(r, 0.0, d);
    }
  }

  /** The loop over the samples both lagged series share, in 64-bit arithmetic. */
  method SumsOfMiddle(samples: array<LatSample>, size: nat) returns (sum: nat, squares: nat)
    requires 0 < size <= samples.Length
    ensures size >= 2 ==>
              var mid := Latencies(samples[..size])[1..size - 1];
              sum == ToUint64(Sum(mid)) && squares == ToUint64(Sum(Squares(mid)))
  {
    ghost var lat := Latencies(samples[..size]);
    sum, squares := 0, 0;
    var i := 1;
    while i < size - 1
      invariant 1 <= i && (size >= 2 ==> i <= size - 1)
      invariant size >= 2 ==> sum == ToUint64(Sum(lat[1..i])) && squares == ToUint64(Sum(Squares(lat[1..i])))
    {
      var x := samples[i].nsec;
      SumsStep(lat, i);
      AddWraps(Sum(lat[1..i]), x);
      AddWraps(Sum(Squares(lat[1..i])), x * x);
      sum := ToUint64(sum + x);
      squares := ToUint64(squares + x * x);
      i := i + 1;
    }
  }

  lemma SumsStep(lat: seq<int>, i: nat)
    requires 1 <= i < |lat|
    ensures Sum(lat[1..i + 1]) == Sum(lat[1..i]) + lat[i]
    ensures Sum(Squares(lat[1..i + 1])) == Sum(Squares(lat[1..i])) + lat[i] * lat[i]
  {
    var s := lat[1..i + 1];
    assert s[..i - 1] == lat[1..i];
    assert Squares(s)[..i - 1] == Squares(lat[1..i]);
  }

  /** The covariance loop. */
  method CovarianceLoop(samples: array<LatSample>, size: nat, avgX: real, avgY: real) returns (covSum: real)
    requires 2 <= size <= samples.Length
    ensures var lat := Latencies(samples[..size]);
            covSum == Dot(Centred(Lead(lat), avgX), Centred(Lag(lat), avgY))
  {
    hide Products, Centred, Lead, Lag, Dot;
    ghost var lat := Latencies(samples[..size]);
    assert |Lead(lat)| == |Lag(lat)| == size - 1 by { LagLengths(lat); }
    ghost var p := Products(Centred(Lead(lat), avgX), Centred(Lag(lat), avgY));
    covSum := 0.0;
    for i := 0 to size - 1
      invariant covSum == Total(p[..i])
    {
      assert p[..i + 1][..i] == p[..i];
      CrossTerm(lat, avgX, avgY, i);
      covSum := covSum + (samples[i].nsec as real - avgX) * (samples[i + 1].nsec as real - avgY);
    }
    assert p[..size - 1] == p;
    TotalIsDot(Centred(Lead(lat), avgX), Centred(Lag(lat), avgY));
  }

  lemma LagLengths(lat: seq<int>)
    requires |lat| > 0
    ensures |Lead(lat)| == |Lag(lat)| == |lat| - 1
  {
  }

  lemma TotalIsDot(u: seq<real>, v: seq<real>)
    requires |u| == |v|
    ensures Total(Products(u, v)) == Dot(u, v)
  {
  }

  lemma CrossTerm(lat: seq<int>, avgX: real, avgY: real, i: nat)
    requires i + 1 < |lat|
    ensures |Lead(lat)| == |Lag(lat)| == |lat| - 1
    ensures Products(Centred(Lead(lat), avgX), Centred(Lag(lat), avgY))[i]
         == (lat[i] as real - avgX) * (lat[i + 1] as real - avgY)
  {
    var u, v := Centred(Lead(lat), avgX), Centred(Lag(lat), avgY);
    SameProduct(u[i], v[i], lat[i] as real - avgX, lat[i + 1] as real - avgY);
  }

  lemma SameProduct(a: real, b: real, c: real, d: real)
    requires a == c && b == d
    ensures a * b == c * d
  {
  }

  /** `sqrt` of a double: not a number below zero. */
  function SqrtOf(x: real, sqrt: real -> real): Option<real> {
    if x < 0.0 then None else Some(sqrt(x))
  }

  /** Division of doubles, `sx` and `sy` being absent when they are not numbers. */
  function DivideBy(cov: real, sx: Option<real>, sy: Option<real>): Double {
    if sx.None? || sy.None? then NotANumber
    else
      var d := sx.value * sy.value;
      if d != 0.0 then Finite(cov / d)
      else if cov == 0.0 then NotANumber
      else Infinite(cov > 0.0)
  }

  /** A shared sum plus one end value, over the length of the lagged series. */
  function Average(shared: nat, end: int, n: nat): real
    requires n > 0
  {
    ToUint64(shared + end) as real / n as real
  }

  /** The coefficient from the shared sums and the covariance sum. */
  function Coefficient(sum: nat, squares: nat, first: int, last: int, covSum: real, n: nat, sqrt: real -> real): Double
    requires n > 0
  {
    var avgX, avgY := Average(sum, first, n), Average(sum, last, n);
    var sx := SqrtOf(Average(squares, first * first, n) - avgX * avgX, sqrt);
    var sy := SqrtOf(Average(squares, last * last, n) - avgY * avgY, sqrt);
    DivideBy(covSum / n as real, sx, sy)
  }

  /** What is computed from the latencies in transmission order; a single one gives 0.0 / 0.0, not a number. */
  ghost function ComputedCorrelation(lat: seq<int>, sqrt: real -> real): Double
    requires |lat| > 0
  {
    if |lat| == 1 then NotANumber
    else
      var n, mid := |lat| - 1, lat[1..|lat| - 1];
      var sum, squares := ToUint64(Sum(mid)), ToUint64(Sum(Squares(mid)));
      Coefficient(sum, squares, lat[0], lat[n], CovarianceSum(lat, sum), n, sqrt)
  }

  /** The sum of products around the averages taken from the shared sum. */
  ghost function CovarianceSum(lat: seq<int>, sum: nat): real
    requires |lat| > 1
  {
    var n := |lat| - 1;
    Dot(Centred(Lead(lat), Average(sum, lat[0], n)), Centred(Lag(lat), Average(sum, lat[n], n)))
  }

  /** The computation on the samples in transmission order. */
  method Correlate(samples: array<LatSample>, size: nat, sqrt: real -> real) returns (r: Double)
    requires 0 < size <= samples.Length
    requires IsSqrt(sqrt)
    ensures var lat := Latencies(samples[..size]);
            && r == ComputedCorrelation(lat, sqrt)
            && (size >= 2 && NoOverflow(lat) ==> IsCorrelation(r, Lead(lat), Lag(lat)))
  {
    hide IsCorrelation, Coefficient, Average, NoOverflow;
    var sum, squares := SumsOfMiddle(samples, size);
    if size == 1 {
      return NotANumber;
    }
    var n := size - 1;
    var first, last := samples[0].nsec, samples[n].nsec;
    var covSum := CovarianceLoop(samples, size, Average(sum, first, n), Average(sum, last, n));
    r := Coefficient(sum, squares, first, last, covSum, n, sqrt);
    ghost var lat := Latencies(samples[..size]);
    if NoOverflow(lat) {
      OnePassCorrect(lat, sum, squares, covSum, sqrt);
    }
  }

  /** `check_iid`: sorts by transmission time, then correlates each latency with the next. */
  method CheckIid(samples: array<LatSample>, size: nat, sqrt: real -> real) returns (r: Double)
    requires 0 < size <= samples.Length
    requires IsSqrt(sqrt)
    modifies samples
    ensures samples[..size] == SortBy(old(samples[..size]), SampleCmpTx)
    ensures forall i :: size <= i < samples.Length ==> samples[i] == old(samples[i])
    ensures var lat := Latencies(samples[..size]);
            && r == ComputedCorrelation(lat, sqrt)
            && (size >= 2 && NoOverflow(lat) ==> IsCorrelation(r, Lead(lat), Lag(lat)))
  {
    hide IsCorrelation, NoOverflow, ComputedCorrelation;
    Qsort(samples, 0, size, SampleCmpTx);
    r := Correlate(samples, size, sqrt);
  }

  ghost predicate NonNegative(lat: seq<int>) {
    forall i :: 0 <= i < |lat| ==> 0 <= lat[i]
  }

  /** The sums of squares of both lagged series fit 64 bits. */
  ghost predicate NoOverflow(lat: seq<int>)
    requires |lat| > 0
  {
    NonNegative(lat) && Sum(Squares(Lead(lat))) < TWO_64 && Sum(Squares(Lag(lat))) < TWO_64
  }

  /** The one-pass coefficient is the two-pass correlation of the lagged series. */
  lemma OnePassCorrect(lat: seq<int>, sum: nat, squares: nat, covSum: real, sqrt: real -> real)
    requires |lat| >= 2 && NoOverflow(lat) && IsSqrt(sqrt)
    requires sum == ToUint64(Sum(lat[1..|lat| - 1])) && squares == ToUint64(Sum(Squares(lat[1..|lat| - 1])))
    requires var (first, last, n) := (lat[0], lat[|lat| - 1], |lat| - 1);
             covSum == Dot(Centred(Lead(lat), Average(sum, first, n)), Centred(Lag(lat), Average(sum, last, n)))
    ensures IsCorrelation(Coefficient(sum, squares, lat[0], lat[|lat| - 1], covSum, |lat| - 1, sqrt),
                          Lead(lat), Lag(lat))
  {
    hide Average, Mean, Variance, IsCorrelation, DivideBy, SqrtOf, Sum, Dot, NoOverflow, Lead, Lag, Coefficient;
    var x, y, n := Lead(lat), Lag(lat), |lat| - 1;
    AveragesAreMeans(lat, sum, squares);
    assert covSum / n as real == Covariance(x, y);
    CoefficientIs(sum, squares, lat[0], lat[n], covSum, n, sqrt, Variance(x), Variance(y));
    QuotientCorrect(x, y, Covariance(x, y), SqrtOf(Variance(x), sqrt), SqrtOf(Variance(y), sqrt), sqrt);
  }

  lemma CoefficientIs(sum: nat, squares: nat, first: int, last: int, covSum: real, n: nat, sqrt: real -> real,
                      vx: real, vy: real)
    requires n > 0
    requires vx == Average(squares, first * first, n) - Average(sum, first, n) * Average(sum, first, n)
    requires vy == Average(squares, last * last, n) - Average(sum, last, n) * Average(sum, last, n)
    ensures Coefficient(sum, squares, first, last, covSum, n, sqrt)
         == DivideBy(covSum / n as real, SqrtOf(vx, sqrt), SqrtOf(vy, sqrt))
  {
    hide Average, DivideBy, SqrtOf;
  }

  lemma AveragesAreMeans(lat: seq<int>, sum: nat, squares: nat)
    requires |lat| >= 2 && NoOverflow(lat)
    requires sum == ToUint64(Sum(lat[1..|lat| - 1])) && squares == ToUint64(Sum(Squares(lat[1..|lat| - 1])))
    ensures var (first, last, n, x, y) := (lat[0], lat[|lat| - 1], |lat| - 1, Lead(lat), Lag(lat));
            && |x| == |y| == n
            && Average(sum, first, n) == Mean(x) && Average(sum, last, n) == Mean(y)
            && Average(squares, first * first, n) - Average(sum, first, n) * Average(sum, first, n) == Variance(x)
            && Average(squares, last * last, n) - Average(sum, last, n) * Average(sum, last, n) == Variance(y)
  {
    hide Sum, NoOverflow, Variance, ToUint64, Squares;
    SharedSums(lat, sum, squares);
    OnePassVariance(Lead(lat));
    OnePassVariance(Lag(lat));
  }

  lemma QuotientCorrect(x: seq<int>, y: seq<int>, cov: real, sx: Option<real>, sy: Option<real>, sqrt: real -> real)
    requires |x| == |y| > 0 && IsSqrt(sqrt)
    requires cov == Covariance(x, y) && sx == SqrtOf(Variance(x), sqrt) && sy == SqrtOf(Variance(y), sqrt)
    ensures IsCorrelation(DivideBy(cov, sx, sy), x, y)
  {
    var vx, vy := Variance(x), Variance(y);
    VarianceNonNegative(x);
    VarianceNonNegative(y);
    CovarianceBound(x, y);
    assert RootAt(sqrt, vx) && RootAt(sqrt, vy);
    if vx > 0.0 && vy > 0.0 {
      QuotientIsCorrelation(cov, vx, vy, sx.value, sy.value);
    } else {
      ZeroProduct(vx, vy, sx.value, sy.value, cov);
    }
  }

  lemma ZeroProduct(vx: real, vy: real, sx: real, sy: real, cov: real)
    requires vx == 0.0 || vy == 0.0
    requires sx * sx == vx && sy * sy == vy && cov * cov <= vx * vy
    ensures sx * sy == 0.0 && cov == 0.0
  {
    ZeroSquare(cov);
    if vx == 0.0 {
      ZeroSquare(sx);
    } else {
      ZeroSquare(sy);
    }
  }

  lemma ZeroSquare(d: real)
    requires d * d <= 0.0
    ensures d == 0.0
  {
    SquareLt(0.0, if d < 0.0 then -d else if d > 0.0 then d else 1.0);
  }

  /** The shared sums plus one end value are the sums of the two lagged series, wrapped around. */
  lemma SharedSumsWrap(lat: seq<int>, sum: nat, squares: nat)
    requires |lat| >= 2
    requires sum == ToUint64(Sum(lat[1..|lat| - 1])) && squares == ToUint64(Sum(Squares(lat[1..|lat| - 1])))
    ensures var (first, last) := (lat[0], lat[|lat| - 1]);
            && ToUint64(sum + first) == ToUint64(Sum(Lead(lat))) && ToUint64(sum + last) == ToUint64(Sum(Lag(lat)))
            && ToUint64(squares + first * first) == ToUint64(Sum(Squares(Lead(lat))))
            && ToUint64(squares + last * last) == ToUint64(Sum(Squares(Lag(lat))))
  {
    hide Sum, ToUint64;
    var n := |lat| - 1;
    var mid, sq := lat[1..n], Squares(lat);
    SplitEnds(lat);
    SplitEnds(sq);
    assert sq[1..n] == Squares(mid) && sq[..n] == Squares(Lead(lat)) && sq[1..] == Squares(Lag(lat));
    AddWraps(Sum(mid), lat[0]);
    AddWraps(Sum(mid), lat[n]);
    AddWraps(Sum(Squares(mid)), sq[0]);
    AddWraps(Sum(Squares(mid)), sq[n]);
  }

  /** Without overflow nothing wraps around. */
  lemma SharedSums(lat: seq<int>, sum: nat, squares: nat)
    requires |lat| >= 2 && NoOverflow(lat)
    requires sum == ToUint64(Sum(lat[1..|lat| - 1])) && squares == ToUint64(Sum(Squares(lat[1..|lat| - 1])))
    ensures var (first, last) := (lat[0], lat[|lat| - 1]);
            && ToUint64(sum + first) == Sum(Lead(lat)) && ToUint64(sum + last) == Sum(Lag(lat))
            && ToUint64(squares + first * first) == Sum(Squares(Lead(lat)))
            && ToUint64(squares + last * last) == Sum(Squares(Lag(lat)))
  {
    hide Sum;
    SharedSumsWrap(lat, sum, squares);
    SumsOrdered(Lead(lat));
    SumsOrdered(Lag(lat));
  }

  /** The variance of one lagged series as `check_iid` computes it. */
  function ComputedVariance(sum: nat, squares: nat, end: int, n: nat): real
    requires n > 0
  {
    Average(squares, end * end, n) - Average(sum, end, n) * Average(sum, end, n)
  }

  lemma ComputedVarianceIff(x: seq<int>, sum: nat, squares: nat, end: int)
    requires |x| > 0 && NonNegative(x) && Sum(x) < TWO_64
    requires ToUint64(sum + end) == ToUint64(Sum(x)) && ToUint64(squares + end * end) == ToUint64(Sum(Squares(x)))
    ensures ComputedVariance(sum, squares, end, |x|) == Variance(x) <==> Sum(Squares(x)) < TWO_64
  {
    hide Variance, Sum;
    var n, q := |x| as real, Sum(Squares(x));
    SumsOrdered(x);
    OnePassVariance(x);
    WrappedQuotient(q, n);
    assert Average(sum, end, |x|) == Mean(x);
    assert Average(squares, end * end, |x|) == ToUint64(q) as real / n;
  }

  lemma WrappedQuotient(q: nat, n: real)
    requires n > 0.0
    ensures ToUint64(q) as real / n == q as real / n <==> q < TWO_64
  {
    var u, v := ToUint64(q) as real / n, q as real / n;
    assert u * n == ToUint64(q) as real && v * n == q as real;
    assert ToUint64(q) < TWO_64;
  }

  /** The computed variances are those of the two series exactly when both sums of squares fit 64 bits. */
  lemma VariancesRightIff(lat: seq<int>, sum: nat, squares: nat)
    requires |lat| >= 2 && NonNegative(lat) && Sum(Lead(lat)) < TWO_64 && Sum(Lag(lat)) < TWO_64
    requires sum == ToUint64(Sum(lat[1..|lat| - 1])) && squares == ToUint64(Sum(Squares(lat[1..|lat| - 1])))
    ensures var n := |lat| - 1;
            && |Lead(lat)| == |Lag(lat)| == n
            && ((ComputedVariance(sum, squares, lat[0], n) == Variance(Lead(lat))
                 && ComputedVariance(sum, squares, lat[n], n) == Variance(Lag(lat))) <==> NoOverflow(lat))
  {
    hide Sum, Variance, ComputedVariance;
    SharedSumsWrap(lat, sum, squares);
    ComputedVarianceIff(Lead(lat), sum, squares, lat[0]);
    ComputedVarianceIff(Lag(lat), sum, squares, lat[|lat| - 1]);
  }

  /** A computed variance that has become negative makes the coefficient not a number. */
  lemma NegativeVariance(lat: seq<int>, sum: nat, squares: nat, sqrt: real -> real)
    requires |lat| >= 2
    requires sum == ToUint64(Sum(lat[1..|lat| - 1])) && squares == ToUint64(Sum(Squares(lat[1..|lat| - 1])))
    requires ComputedVariance(sum, squares, lat[0], |lat| - 1) < 0.0
    ensures ComputedCorrelation(lat, sqrt) == NotANumber
  {
    hide Sum, Squares, Average, CovarianceSum;
  }

  /** Both lagged series share the middle. */
  lemma SplitEnds(s: seq<int>)
    requires |s| >= 2
    ensures var (n, mid) := (|s| - 1, Sum(s[1..|s| - 1]));
            && Sum(s[..n]) == mid + s[0] && Sum(s[1..]) == mid + s[n] && Sum(s) == mid + s[0] + s[n]
  {
    var n := |s| - 1;
    hide Sum;
    PrependSum(s[..n]);
    PrependSum(s);
    SumLast(s[1..]);
    assert s[..n][1..] == s[1..n] == s[1..][..n - 1];
  }

  lemma SumLast(s: seq<int>)
    requires s != []
    ensures Sum(s) == Sum(s[..|s| - 1]) + s[|s| - 1]
  {
  }

  lemma SquareAtLeast(x: nat)
    ensures x <= x * x
  {
  }

  lemma {:induction false} PrependSum(s: seq<int>)
    requires s != []
    ensures Sum(s) == s[0] + Sum(s[1..])
  {
    if |s| > 1 {
      PrependSum(s[..|s| - 1]);
      assert s[..|s| - 1][1..] == s[1..][..|s| - 2];
    }
  }

  lemma {:induction false} SumsOrdered(s: seq<int>)
    requires forall i :: 0 <= i < |s| ==> 0 <= s[i]
    ensures 0 <= Sum(s) <= Sum(Squares(s))
  {
    if s != [] {
      var n := |s| - 1;
      SumsOrdered(s[..n]);
      assert Squares(s)[..n] == Squares(s[..n]);
      SquareAtLeast(s[n]);
    }
  }
}

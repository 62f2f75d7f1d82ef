/** Latency percentiles with the order-statistic confidence bounds of `get_ci_bounds`. */
module Percentiles {
  import opened Numeric
  import opened Sorting
  import opened Comparators
  import opened KsStatistic

  /** Positions of the bounds in the sorted samples; a negative `i` is undefined in C. */
  datatype CiIdx = CiIdx(i: int, k: int)

  const HETA := 1.96

  function GetCiBounds(n: nat, p: real, sqrt: real -> real): CiIdx {
    var prod := n as real * p;
    var sq := HETA * sqrt(prod * (1.0 - p));
    IndexesAround(prod, sq)
  }

  function IndexesAround(prod: real, sq: real): CiIdx {
    CiIdx((prod - sq).Floor, Ceil(prod + sq) + 1)
  }

  /** `x` lies at least 1.96 standard deviations below `mean`, told by the variance `v`. */
  ghost predicate FarBelow(x: int, mean: real, v: real) {
    var d := mean - x as real;
    0.0 <= d && 3.8416 * v <= d * d
  }

  /** `x` lies at least 1.96 standard deviations above `mean`. */
  ghost predicate FarAbove(x: int, mean: real, v: real) {
    var d := x as real - mean;
    0.0 <= d && 3.8416 * v <= d * d
  }

  lemma CompareHalfWidth(s: real, v: real, y: real)
    requires 0.0 <= s && s * s == v && 0.0 <= y
    ensures HETA * s <= y <==> 3.8416 * v <= y * y
  {
    assert (HETA * s) * (HETA * s) == 3.8416 * v;
    SquareOrder(HETA * s, y);
  }

  /** Where the two positions lie, without the square root `s` of `v`. */
  lemma PositionsIff(prod: real, v: real, s: real, lo: int, limit: int)
    requires 0.0 <= s && s * s == v
    ensures var b := IndexesAround(prod, HETA * s);
            && b.i <= prod.Floor < b.k
            && (lo <= b.i <==> FarBelow(lo, prod, v))
            && (b.k < limit <==> FarAbove(limit - 2, prod, v))
  {
    var d, e := prod - lo as real, (limit - 2) as real - prod;
    if 0.0 <= d {
      CompareHalfWidth(s, v, d);
    }
    if 0.0 <= e {
      CompareHalfWidth(s, v, e);
    }
    FloorCeil(prod, HETA * s, lo, limit);
  }

  lemma PositionsWithRoot(prod: real, v: real, sqrt: real -> real, lo: int, limit: int)
    requires IsSqrt(sqrt) && 0.0 <= v
    ensures var b := IndexesAround(prod, HETA * sqrt(v));
            && b.i <= prod.Floor < b.k
            && (lo <= b.i <==> FarBelow(lo, prod, v))
            && (b.k < limit <==> FarAbove(limit - 2, prod, v))
  {
    assert RootAt(sqrt, v);
    PositionsIff(prod, v, sqrt(v), lo, limit);
  }

  lemma FloorCeil(prod: real, sq: real, lo: int, limit: int)
    requires 0.0 <= sq
    ensures var b := IndexesAround(prod, sq);
            && b.i <= prod.Floor < b.k
            && (lo <= b.i <==> sq <= prod - lo as real)
            && (b.k < limit <==> sq <= (limit - 2) as real - prod)
  {
  }

  /** All positions read for percentile `pct` lie within the `n` samples. */
  ghost predicate InRange(n: nat, pct: nat, sqrt: real -> real) {
    var b := GetCiBounds(n, pct as real / 100.0, sqrt);
    0 <= b.i && b.k < n
  }

  /** Mean and variance of the number of samples below percentile `pct`. */
  ghost function Mean(n: nat, pct: nat): real {
    n as real * (if pct == 50 then 0.5 else if pct == 90 then 0.9 else if pct == 95 then 0.95 else 0.99)
  }

  ghost function Variance(n: nat, pct: nat): real {
    n as real * (if pct == 50 then 0.25 else if pct == 90 then 0.09 else if pct == 95 then 0.0475 else 0.0099)
  }

  lemma BoundsAroundMean(n: nat, pct: nat, sqrt: real -> real)
    requires pct in {50, 90, 95, 99}
    ensures GetCiBounds(n, pct as real / 100.0, sqrt) == IndexesAround(Mean(n, pct), HETA * sqrt(Variance(n, pct)))
  {
    var p := pct as real / 100.0;
    if pct == 50 {
      assert p == 0.5;
    } else if pct == 90 {
      assert p == 0.9;
    } else if pct == 95 {
      assert p == 0.95;
    } else {
      assert p == 0.99;
    }
    Variances(n as real);
  }

  lemma Variances(x: real)
    ensures x * 0.5 * (1.0 - 0.5) == x * 0.25 && x * 0.9 * (1.0 - 0.9) == x * 0.09
    ensures x * 0.95 * (1.0 - 0.95) == x * 0.0475 && x * 0.99 * (1.0 - 0.99) == x * 0.0099
  {
  }

  /** The lower position is the last one 1.96 deviations below the mean, the upper one follows the first above it. */
  lemma BoundsIff(n: nat, pct: nat, sqrt: real -> real, lo: int, limit: int)
    requires IsSqrt(sqrt) && pct in {50, 90, 95, 99}
    ensures var b := GetCiBounds(n, pct as real / 100.0, sqrt);
            && b.i <= n * pct / 100 < b.k
            && (lo <= b.i <==> FarBelow(lo, Mean(n, pct), Variance(n, pct)))
            && (b.k < limit <==> FarAbove(limit - 2, Mean(n, pct), Variance(n, pct)))
  {
    BoundsAroundMean(n, pct, sqrt);
    PositionsWithRoot(Mean(n, pct), Variance(n, pct), sqrt, lo, limit);
    assert Mean(n, pct).Floor == n * pct / 100;
  }

  /** Of a thousand samples the median lies between positions 469 and 532, the 99th percentile between 983 and 998. */
  lemma BoundsOfThousand(sqrt: real -> real)
    requires IsSqrt(sqrt)
    ensures GetCiBounds(1000, 0.5, sqrt) == CiIdx(469, 532)
    ensures GetCiBounds(1000, 0.99, sqrt) == CiIdx(983, 998)
  {
    hide GetCiBounds;
    BoundsIff(1000, 50, sqrt, 469, 532);
    BoundsIff(1000, 50, sqrt, 470, 533);
    BoundsIff(1000, 99, sqrt, 983, 998);
    BoundsIff(1000, 99, sqrt, 984, 999);
  }

  /** There is room above for p = 0.99 from 726 samples on, and not before. */
  lemma FarAbove99Iff(n: nat)
    ensures FarAbove(n - 2, Mean(n, 99), Variance(n, 99)) <==> n >= 726
  {
    var r := n as real;
    var y := 0.01 * r - 2.0;
    assert y * y == 0.0001 * (r * r) - 0.04 * r + 4.0;
    if n >= 726 {
      var d := r - 726.0;
      Product(d, d);
      assert r * r == d * d + 1452.0 * d + 527076.0;
    } else if n >= 200 {
      var e := 725.0 - r;
      Product(e, 525.0 - e);
      assert e * (525.0 - e) == 525.0 * e - e * e;
      assert r * r == e * e - 1450.0 * e + 525625.0;
    }
  }

  lemma FarAboveLower(n: nat, pct: nat)
    requires n >= 726 && pct in {50, 90, 95}
    ensures FarAbove(n - 2, Mean(n, pct), Variance(n, pct))
  {
    var r := n as real;
    var d := r - 726.0;
    Product(d, d);
    assert r * r == d * d + 1452.0 * d + 527076.0;
    if pct == 50 {
      assert (r * 0.5 - 2.0) * (r * 0.5 - 2.0) == 0.25 * (r * r) - 2.0 * r + 4.0;
    } else if pct == 90 {
      assert (r * 0.1 - 2.0) * (r * 0.1 - 2.0) == 0.01 * (r * r) - 0.4 * r + 4.0;
    } else {
      assert (r * 0.05 - 2.0) * (r * 0.05 - 2.0) == 0.0025 * (r * r) - 0.2 * r + 4.0;
    }
  }

  /** The lower index is a valid position from 4 samples on for the median, always for the others. */
  lemma FarBelowIff(n: nat, pct: nat)
    requires n > 0 && pct in {50, 90, 95, 99}
    ensures FarBelow(0, Mean(n, pct), Variance(n, pct)) <==> n >= 4 || pct != 50
  {
    var r := n as real;
    if n >= 4 {
      ScaleLe(4.0, r, r);
    } else {
      assert n in {1, 2, 3};
      assert r * r in {1.0, 4.0, 9.0};
    }
    if pct == 50 {
      assert (r * 0.5) * (r * 0.5) == 0.25 * (r * r);
    } else if pct == 90 {
      assert (r * 0.9) * (r * 0.9) == 0.81 * (r * r);
    } else if pct == 95 {
      assert (r * 0.95) * (r * 0.95) == 0.9025 * (r * r);
    } else {
      assert (r * 0.99) * (r * 0.99) == 0.9801 * (r * r);
    }
  }

  lemma InRangeFrom726(n: nat, pct: nat, sqrt: real -> real)
    requires IsSqrt(sqrt) && n > 0 && pct in {50, 90, 95, 99}
    ensures n >= 726 ==> InRange(n, pct, sqrt)
    ensures pct == 99 && InRange(n, pct, sqrt) ==> n >= 726
  {
    BoundsIff(n, pct, sqrt, 0, n);
    FarBelowIff(n, pct);
    FarAbove99Iff(n);
    if n >= 726 && pct != 99 {
      FarAboveLower(n, pct);
    }
  }

  /** Every index used for the four percentiles is valid if and only if there are at least 726 samples. */
  lemma AllBoundsInRangeIff(n: nat, sqrt: real -> real)
    requires IsSqrt(sqrt) && n > 0
    ensures InRange(n, 50, sqrt) && InRange(n, 90, sqrt) && InRange(n, 95, sqrt) && InRange(n, 99, sqrt)
            <==> n >= 726
  {
    InRangeFrom726(n, 50, sqrt);
    InRangeFrom726(n, 90, sqrt);
    InRangeFrom726(n, 95, sqrt);
    InRangeFrom726(n, 99, sqrt);
  }

  /** A percentile with its confidence bounds. */
  datatype Estimate = Estimate(low: int, mid: int, high: int) {
    predicate Brackets() {
      low <= mid <= high
    }
  }

  datatype Summary = Summary(avg: int, p50: Estimate, p90: Estimate, p95: Estimate, p99: Estimate)

  /** The confidence bounds of the four percentiles. */
  datatype Positions = Positions(b50: CiIdx, b90: CiIdx, b95: CiIdx, b99: CiIdx)

  function PositionsFor(n: nat, sqrt: real -> real): Positions {
    Positions(GetCiBounds(n, 0.50, sqrt), GetCiBounds(n, 0.90, sqrt),
              GetCiBounds(n, 0.95, sqrt), GetCiBounds(n, 0.99, sqrt))
  }

  /** The three positions read for one percentile lie in a buffer of `slots` samples. */
  predicate Defined(b: CiIdx, idx: nat, slots: nat) {
    idx < slots && 0 <= b.i < slots && 0 <= b.k < slots
  }

  /** The computation passes its assertion and reads only slots of the buffer. */
  predicate Summarises(size: nat, slots: nat, sqrt: real -> real) {
    var ps := PositionsFor(size, sqrt);
    && size > 0
    && Defined(ps.b50, size * 50 / 100, slots) && Defined(ps.b90, size * 90 / 100, slots)
    && Defined(ps.b95, size * 95 / 100, slots) && Defined(ps.b99, size * 99 / 100, slots)
  }

  /** The three reads for one percentile; absent when an index leaves the buffer. */
  function EstimateAt(buf: seq<int>, idx: nat, b: CiIdx): Option<Estimate> {
    if Defined(b, idx, |buf|) then Some(Estimate(buf[b.i], buf[idx], buf[b.k])) else None
  }

  /** The summary of a buffer whose first `size` latencies are sorted. */
  function Summarise(buf: seq<int>, size: nat, ps: Positions): Option<Summary>
    requires size <= |buf|
  {
    if size == 0 then None
    else
      var e50, e90 := EstimateAt(buf, size * 50 / 100, ps.b50), EstimateAt(buf, size * 90 / 100, ps.b90);
      var e95, e99 := EstimateAt(buf, size * 95 / 100, ps.b95), EstimateAt(buf, size * 99 / 100, ps.b99);
      if e50.None? || e90.None? || e95.None? || e99.None? then None
      else Some(Summary(ToUint64(Sum(buf[..size])) / size, e50.value, e90.value, e95.value, e99.value))
  }

  lemma SortGivesSortedPrefix(before: seq<LatSample>, after: seq<LatSample>, size: nat)
    requires size <= |after| && after[..size] == SortBy(before, SampleCmpLatency)
    ensures Narrow(Latencies(before)) ==> SortedPrefix(Latencies(after), size)
  {
    hide SortBy, SampleCmpLatency, Narrow;
    if Narrow(Latencies(before)) {
      SampleCmpLatencySorts(before);
      assert forall i :: 0 <= i < size ==> after[i] == after[..size][i];
    }
  }

  /** `compute_latency_percentiles_ci`: no result if the assertion on `size` fails or an index is undefined. */
  method ComputePercentilesCi(samples: array<LatSample>, size: nat, sqrt: real -> real) returns (r: Option<Summary>)
    requires size <= samples.Length
    modifies samples
    ensures samples[..size] == SortBy(old(samples[..size]), SampleCmpLatency)
    ensures forall i :: size <= i < samples.Length ==> samples[i] == old(samples[i])
    ensures Narrow(Latencies(old(samples[..size]))) ==> SortedPrefix(Latencies(samples[..]), size)
    ensures r == Summarise(Latencies(samples[..]), size, PositionsFor(size, sqrt))
  {
    ghost var before := samples[..size];
    Qsort(samples, 0, size, SampleCmpLatency);
    SortGivesSortedPrefix(before, samples[..], size);
    var sum := SumLatencies(samples, size);
    if size == 0 {
      return None;
    }
    var lat, ps := Latencies(samples[..]), PositionsFor(size, sqrt);
    var avg := sum / size;
    var e50 := EstimateAt(lat, size * 50 / 100, ps.b50);
    var e90 := EstimateAt(lat, size * 90 / 100, ps.b90);
    var e95 := EstimateAt(lat, size * 95 / 100, ps.b95);
    var e99 := EstimateAt(lat, size * 99 / 100, ps.b99);
    if e50.None? || e90.None? || e95.None? || e99.None? {
      return None;
    }
    r := Some(Summary(avg, e50.value, e90.value, e95.value, e99.value));
  }

  /** The summation loop, in 64-bit arithmetic. */
  method SumLatencies(samples: array<LatSample>, size: nat) returns (sum: nat)
    requires size <= samples.Length
    ensures sum == ToUint64(Sum(Latencies(samples[..])[..size]))
  {
    ghost var lat := Latencies(samples[..]);
    sum := 0;
    for i := 0 to size
      invariant sum == ToUint64(Sum(lat[..i]))
    {
      assert lat[..i + 1][..i] == lat[..i];
      AddWraps(Sum(lat[..i]), samples[i].nsec);
      sum := ToUint64(sum + samples[i].nsec);
    }
  }

  /** `v` is the value at position `k` of the sorted values, told without sorting them. */
  ghost predicate HasRank(s: seq<int>, k: int, v: int) {
    CountLe(s, v - 1) <= k < CountLe(s, v)
  }

  /** The rank determines the value, whatever the order of the samples. */
  lemma RankDeterminesValue(s: seq<int>, t: seq<int>, k: int, v: int, w: int)
    requires multiset(s) == multiset(t)
    requires HasRank(s, k, v) && HasRank(t, k, w)
    ensures v == w
  {
    CountLePermutation(s, t, w);
    CountLePermutation(s, t, w - 1);
    if v < w {
      CountLeMonotone(s, v, w - 1);
    } else if w < v {
      CountLeMonotone(s, w, v - 1);
    }
  }

  lemma {:induction false} CountLeAtMost(s: seq<int>, v: int, k: nat)
    requires k <= |s|
    requires forall i :: k <= i < |s| ==> v < s[i]
    ensures CountLe(s, v) <= k
  {
    if s != [] {
      CountLeAtMost(s[1..], v, if k == 0 then 0 else k - 1);
    }
  }

  ghost predicate SortedPrefix(buf: seq<int>, size: nat) {
    size <= |buf| && forall i, j :: 0 <= i < j < size ==> buf[i] <= buf[j]
  }

  lemma SortedHasRank(buf: seq<int>, size: nat, k: nat)
    requires SortedPrefix(buf, size) && k < size
    ensures HasRank(buf[..size], k, buf[k])
  {
    CountLeAtLeast(buf[..size], buf[k], k + 1);
    CountLeAtMost(buf[..size], buf[k] - 1, k);
  }

  lemma {:induction false} SumBetween(s: seq<int>, lo: int, hi: int)
    requires forall i :: 0 <= i < |s| ==> lo <= s[i] <= hi
    ensures |s| * lo <= Sum(s) <= |s| * hi
  {
    if s != [] {
      SumBetween(s[..|s| - 1], lo, hi);
      assert |s| * lo == (|s| - 1) * lo + lo && |s| * hi == (|s| - 1) * hi + hi;
    } else {
      assert |s| * lo == 0 && |s| * hi == 0;
    }
  }

  lemma MeanBetween(s: seq<int>, lo: int, hi: int)
    requires |s| > 0 && 0 <= lo <= hi && Sum(s) < TWO_64
    requires forall i :: 0 <= i < |s| ==> lo <= s[i] <= hi
    ensures lo <= ToUint64(Sum(s)) / |s| <= hi
  {
    SumBetween(s, lo, hi);
    assert 0 <= |s| * lo;
    DivBetween(Sum(s), |s|, lo, hi);
  }

  ghost predicate ValidFor(b: CiIdx, idx: int, size: int) {
    0 <= b.i <= idx < b.k < size
  }

  /** With valid positions, sorted samples give an estimate within its bounds. */
  lemma EstimateSound(buf: seq<int>, size: nat, idx: nat, b: CiIdx)
    requires SortedPrefix(buf, size) && ValidFor(b, idx, size)
    ensures var e := EstimateAt(buf, idx, b);
            e.Some? && e.value.Brackets() && e.value.mid == buf[idx]
  {
  }

  ghost predicate LowerPosition(i: int, n: nat, pct: nat) {
    FarBelow(i, Mean(n, pct), Variance(n, pct)) && !FarBelow(i + 1, Mean(n, pct), Variance(n, pct))
  }

  ghost predicate UpperPosition(k: int, n: nat, pct: nat) {
    FarAbove(k - 1, Mean(n, pct), Variance(n, pct)) && !FarAbove(k - 2, Mean(n, pct), Variance(n, pct))
  }

  /**
   The percentile of `all` and its bounds have their ranks, in whatever order the samples are listed; an upper
   position past the samples reads a cleared slot.
   */
  ghost predicate EstimateOf(e: Estimate, all: seq<int>, pct: nat) {
    var n := |all|;
    && HasRank(all, n * pct / 100, e.mid)
    && exists i, k :: LowerPosition(i, n, pct) && UpperPosition(k, n, pct)
                      && HasRank(all, i, e.low) && if k < n then HasRank(all, k, e.high) else e.high == 0
  }

  /** The four percentiles of `all` with their bounds. */
  ghost predicate EstimatesOf(r: Summary, all: seq<int>) {
    && EstimateOf(r.p50, all, 50) && EstimateOf(r.p90, all, 90) && EstimateOf(r.p95, all, 95)
    && EstimateOf(r.p99, all, 99)
  }

  lemma PositionsAre(n: nat, pct: nat, sqrt: real -> real)
    requires IsSqrt(sqrt) && pct in {50, 90, 95, 99}
    ensures var b := GetCiBounds(n, pct as real / 100.0, sqrt); LowerPosition(b.i, n, pct) && UpperPosition(b.k, n, pct)
  {
    hide GetCiBounds, FarBelow, FarAbove;
    var b := GetCiBounds(n, pct as real / 100.0, sqrt);
    BoundsIff(n, pct, sqrt, b.i, b.k);
    BoundsIff(n, pct, sqrt, b.i + 1, b.k + 1);
  }

  /** The reads from a sorted buffer that is zero past the samples, or deep enough in them. */
  lemma EstimateIs(buf: seq<int>, size: nat, pct: nat, sqrt: real -> real)
    requires IsSqrt(sqrt) && pct in {50, 90, 95, 99} && 0 < size <= |buf| && SortedPrefix(buf, size)
    requires var b := GetCiBounds(size, pct as real / 100.0, sqrt);
             Defined(b, size * pct / 100, |buf|) && b.i < size && (size <= b.k ==> buf[b.k] == 0)
    ensures var e := EstimateAt(buf, size * pct / 100, GetCiBounds(size, pct as real / 100.0, sqrt));
            e.Some? && EstimateOf(e.value, buf[..size], pct)
  {
    hide GetCiBounds, HasRank, SortedPrefix, LowerPosition, UpperPosition;
    var b := GetCiBounds(size, pct as real / 100.0, sqrt);
    PositionsAre(size, pct, sqrt);
    PercentileWithin(size, pct);
    SortedHasRank(buf, size, size * pct / 100);
    SortedHasRank(buf, size, b.i);
    if b.k < size {
      SortedHasRank(buf, size, b.k);
    }
  }

  lemma PercentileWithin(size: nat, pct: nat)
    requires size > 0 && pct < 100
    ensures size * pct / 100 < size
  {
    ScaleBelow(size, pct);
  }

  lemma ScaleBelow(size: nat, pct: nat)
    requires size > 0 && pct < 100
    ensures size * pct < size * 100
  {
  }

  ghost predicate AllValid(ps: Positions, size: int) {
    && ValidFor(ps.b50, size * 50 / 100, size) && ValidFor(ps.b90, size * 90 / 100, size)
    && ValidFor(ps.b95, size * 95 / 100, size) && ValidFor(ps.b99, size * 99 / 100, size)
  }

  lemma PositionsValidFrom726(size: nat, sqrt: real -> real)
    requires IsSqrt(sqrt) && size > 0
    ensures size >= 726 <==> AllValid(PositionsFor(size, sqrt), size)
  {
    BoundsIff(size, 50, sqrt, 0, size);
    BoundsIff(size, 90, sqrt, 0, size);
    BoundsIff(size, 95, sqrt, 0, size);
    BoundsIff(size, 99, sqrt, 0, size);
    InRangeFrom726(size, 50, sqrt);
    InRangeFrom726(size, 90, sqrt);
    InRangeFrom726(size, 95, sqrt);
    InRangeFrom726(size, 99, sqrt);
  }

  lemma SummaryBrackets(buf: seq<int>, size: nat, ps: Positions)
    requires SortedPrefix(buf, size) && size > 0 && AllValid(ps, size)
    ensures Summarise(buf, size, ps).Some?
    ensures var r := Summarise(buf, size, ps).value;
            AllBracket(r) && r.p50.mid <= r.p90.mid <= r.p95.mid <= r.p99.mid
  {
    hide Sum, ToUint64, ValidFor, SortedPrefix, EstimateAt;
    MidsAscend(buf, size);
    EstimateSound(buf, size, size * 50 / 100, ps.b50);
    EstimateSound(buf, size, size * 90 / 100, ps.b90);
    EstimateSound(buf, size, size * 95 / 100, ps.b95);
    EstimateSound(buf, size, size * 99 / 100, ps.b99);
  }

  lemma MidsAscend(buf: seq<int>, size: nat)
    requires SortedPrefix(buf, size) && size > 0
    ensures size <= |buf|
    ensures buf[size * 50 / 100] <= buf[size * 90 / 100] <= buf[size * 95 / 100] <= buf[size * 99 / 100]
  {
  }

  lemma {:induction false} SumPermutes(s: seq<int>, t: seq<int>)
    requires multiset(s) == multiset(t)
    ensures Sum(s) == Sum(t)
  {
    if s == [] {
      assert |multiset(t)| == 0;
    } else {
      var k := PositionIn(s[0], t);
      RemoveBoth(s, t, k);
      SumPermutes(s[1..], t[..k] + t[k + 1..]);
      assert s == [s[0]] + s[1..] && t == t[..k] + ([t[k]] + t[k + 1..]);
      SumConcat([s[0]], s[1..]);
      SumConcat(t[..k], t[k + 1..]);
      SumConcat([t[k]], t[k + 1..]);
      SumConcat(t[..k], [t[k]] + t[k + 1..]);
    }
  }

  /** The reported mean is that of the samples, their sum wrapped around before the division. */
  lemma MeanReported(buf: seq<int>, size: nat, ps: Positions, all: seq<int>)
    requires size <= |buf| && multiset(all) == multiset(buf[..size]) && Summarise(buf, size, ps).Some?
    ensures |all| == size > 0 && Summarise(buf, size, ps).value.avg == Sum(all) % TWO_64 / size
  {
    hide EstimateAt, Sum;
    assert |all| == |multiset(all)| && |multiset(buf[..size])| == size;
    SumPermutes(all, buf[..size]);
  }

  lemma MeanWithin(buf: seq<int>, size: nat)
    requires SortedPrefix(buf, size) && size > 0
    requires 0 <= buf[0] && Sum(buf[..size]) < TWO_64
    ensures buf[0] <= ToUint64(Sum(buf[..size])) / size <= buf[size - 1]
  {
    hide Sum, ToUint64;
    MeanBetween(buf[..size], buf[0], buf[size - 1]);
  }

  ghost predicate AllBracket(r: Summary) {
    r.p50.Brackets() && r.p90.Brackets() && r.p95.Brackets() && r.p99.Brackets()
  }

  /** Sound intervals, ordered percentiles of the right ranks, and a mean between the extremes. */
  ghost predicate SoundSummary(r: Summary, buf: seq<int>, size: nat)
    requires 0 < size <= |buf|
  {
    && AllBracket(r)
    && r.p50.mid <= r.p90.mid <= r.p95.mid <= r.p99.mid
    && buf[0] <= r.avg <= buf[size - 1]
    && EstimatesOf(r, buf[..size])
  }

  /** The four reads are defined, and an upper one past the samples finds a cleared slot. */
  ghost predicate ReadsCleared(buf: seq<int>, size: nat, pct: nat, sqrt: real -> real) {
    var b := GetCiBounds(size, pct as real / 100.0, sqrt);
    Defined(b, size * pct / 100, |buf|) && b.i < size && (size <= b.k ==> buf[b.k] == 0)
  }

  lemma AllReadsCleared(buf: seq<int>, size: nat, sqrt: real -> real)
    requires IsSqrt(sqrt) && 4 <= size <= |buf|
    requires size < 726 ==> 1000 <= |buf| && forall i :: size <= i < |buf| ==> buf[i] == 0
    ensures ReadsCleared(buf, size, 50, sqrt) && ReadsCleared(buf, size, 90, sqrt)
    ensures ReadsCleared(buf, size, 95, sqrt) && ReadsCleared(buf, size, 99, sqrt)
  {
    hide GetCiBounds;
    if size < 726 {
      PositionsBelow726(size, sqrt);
    } else {
      PositionsValidFrom726(size, sqrt);
    }
  }

  /** Whatever is reported has its rank among the samples, in a buffer cleared past them or deep enough in them. */
  lemma EstimatesMeet(buf: seq<int>, size: nat, sqrt: real -> real)
    requires IsSqrt(sqrt) && SortedPrefix(buf, size) && 4 <= size <= |buf|
    requires size < 726 ==> 1000 <= |buf| && forall i :: size <= i < |buf| ==> buf[i] == 0
    ensures var r := Summarise(buf, size, PositionsFor(size, sqrt));
            r.Some? && EstimatesOf(r.value, buf[..size])
  {
    hide GetCiBounds, EstimateOf, EstimateAt, Sum, SortedPrefix;
    AllReadsCleared(buf, size, sqrt);
    EstimateIs(buf, size, 50, sqrt);
    EstimateIs(buf, size, 90, sqrt);
    EstimateIs(buf, size, 95, sqrt);
    EstimateIs(buf, size, 99, sqrt);
  }

  /** From 726 sorted samples on, intervals bracket and percentiles ascend, whatever the values. */
  lemma SummaryRanked(buf: seq<int>, size: nat, sqrt: real -> real)
    requires IsSqrt(sqrt)
    requires SortedPrefix(buf, size) && size >= 726
    ensures var r := Summarise(buf, size, PositionsFor(size, sqrt));
            && r.Some? && AllBracket(r.value) && EstimatesOf(r.value, buf[..size])
            && r.value.p50.mid <= r.value.p90.mid <= r.value.p95.mid <= r.value.p99.mid
  {
    hide Summarise, EstimatesOf, AllBracket;
    PositionsValidFrom726(size, sqrt);
    SummaryBrackets(buf, size, PositionsFor(size, sqrt));
    EstimatesMeet(buf, size, sqrt);
  }

  /** From 726 samples on the summary is sound. */
  lemma SummarySound(buf: seq<int>, size: nat, sqrt: real -> real)
    requires IsSqrt(sqrt)
    requires SortedPrefix(buf, size) && size >= 726
    requires 0 <= buf[0] && Sum(buf[..size]) < TWO_64
    ensures var r := Summarise(buf, size, PositionsFor(size, sqrt));
            r.Some? && SoundSummary(r.value, buf, size)
  {
    hide EstimatesOf, Sum, Summarise;
    SummaryRanked(buf, size, sqrt);
    MeanReported(buf, size, PositionsFor(size, sqrt), buf[..size]);
    MeanWithin(buf, size);
  }

  /** From 4 samples on every position lies within a buffer of 1000 slots. */
  lemma PositionWithinBuffer(size: nat, pct: nat, sqrt: real -> real)
    requires IsSqrt(sqrt) && pct in {50, 90, 95, 99} && 0 < size < 726
    ensures var b := GetCiBounds(size, pct as real / 100.0, sqrt);
            && (0 <= b.i <==> size >= 4 || pct != 50) && b.i <= size * pct / 100 < b.k < 1000
            && (pct == 99 ==> size <= b.k)
  {
    BoundsIff(size, pct, sqrt, 0, 1000);
    FarBelowIff(size, pct);
    FarWithin1000(size, pct);
    if pct == 99 {
      BoundsIff(size, pct, sqrt, 0, size);
      FarAbove99Iff(size);
    }
  }

  lemma FarWithin1000(size: nat, pct: nat)
    requires pct in {50, 90, 95, 99} && size < 726
    ensures FarAbove(998, Mean(size, pct), Variance(size, pct))
  {
    assert Mean(size, pct) <= 725.0 && Variance(size, pct) <= 200.0;
    SquareLe(273.0, 998.0 - Mean(size, pct));
  }

  lemma PositionsBelow726(size: nat, sqrt: real -> real)
    requires IsSqrt(sqrt) && 0 < size < 726
    ensures var ps := PositionsFor(size, sqrt);
            && (0 <= ps.b50.i <==> size >= 4) && 0 <= ps.b90.i && 0 <= ps.b95.i && 0 <= ps.b99.i
            && ps.b50.i < size && ps.b90.i < size && ps.b95.i < size && ps.b99.i < size <= ps.b99.k < 1000
            && ps.b50.i < ps.b50.k < 1000 && ps.b90.i < ps.b90.k < 1000 && ps.b95.i < ps.b95.k < 1000
  {
    PositionWithinBuffer(size, 50, sqrt);
    PositionWithinBuffer(size, 90, sqrt);
    PositionWithinBuffer(size, 95, sqrt);
    PositionWithinBuffer(size, 99, sqrt);
  }

  /** With fewer than 4 samples the lower index of the median is negative; with more all positions are defined. */
  lemma SummarisesIff(size: nat, slots: nat, sqrt: real -> real)
    requires IsSqrt(sqrt) && size <= slots && 1000 <= slots
    ensures Summarises(size, slots, sqrt) <==> size >= 4
  {
    if 0 < size < 726 {
      PositionsBelow726(size, sqrt);
    } else if size > 0 {
      PositionsValidFrom726(size, sqrt);
    }
  }

  /** A summary exists exactly from 4 samples on. */
  lemma SummaryExistsIff(buf: seq<int>, size: nat, sqrt: real -> real)
    requires IsSqrt(sqrt) && size <= |buf| && 1000 <= |buf|
    ensures Summarise(buf, size, PositionsFor(size, sqrt)).Some? <==> size >= 4
  {
    SummarisesIff(size, |buf|, sqrt);
  }

  /** Below 726 samples the upper bound of the last percentile is read past them; the lower one is a sample. */
  lemma SummaryBelow726(buf: seq<int>, size: nat, sqrt: real -> real)
    requires IsSqrt(sqrt) && 4 <= size < 726 && 1000 <= |buf|
    requires forall i :: size <= i < |buf| ==> buf[i] == 0
    ensures var r := Summarise(buf, size, PositionsFor(size, sqrt));
            r.Some? && r.value.p99.high == 0 && r.value.p99.low in buf[..size]
  {
    SummarisesIff(size, |buf|, sqrt);
    PositionsBelow726(size, sqrt);
    var b := PositionsFor(size, sqrt).b99;
    assert buf[..size][b.i] == buf[b.i];
  }

  /**
   For positive latencies in a buffer that is zero past the samples, as the aggregation leaves it, the reported
   intervals are sound if and only if there are at least 726 samples; below, the last upper bound reads as 0.
   */
  lemma IntervalsSoundIff(buf: seq<int>, size: nat, sqrt: real -> real)
    requires IsSqrt(sqrt)
    requires SortedPrefix(buf, size) && 4 <= size && 1000 <= |buf|
    requires forall i :: 0 <= i < size ==> 0 < buf[i]
    requires forall i :: size <= i < |buf| ==> buf[i] == 0
    ensures var r := Summarise(buf, size, PositionsFor(size, sqrt));
            && r.Some?
            && (AllBracket(r.value) <==> size >= 726)
            && (size < 726 ==> r.value.p99.high == 0 < r.value.p99.low)
  {
    hide Summarise;
    if size >= 726 {
      SummaryRanked(buf, size, sqrt);
    } else {
      SummaryBelow726(buf, size, sqrt);
    }
  }
}

/** The coordinator's aggregation over agents, in 64-bit arithmetic. */
module AgentStats {
  import opened Numeric
  import opened Wire

  type Selector = LatencyReply -> nat

  /** The sum of a field over all replies, before any wrap-around. */
  ghost function SumOf<T>(rs: seq<T>, f: T -> nat): nat {
    if rs == [] then 0 else SumOf(rs[..|rs| - 1], f) + f(rs[|rs| - 1])
  }

  /** What the aggregate holds for a field: the wrapped sum, divided by the number of replies. */
  ghost function MeanOf(rs: seq<LatencyReply>, f: Selector): nat
    requires |rs| > 0
  {
    ToUint64(SumOf(rs, f)) / |rs|
  }

  ghost function MeanTriple(rs: seq<LatencyReply>, f: LatencyReply -> Triple): Triple
    requires |rs| > 0
  {
    Triple(MeanOf(rs, (r: LatencyReply) => f(r).i), MeanOf(rs, (r: LatencyReply) => f(r).p),
           MeanOf(rs, (r: LatencyReply) => f(r).k))
  }

  const NO_THROUGHPUT := ThroughputReply(0, 0, 0, 0)

  /** The aggregated latency statistics; the throughput part is left zero. */
  ghost function AggregateLatency(rs: seq<LatencyReply>): LatencyReply
    requires |rs| > 0
  {
    LatencyReply(NO_THROUGHPUT, MeanOf(rs, (r: LatencyReply) => r.avg),
                 MeanTriple(rs, (r: LatencyReply) => r.p50), MeanTriple(rs, (r: LatencyReply) => r.p90),
                 MeanTriple(rs, (r: LatencyReply) => r.p95), MeanTriple(rs, (r: LatencyReply) => r.p99))
  }

  const NO_TRIPLE := Triple(0, 0, 0)
  const NO_LATENCY := LatencyReply(NO_THROUGHPUT, 0, NO_TRIPLE, NO_TRIPLE, NO_TRIPLE, NO_TRIPLE)

  function AddTriple(a: Triple, b: Triple): Triple {
    Triple(ToUint64(a.i + b.i), ToUint64(a.p + b.p), ToUint64(a.k + b.k))
  }

  /** The body of the accumulation loop. */
  function AddReply(a: LatencyReply, r: LatencyReply): LatencyReply {
    LatencyReply(a.th, ToUint64(a.avg + r.avg), AddTriple(a.p50, r.p50), AddTriple(a.p90, r.p90),
                 AddTriple(a.p95, r.p95), AddTriple(a.p99, r.p99))
  }

  function DivideTriple(t: Triple, n: nat): Triple
    requires n > 0
  {
    Triple(t.i / n, t.p / n, t.k / n)
  }

  ghost function Accumulated(rs: seq<LatencyReply>): LatencyReply {
    if rs == [] then NO_LATENCY else AddReply(Accumulated(rs[..|rs| - 1]), rs[|rs| - 1])
  }

  ghost function SumTriple(rs: seq<LatencyReply>, f: LatencyReply -> Triple): Triple {
    Triple(ToUint64(SumOf(rs, (r: LatencyReply) => f(r).i)), ToUint64(SumOf(rs, (r: LatencyReply) => f(r).p)),
           ToUint64(SumOf(rs, (r: LatencyReply) => f(r).k)))
  }

  lemma SumStep<T>(rs: seq<T>, f: T -> nat)
    requires rs != []
    ensures ToUint64(SumOf(rs, f)) == ToUint64(ToUint64(SumOf(rs[..|rs| - 1], f)) + f(rs[|rs| - 1]))
  {
    hide ToUint64;
    AddWraps(SumOf(rs[..|rs| - 1], f), f(rs[|rs| - 1]));
  }

  lemma TripleStep(rs: seq<LatencyReply>, f: LatencyReply -> Triple)
    requires rs != []
    ensures SumTriple(rs, f) == AddTriple(SumTriple(rs[..|rs| - 1], f), f(rs[|rs| - 1]))
  {
    hide SumOf, ToUint64;
    SumStep(rs, (r: LatencyReply) => f(r).i);
    SumStep(rs, (r: LatencyReply) => f(r).p);
    SumStep(rs, (r: LatencyReply) => f(r).k);
  }

  ghost predicate Sums(a: LatencyReply, rs: seq<LatencyReply>) {
    && a.th == NO_THROUGHPUT
    && a.avg == ToUint64(SumOf(rs, (r: LatencyReply) => r.avg))
    && a.p50 == SumTriple(rs, (r: LatencyReply) => r.p50) && a.p90 == SumTriple(rs, (r: LatencyReply) => r.p90)
    && a.p95 == SumTriple(rs, (r: LatencyReply) => r.p95) && a.p99 == SumTriple(rs, (r: LatencyReply) => r.p99)
  }

  lemma SumsStep(a: LatencyReply, rs: seq<LatencyReply>)
    requires rs != [] && Sums(a, rs[..|rs| - 1])
    ensures Sums(AddReply(a, rs[|rs| - 1]), rs)
  {
    hide SumTriple, AddTriple, SumOf, ToUint64;
    SumStep(rs, (r: LatencyReply) => r.avg);
    TripleStep(rs, (r: LatencyReply) => r.p50);
    TripleStep(rs, (r: LatencyReply) => r.p90);
    TripleStep(rs, (r: LatencyReply) => r.p95);
    TripleStep(rs, (r: LatencyReply) => r.p99);
  }

  /** The accumulator holds the wrapped sum of every field. */
  lemma {:induction false} AccumulatedSums(rs: seq<LatencyReply>)
    ensures Sums(Accumulated(rs), rs)
  {
    if rs != [] {
      hide Sums, AddReply;
      AccumulatedSums(rs[..|rs| - 1]);
      SumsStep(Accumulated(rs[..|rs| - 1]), rs);
    }
  }

  /** The sum of one field, wrapped around, over the number of replies. */
  ghost predicate IsMean(x: nat, rs: seq<LatencyReply>, f: Selector)
    requires |rs| > 0
  {
    x == SumOf(rs, f) % TWO_64 / |rs|
  }

  /** Every field of the aggregate is about that field of the replies. */
  ghost predicate FieldMeans(agg: LatencyReply, rs: seq<LatencyReply>)
    requires |rs| > 0
  {
    && IsMean(agg.avg, rs, (r: LatencyReply) => r.avg)
    && IsMean(agg.p50.i, rs, (r: LatencyReply) => r.p50.i) && IsMean(agg.p50.p, rs, (r: LatencyReply) => r.p50.p)
    && IsMean(agg.p50.k, rs, (r: LatencyReply) => r.p50.k) && IsMean(agg.p90.i, rs, (r: LatencyReply) => r.p90.i)
    && IsMean(agg.p90.p, rs, (r: LatencyReply) => r.p90.p) && IsMean(agg.p90.k, rs, (r: LatencyReply) => r.p90.k)
    && IsMean(agg.p95.i, rs, (r: LatencyReply) => r.p95.i) && IsMean(agg.p95.p, rs, (r: LatencyReply) => r.p95.p)
    && IsMean(agg.p95.k, rs, (r: LatencyReply) => r.p95.k) && IsMean(agg.p99.i, rs, (r: LatencyReply) => r.p99.i)
    && IsMean(agg.p99.p, rs, (r: LatencyReply) => r.p99.p) && IsMean(agg.p99.k, rs, (r: LatencyReply) => r.p99.k)
  }

  lemma {:induction false} SumSame(rs: seq<LatencyReply>, f: Selector, g: Selector)
    requires forall r :: f(r) == g(r)
    ensures SumOf(rs, f) == SumOf(rs, g)
  {
    if rs != [] {
      SumSame(rs[..|rs| - 1], f, g);
    }
  }

  lemma TripleMeans(rs: seq<LatencyReply>, f: LatencyReply -> Triple, i: Selector, p: Selector, k: Selector)
    requires |rs| > 0 && forall r :: f(r) == Triple(i(r), p(r), k(r))
    ensures var t := MeanTriple(rs, f); IsMean(t.i, rs, i) && IsMean(t.p, rs, p) && IsMean(t.k, rs, k)
  {
    hide SumOf;
    SumSame(rs, (r: LatencyReply) => f(r).i, i);
    SumSame(rs, (r: LatencyReply) => f(r).p, p);
    SumSame(rs, (r: LatencyReply) => f(r).k, k);
  }

  lemma AggregateFields(rs: seq<LatencyReply>)
    requires |rs| > 0
    ensures FieldMeans(AggregateLatency(rs), rs)
  {
    hide SumOf, MeanTriple;
    TripleMeans(rs, (r: LatencyReply) => r.p50, (r: LatencyReply) => r.p50.i, (r: LatencyReply) => r.p50.p,
                (r: LatencyReply) => r.p50.k);
    TripleMeans(rs, (r: LatencyReply) => r.p90, (r: LatencyReply) => r.p90.i, (r: LatencyReply) => r.p90.p,
                (r: LatencyReply) => r.p90.k);
    TripleMeans(rs, (r: LatencyReply) => r.p95, (r: LatencyReply) => r.p95.i, (r: LatencyReply) => r.p95.p,
                (r: LatencyReply) => r.p95.k);
    TripleMeans(rs, (r: LatencyReply) => r.p99, (r: LatencyReply) => r.p99.i, (r: LatencyReply) => r.p99.p,
                (r: LatencyReply) => r.p99.k);
  }

  /** `computeStatsLatency`. */
  method ComputeStatsLatency(rs: seq<LatencyReply>) returns (agg: LatencyReply)
    requires |rs| > 0
    ensures agg == AggregateLatency(rs) && FieldMeans(agg, rs)
  {
    hide AddReply, FieldMeans;
    AggregateFields(rs);
    agg := NO_LATENCY;
    for i := 0 to |rs|
      invariant agg == Accumulated(rs[..i])
    {
      assert rs[..i + 1][..i] == rs[..i];
      agg := AddReply(agg, rs[i]);
    }
    assert rs[..|rs|] == rs;
    AccumulatedSums(rs);
    var n := |rs|;
    agg := LatencyReply(agg.th, agg.avg / n, DivideTriple(agg.p50, n), DivideTriple(agg.p90, n),
                        DivideTriple(agg.p95, n), DivideTriple(agg.p99, n));
  }

  /** The aggregated throughput: each counter is the sum over the agents modulo 2^64, the duration the first agent's. */
  ghost function AggregateThroughput(rs: seq<ThroughputReply>): ThroughputReply
    requires |rs| > 0
  {
    ThroughputReply(ToUint64(SumOf(rs, (r: ThroughputReply) => r.rxBytes)),
                    ToUint64(SumOf(rs, (r: ThroughputReply) => r.txBytes)),
                    ToUint64(SumOf(rs, (r: ThroughputReply) => r.reqCount)), rs[0].duration)
  }

  /** `computeStatsThroughput`; it needs a first reply for the duration. */
  method ComputeStatsThroughput(rs: seq<ThroughputReply>) returns (agg: ThroughputReply)
    requires |rs| > 0
    ensures agg == AggregateThroughput(rs)
    ensures agg.rxBytes == SumOf(rs, (r: ThroughputReply) => r.rxBytes) % TWO_64
    ensures agg.txBytes == SumOf(rs, (r: ThroughputReply) => r.txBytes) % TWO_64
    ensures agg.reqCount == SumOf(rs, (r: ThroughputReply) => r.reqCount) % TWO_64
  {
    hide SumOf;
    ghost var rx, tx, count := (r: ThroughputReply) => r.rxBytes, (r: ThroughputReply) => r.txBytes,
                               (r: ThroughputReply) => r.reqCount;
    NothingSummed(rx);
    NothingSummed(tx);
    NothingSummed(count);
    agg := NO_THROUGHPUT;
    for i := 0 to |rs|
      invariant agg == ThroughputReply(ToUint64(SumOf(rs[..i], rx)), ToUint64(SumOf(rs[..i], tx)),
                                       ToUint64(SumOf(rs[..i], count)), 0)
    {
      assert rs[..i + 1][..i] == rs[..i];
      SumStep(rs[..i + 1], rx);
      SumStep(rs[..i + 1], tx);
      SumStep(rs[..i + 1], count);
      agg := ThroughputReply(ToUint64(agg.rxBytes + rs[i].rxBytes), ToUint64(agg.txBytes + rs[i].txBytes),
                             ToUint64(agg.reqCount + rs[i].reqCount), 0);
    }
    assert rs[..|rs|] == rs;
    agg := agg.(duration := rs[0].duration);
  }

  lemma NothingSummed<T>(f: T -> nat)
    ensures forall rs: seq<T> :: rs == [] ==> ToUint64(SumOf(rs, f)) == 0
  {
  }

  // Means keep order and bounds.

  lemma {:induction false} SumOrdered(rs: seq<LatencyReply>, f: Selector, g: Selector)
    requires forall i :: 0 <= i < |rs| ==> f(rs[i]) <= g(rs[i])
    ensures SumOf(rs, f) <= SumOf(rs, g)
  {
    if rs != [] {
      SumOrdered(rs[..|rs| - 1], f, g);
    }
  }

  lemma {:induction false} SumBetween(rs: seq<LatencyReply>, f: Selector, lo: nat, hi: nat)
    requires forall i :: 0 <= i < |rs| ==> lo <= f(rs[i]) <= hi
    ensures |rs| * lo <= SumOf(rs, f) <= |rs| * hi
  {
    if rs == [] {
      assert |rs| * lo == 0 && |rs| * hi == 0;
    } else {
      var n := |rs| - 1;
      SumBetween(rs[..n], f, lo, hi);
      OneMore(n, lo);
      OneMore(n, hi);
    }
  }

  lemma OneMore(n: nat, x: nat)
    ensures (n + 1) * x == n * x + x
  {
  }

  lemma DivMonotone(x: nat, y: nat, n: nat)
    requires n > 0 && x <= y
    ensures x / n <= y / n
  {
    assert x == n * (x / n) + x % n && y == n * (y / n) + y % n;
    NextMultiple(n, y / n, x / n);
  }

  lemma MeanOrdered(rs: seq<LatencyReply>, f: Selector, g: Selector)
    requires |rs| > 0 && SumOf(rs, g) < TWO_64
    requires forall i :: 0 <= i < |rs| ==> f(rs[i]) <= g(rs[i])
    ensures MeanOf(rs, f) <= MeanOf(rs, g)
  {
    SumOrdered(rs, f, g);
    DivMonotone(SumOf(rs, f), SumOf(rs, g), |rs|);
  }

  /** Without overflow a mean lies between the smallest and the largest reply. */
  lemma MeanBetween(rs: seq<LatencyReply>, f: Selector, lo: nat, hi: nat)
    requires |rs| > 0 && SumOf(rs, f) < TWO_64
    requires forall i :: 0 <= i < |rs| ==> lo <= f(rs[i]) <= hi
    ensures lo <= MeanOf(rs, f) <= hi
  {
    hide SumOf;
    SumBetween(rs, f, lo, hi);
    DivBetween(SumOf(rs, f), |rs|, lo, hi);
  }

  /** A valid interval brackets its percentile. */
  predicate ValidInterval(t: Triple) {
    t.i <= t.p <= t.k
  }

  /** If every agent's interval is valid, so is the aggregated one, unless the largest sum overflows. */
  lemma IntervalsKept(rs: seq<LatencyReply>, f: LatencyReply -> Triple)
    requires |rs| > 0 && SumOf(rs, (r: LatencyReply) => f(r).k) < TWO_64
    requires forall i :: 0 <= i < |rs| ==> ValidInterval(f(rs[i]))
    ensures ValidInterval(MeanTriple(rs, f))
  {
    var fi, fp, fk := (r: LatencyReply) => f(r).i, (r: LatencyReply) => f(r).p, (r: LatencyReply) => f(r).k;
    SumOrdered(rs, fp, fk);
    MeanOrdered(rs, fp, fk);
    MeanOrdered(rs, fi, fp);
  }

  /** All four intervals of a reply are valid. */
  predicate ValidIntervals(r: LatencyReply) {
    ValidInterval(r.p50) && ValidInterval(r.p90) && ValidInterval(r.p95) && ValidInterval(r.p99)
  }

  /** No upper bound of the reply exceeds `b`. */
  predicate Within(r: LatencyReply, b: nat) {
    r.p50.k <= b && r.p90.k <= b && r.p95.k <= b && r.p99.k <= b
  }

  /** Aggregating the valid intervals of `n` agents, none of which exceeds `b`, gives valid ones again. */
  ghost predicate IntervalsSurvive(n: nat, b: nat) {
    forall rs: seq<LatencyReply> :: |rs| == n > 0 && AllWithin(rs, b) ==> ValidIntervals(AggregateLatency(rs))
  }

  ghost predicate AllWithin(rs: seq<LatencyReply>, b: nat) {
    forall i :: 0 <= i < |rs| ==> ValidIntervals(rs[i]) && Within(rs[i], b)
  }

  /** That is so exactly if the number of agents times the bound fits 64 bits. */
  lemma IntervalsKeptIff(n: nat, b: nat)
    requires 0 < n < TWO_64 && b < TWO_64
    ensures IntervalsSurvive(n, b) <==> n * b < TWO_64
  {
    if n * b < TWO_64 {
      forall rs: seq<LatencyReply> | |rs| == n > 0 && AllWithin(rs, b) ensures ValidIntervals(AggregateLatency(rs)) {
        SmallIntervalsKept(rs, b);
      }
    } else {
      var rs := Overflowing(n, b);
      assert !ValidIntervals(AggregateLatency(rs));
    }
  }

  lemma SmallIntervalsKept(rs: seq<LatencyReply>, b: nat)
    requires |rs| > 0 && AllWithin(rs, b) && |rs| * b < TWO_64
    ensures ValidIntervals(AggregateLatency(rs))
  {
    hide SumOf, MeanTriple;
    OneIntervalKept(rs, (r: LatencyReply) => r.p50, b);
    OneIntervalKept(rs, (r: LatencyReply) => r.p90, b);
    OneIntervalKept(rs, (r: LatencyReply) => r.p95, b);
    OneIntervalKept(rs, (r: LatencyReply) => r.p99, b);
  }

  lemma OneIntervalKept(rs: seq<LatencyReply>, f: LatencyReply -> Triple, b: nat)
    requires |rs| > 0 && |rs| * b < TWO_64
    requires forall i :: 0 <= i < |rs| ==> ValidInterval(f(rs[i])) && f(rs[i]).k <= b
    ensures ValidInterval(MeanTriple(rs, f))
  {
    hide SumOf, MeanTriple;
    SumBetween(rs, (r: LatencyReply) => f(r).k, 0, b);
    IntervalsKept(rs, f);
  }

  /** Equal agents whose upper bounds just reach 2^64: the mean of the lower bounds is 1, that of the upper ones 0. */
  lemma Overflowing(n: nat, b: nat) returns (rs: seq<LatencyReply>)
    requires 0 < n < TWO_64 && b < TWO_64 <= n * b
    ensures |rs| == n && AllWithin(rs, b) && AggregateLatency(rs).p99 == Triple(1, 1, 0)
  {
    hide SumOf;
    var k := CeilDiv(n, b);
    var t := Triple(1, 1, k);
    var r := LatencyReply(NO_THROUGHPUT, 1, t, t, t, t);
    rs := seq(n, _ => r);
    var f := (r: LatencyReply) => r.p99;
    SumBetween(rs, (r: LatencyReply) => f(r).i, 1, 1);
    SumBetween(rs, (r: LatencyReply) => f(r).p, 1, 1);
    SumBetween(rs, (r: LatencyReply) => f(r).k, k, k);
    WrappedMeans(n, n * k);
    assert AggregateLatency(rs).p99 == MeanTriple(rs, f);
  }

  /** The smallest bound that `n` agents need to reach 2^64. */
  lemma CeilDiv(n: nat, b: nat) returns (k: nat)
    requires 0 < n < TWO_64 <= n * b
    ensures 1 <= k <= b && TWO_64 <= n * k < TWO_64 + n
  {
    var x := TWO_64 + n - 1;
    k := x / n;
    assert x == n * k + x % n;
    NextMultiple(n, b, k);
    NextMultiple(n, k, 1);
    assert n * (b + 1) == n * b + n;
  }

  lemma WrappedMeans(n: nat, sum: nat)
    requires 0 < n < TWO_64 && TWO_64 <= sum < TWO_64 + n
    ensures ToUint64(n) / n == 1 && ToUint64(sum) / n == 0
  {
    QuotientUnique(n, n, 1, 0);
    QuotientUnique(sum - TWO_64, n, 0, sum - TWO_64);
    assert ToUint64(sum) == sum - TWO_64;
  }

  /** Upper bounds of `x` and of 2^64 - `x`, which is how minus `x` nanoseconds travels, average to zero. */
  lemma OverflowInverts(a: LatencyReply, b: LatencyReply, x: nat)
    requires ValidInterval(a.p99) && ValidInterval(b.p99) && a.p99.p + b.p99.p < TWO_64
    requires 0 < x < TWO_64 && a.p99.k == TWO_64 - x && b.p99.k == x
    ensures AggregateLatency([a, b]).p99 == Triple((a.p99.i + b.p99.i) / 2, (a.p99.p + b.p99.p) / 2, 0)
    ensures a.p99.i + b.p99.i >= 2 ==> !ValidInterval(AggregateLatency([a, b]).p99)
  {
    hide SumOf;
    var f := (q: LatencyReply) => q.p99;
    SumOfTwo(a, b, (q: LatencyReply) => f(q).i);
    SumOfTwo(a, b, (q: LatencyReply) => f(q).p);
    SumOfTwo(a, b, (q: LatencyReply) => f(q).k);
    assert AggregateLatency([a, b]).p99 == MeanTriple([a, b], f);
    assert ToUint64(TWO_64) == 0;
  }

  lemma SumOfTwo(a: LatencyReply, b: LatencyReply, f: Selector)
    ensures SumOf([a, b], f) == f(a) + f(b)
  {
    assert [a, b][..1] == [a] && [a][..0] == [];
    assert SumOf([a], f) == f(a);
  }

  // The check of the confidence interval.

  /** Go's conversion of an unsigned 64-bit value to `int`. */
  function ToInt64(x: nat): int {
    var low := x % TWO_64;
    if low < TWO_64 / 2 then low else low - TWO_64
  }

  /** The condition on which the interval is rejected: unsigned subtraction, then conversion. */
  predicate CiTooWide(agg: LatencyReply, ciSize: int) {
    ToInt64(ToUint64(agg.p99.k - agg.p99.i)) > ciSize * 1000
  }

  /** Within 2^63 of each other the wrap-around cancels: the check compares the true signed width. */
  lemma CiCheckIsSigned(agg: LatencyReply, ciSize: int)
    requires -TWO_64 / 2 <= agg.p99.k - agg.p99.i < TWO_64 / 2
    ensures CiTooWide(agg, ciSize) <==> agg.p99.k - agg.p99.i > ciSize * 1000
  {
    var d := agg.p99.k - agg.p99.i;
    if d < 0 {
      assert ToUint64(d) == d + TWO_64 by { assert d == (d + TWO_64) - TWO_64; }
    }
  }

  /** For a valid interval the unsigned difference is the width; an inverted interval always passes the check. */
  lemma CiCheckCases(agg: LatencyReply, ciSize: nat)
    requires agg.p99.k < TWO_64
    ensures ValidInterval(agg.p99) ==> ToUint64(agg.p99.k - agg.p99.i) == agg.p99.k - agg.p99.i
    ensures -TWO_64 / 2 <= agg.p99.k - agg.p99.i < 0 ==> !CiTooWide(agg, ciSize)
  {
    if -TWO_64 / 2 <= agg.p99.k - agg.p99.i < 0 {
      CiCheckIsSigned(agg, ciSize);
    }
  }
}

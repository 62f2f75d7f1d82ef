/** Concrete inputs on which the program does not do what one would expect. */
module Counterexamples {
  import opened Numeric
  import opened Wire
  import opened Comparators
  import opened ThreadStats
  import opened KsStatistic
  import opened Sorting
  import AgentStats
  import Coordinator
  import CoordinatorRuns
  import EndToEnd
  import InterArrival
  import Manager
  import Pearson
  import Percentiles
  import Reporting
  import Verdicts

  // Equally spaced requests that fail the compliance test against a constant reference.

  /** A constant reference and `n` equal gaps have the same distribution; the test passes by this condition on `n`. */
  lemma EqualGapsVerdict(pass: bool, n: nat, v: int)
    requires n > 0
    requires InterArrival.IsComplianceVerdict(pass, Copies(Verdicts.REFERENCE_IA_SIZE, v), Copies(n, v))
    ensures IsKs(0.0, Copies(Verdicts.REFERENCE_IA_SIZE, v), Copies(n, v))
    ensures var (m, c, d) := (Verdicts.REFERENCE_IA_SIZE as real, n as real, Excess(Verdicts.REFERENCE_IA_SIZE, n));
            pass <==> d * d * (m * c) < 3.452164 * (m + c)
  {
    hide IsMergeKs, IsKs, Excess, Copies;
    var m, c := Verdicts.REFERENCE_IA_SIZE as real, n as real;
    var d :| 0.0 <= d && IsMergeKs(d, Copies(Verdicts.REFERENCE_IA_SIZE, v), Copies(n, v))
             && (pass <==> d * d * (m * c) < 3.452164 * (m + c));
    EqualValues(Verdicts.REFERENCE_IA_SIZE, n, v, d);
  }

  /** Requests sent every `gap` nanoseconds. */
  function Spaced(n: nat, gap: nat): (r: seq<Timespec>)
    ensures |r| == n
  {
    seq(n, i requires 0 <= i => Timespec(1, i * gap))
  }

  /**
   101 requests sent exactly every microsecond: the times are in order, all assertions of `check_ia` hold, and the test
   fails against a reference of exactly a microsecond.
   */
  lemma EqualGapsRejected(pass: bool, gaps: seq<int>)
    ensures SortBy(Spaced(101, 1000), TimespecCmp) == Spaced(101, 1000)
    ensures InterArrival.ComplianceRuns(Spaced(101, 1000)) && InterArrival.AllGapsSmall(Spaced(101, 1000))
    ensures InterArrival.AreGaps(gaps, Spaced(101, 1000)) ==> gaps == Copies(100, 1000)
    ensures InterArrival.IsComplianceVerdict(pass, Copies(Verdicts.REFERENCE_IA_SIZE, 1000), Copies(100, 1000)) ==>
              !pass
    ensures IsKs(0.0, Copies(Verdicts.REFERENCE_IA_SIZE, 1000), Copies(100, 1000))
  {
    hide IsKs, Copies, InterArrival.IsComplianceVerdict, SortBy;
    SpacedInOrder();
    SpacedGaps(gaps);
    EqualValues(Verdicts.REFERENCE_IA_SIZE, 100, 1000, 0.0);
    if InterArrival.IsComplianceVerdict(pass, Copies(Verdicts.REFERENCE_IA_SIZE, 1000), Copies(100, 1000)) {
      EqualGapsVerdict(pass, 100, 1000);
      WholeAndNone(100);
    }
  }

  lemma SpacedInOrder()
    ensures SortBy(Spaced(101, 1000), TimespecCmp) == Spaced(101, 1000)
  {
    var s := Spaced(101, 1000);
    forall i, j | 0 <= i < j < |s| ensures TimespecCmp(s[i], s[j]) <= 0 {
      ToInt32Of(s[i].nsec - s[j].nsec);
    }
    SortedStays(s, TimespecCmp);
  }

  lemma SpacedGaps(gaps: seq<int>)
    ensures InterArrival.AllGapsSmall(Spaced(101, 1000))
    ensures InterArrival.AreGaps(gaps, Spaced(101, 1000)) ==> gaps == Copies(100, 1000)
  {
    var s := Spaced(101, 1000);
    forall i | 1 <= i < |s| ensures InterArrival.SmallGap(s[i], s[i - 1]) {
    }
    if InterArrival.AreGaps(gaps, s) {
      forall i | 0 <= i < 100 ensures gaps[i] == 1000 {
        assert gaps[i] == InterArrival.GapAt(s, i);
      }
    }
  }

  // Seven requests of 100 microseconds, then seven of two seconds.

  const FAST := 100_000
  const SLOW := 2_000_000_000
  const HALF := 7

  const EARLY := LatSample(FAST, Timespec(1, 0))
  const LATE := LatSample(SLOW, Timespec(1, 500_000_000))

  function Repeat(n: nat, x: LatSample): (r: seq<LatSample>)
    ensures |r| == n && forall i :: 0 <= i < n ==> r[i] == x
  {
    seq(n, _ => x)
  }

  function Slowed(): seq<LatSample> {
    Repeat(HALF, EARLY) + Repeat(HALF, LATE)
  }

  function SlowedLatencies(): seq<int> {
    Copies(HALF, FAST) + Copies(HALF, SLOW)
  }

  lemma SlowedValues()
    ensures Latencies(Slowed()) == SlowedLatencies() && Narrow(Latencies(Slowed()))
  {
  }

  /** Their transmission times pass all assertions of the compliance test: a hardware-timed agent can report on them. */
  lemma SlowedReportable(kind: nat, cfg: Manager.Config)
    requires IsSqrt(cfg.sqrt)
    ensures Manager.Reportable(cfg, kind, Manager.Held(true, |Slowed()|, SlowedTimes()))
  {
    hide InterArrival.AllGapsSmall, SortBy, Slowed, Percentiles.Summarises, Manager.Reportable;
    SlowedLength();
    SlowedGapsSmall();
    Manager.ReportableIff(cfg, kind, Manager.Held(true, |Slowed()|, SlowedTimes()));
  }

  lemma SlowedLength()
    ensures |Slowed()| == 2 * HALF
  {
  }

  lemma SlowedGapsSmall()
    ensures InterArrival.AllGapsSmall(SortBy(SlowedTimes(), TimespecCmp))
  {
    hide InterArrival.SmallGap, InterArrival.AllGapsSmall, SortBy, SlowedTimes;
    var times, s := SlowedTimes(), SortBy(SlowedTimes(), TimespecCmp);
    InterArrival.ComplianceRunsIff(times);
    forall i | 1 <= i < |s| ensures InterArrival.WithinASecond(s[i], s[i - 1]) {
      assert s[i] in s && s[i - 1] in s;
      assert s[i] in times && s[i - 1] in times;
    }
  }

  function SlowedTimes(): (r: seq<Timespec>)
    ensures |r| == 2 * HALF && forall i :: 0 <= i < |r| ==> r[i] == Timespec(1, 0) || r[i] == Timespec(1, 500_000_000)
  {
    seq(2 * HALF, i requires 0 <= i < 2 * HALF => Slowed()[i].tx)
  }

  predicate Mixed(s: seq<LatSample>) {
    forall i :: 0 <= i < |s| ==> s[i] == EARLY || s[i] == LATE
  }

  lemma MixedFrom(s: seq<LatSample>, t: seq<LatSample>)
    requires Mixed(s) && forall x :: x in multiset(t) ==> x in multiset(s)
    ensures Mixed(t)
  {
    forall i | 0 <= i < |t| ensures t[i] == EARLY || t[i] == LATE {
      assert t[i] in multiset(t);
      assert t[i] in s;
    }
  }

  lemma {:induction false} CountEarly(s: seq<LatSample>)
    requires Mixed(s)
    ensures multiset(s)[EARLY] + multiset(s)[LATE] == |s|
  {
    if s != [] {
      CountEarly(s[1..]);
      assert s == [s[0]] + s[1..];
    }
  }

  /** In order of transmission the early ones come first. */
  lemma {:induction false} EarlyFirst(t: seq<LatSample>)
    requires Mixed(t) && InTxOrder(t)
    ensures multiset(t)[EARLY] <= |t| && t == Repeat(multiset(t)[EARLY], EARLY) + Repeat(|t| - multiset(t)[EARLY], LATE)
  {
    if t == [] {
    } else {
      var tail := t[1..];
      assert t == [t[0]] + tail;
      EarlyFirst(tail);
      if t[0] == LATE {
        forall i | 0 <= i < |tail| ensures tail[i] == LATE {
          assert NotAfter(t[0].tx, t[i + 1].tx);
        }
        assert EARLY !in tail;
        assert multiset(tail)[EARLY] == 0;
      }
    }
  }

  /** There is only one order of transmission. */
  lemma OneOrder(t: seq<LatSample>)
    requires InTxOrder(t) && multiset(t) == multiset(Slowed())
    ensures t == Slowed()
  {
    assert |t| == |multiset(t)| == |multiset(Slowed())| == |Slowed()|;
    MixedFrom(Slowed(), t);
    EarlyFirst(t);
    EarlyFirst(Slowed());
  }

  /** The earlier half are the fast ones. */
  lemma HalvesOfSlowed(a: seq<LatSample>, b: seq<LatSample>, rest: seq<LatSample>)
    requires Reporting.Halves(a, b, rest, Slowed())
    ensures Latencies(a) == Copies(HALF, FAST) && Latencies(b) == Copies(HALF, SLOW)
  {
    hide Repeat;
    PartsOfSlowed(a, b, rest);
    CountOfSlowed();
    assert LATE in a && EARLY in b ==> NotAfter(LATE.tx, EARLY.tx);
    Separated(a, b);
  }

  lemma PartsOfSlowed(a: seq<LatSample>, b: seq<LatSample>, rest: seq<LatSample>)
    requires |a| == |b| == HALF && multiset(a + b + rest) == multiset(Slowed())
    ensures multiset(a) + multiset(b) == multiset(Slowed()) && Mixed(a) && Mixed(b)
  {
    var all := Slowed();
    assert |a + b + rest| == |multiset(a + b + rest)| == |multiset(all)| == |all|;
    assert rest == [];
    assert multiset(a + b + rest) == multiset(a) + multiset(b);
    MixedFrom(all, a);
    MixedFrom(all, b);
  }

  /** As many early ones as half of the samples, none of them in the later half if the earlier one has a late one. */
  lemma Separated(a: seq<LatSample>, b: seq<LatSample>)
    requires Mixed(a) && Mixed(b) && |a| == |b| == HALF
    requires multiset(a)[EARLY] + multiset(b)[EARLY] == HALF && !(LATE in a && EARLY in b)
    ensures Latencies(a) == Copies(HALF, FAST) && Latencies(b) == Copies(HALF, SLOW)
  {
    CountEarly(a);
    CountEarly(b);
    assert LATE in a <==> multiset(a)[LATE] > 0;
    assert EARLY in b <==> multiset(b)[EARLY] > 0;
  }

  lemma CountOfSlowed()
    ensures multiset(Slowed())[EARLY] == HALF && multiset(Slowed())[LATE] == HALF
  {
    CountRepeat(HALF, EARLY);
    CountRepeat(HALF, LATE);
  }

  lemma {:induction false} CountRepeat(n: nat, x: LatSample)
    ensures multiset(Repeat(n, x)) == multiset{}[x := n]
  {
    if n > 0 {
      CountRepeat(n - 1, x);
      assert Repeat(n, x) == [x] + Repeat(n - 1, x);
    }
  }

  /** The two halves have nothing in common, so the test finds that the measurement did not converge. */
  lemma SlowedNotConverged(conv: bool)
    requires Reporting.ConvergenceAbout(conv, Slowed())
    ensures !conv
  {
    hide IsKs, Copies, CountLe, Verdicts.IsConvergenceVerdict;
    var a, b, rest :| Reporting.Halves(a, b, rest, Slowed())
                      && Verdicts.IsConvergenceVerdict(conv, Latencies(a), Latencies(b));
    HalvesOfSlowed(a, b, rest);
    DisjointNotConverged(conv);
  }

  lemma DisjointNotConverged(conv: bool)
    requires Verdicts.IsConvergenceVerdict(conv, Copies(HALF, FAST), Copies(HALF, SLOW))
    ensures !conv
  {
    hide IsKs, Copies, CountLe;
    var x, y := Copies(HALF, FAST), Copies(HALF, SLOW);
    var k :| IsKs(k, x, y) && (conv <==> Verdicts.BelowLimit(k, |x|));
    CountCopies(HALF, FAST, FAST);
    CountCopies(HALF, SLOW, FAST);
    GapOne(k, x, y, FAST);
    SquareLe(1.0, k);
  }

  lemma GapOne(k: real, x: seq<int>, y: seq<int>, v: int)
    requires |x| > 0 && |y| > 0 && IsKs(k, x, y) && CountLe(x, v) == |x| && CountLe(y, v) == 0
    ensures k >= 1.0
  {
    WholeAndNone(|x|);
    WholeAndNone(|y|);
    assert Gap(x, y, v) <= k;
  }

  // Their sums.

  lemma {:induction false} SumCopies(n: nat, v: int)
    ensures Sum(Copies(n, v)) == n * v
  {
    if n > 0 {
      SumCopies(n - 1, v);
      assert Copies(n, v)[..n - 1] == Copies(n - 1, v);
    }
  }

  /** Fast ones and then slow ones: the sums of the values and of their squares. */
  lemma SumsOfTwo(i: nat, j: nat)
    ensures var s := Copies(i, FAST) + Copies(j, SLOW);
            && Sum(s) == i * FAST + j * SLOW
            && Sum(Pearson.Squares(s)) == i * (FAST * FAST) + j * (SLOW * SLOW)
  {
    SumConcat(Copies(i, FAST), Copies(j, SLOW));
    SumCopies(i, FAST);
    SumCopies(j, SLOW);
    SumConcat(Copies(i, FAST * FAST), Copies(j, SLOW * SLOW));
    SumCopies(i, FAST * FAST);
    SumCopies(j, SLOW * SLOW);
    assert Pearson.Squares(Copies(i, FAST) + Copies(j, SLOW)) == Copies(i, FAST * FAST) + Copies(j, SLOW * SLOW);
  }

  /** The sum of squares wraps around, the variance becomes negative, and the coefficient is not a number. */
  lemma SlowedNotANumber(sqrt: real -> real)
    ensures Pearson.ComputedCorrelation(SlowedLatencies(), sqrt) == Pearson.NotANumber
    ensures !Pearson.NoOverflow(SlowedLatencies())
  {
    hide Sum, Pearson.Squares, Pearson.ComputedCorrelation;
    var lat := SlowedLatencies();
    var mid := lat[1..13];
    assert mid == Copies(6, FAST) + Copies(6, SLOW) && Pearson.Lead(lat) == Copies(7, FAST) + Copies(6, SLOW);
    SumsOfTwo(6, 6);
    SumsOfTwo(7, 6);
    var sum, squares := ToUint64(Sum(mid)), ToUint64(Sum(Pearson.Squares(mid)));
    assert sum == 6 * FAST + 6 * SLOW;
    assert squares == 6 * (FAST * FAST) + 6 * (SLOW * SLOW) - TWO_64;
    assert ToUint64(squares + FAST * FAST) == squares + FAST * FAST;
    assert Pearson.ComputedVariance(sum, squares, FAST, 13) < 0.0;
    Pearson.NegativeVariance(lat, sum, squares, sqrt);
  }

  // The coefficient they really have.

  function RepeatReal(n: nat, x: real): (r: seq<real>)
    ensures |r| == n && forall i :: 0 <= i < n ==> r[i] == x
  {
    seq(n, _ => x)
  }

  lemma {:induction false} TotalConcat(a: seq<real>, b: seq<real>)
    ensures Pearson.Total(a + b) == Pearson.Total(a) + Pearson.Total(b)
  {
    if b == [] {
      assert a + b == a;
    } else {
      var n := |b| - 1;
      TotalConcat(a, b[..n]);
      assert (a + b)[..|a + b| - 1] == a + b[..n];
    }
  }

  lemma {:induction false} TotalRepeat(n: nat, x: real)
    ensures Pearson.Total(RepeatReal(n, x)) == n as real * x
  {
    if n > 0 {
      TotalRepeat(n - 1, x);
      assert RepeatReal(n, x)[..n - 1] == RepeatReal(n - 1, x);
    }
  }

  /** The total of six, one and six equal products. */
  lemma TotalOfThree(p: seq<real>, a: real, b: real, c: real)
    requires p == RepeatReal(6, a) + RepeatReal(1, b) + RepeatReal(6, c)
    ensures Pearson.Total(p) == 6.0 * a + b + 6.0 * c
  {
    hide RepeatReal;
    TotalConcat(RepeatReal(6, a) + RepeatReal(1, b), RepeatReal(6, c));
    TotalConcat(RepeatReal(6, a), RepeatReal(1, b));
    TotalRepeat(6, a);
    TotalRepeat(1, b);
    TotalRepeat(6, c);
  }

  /** A dot product of two series that change at the sixth or the seventh place. */
  lemma DotOfThree(x: seq<int>, y: seq<int>, mx: real, my: real, xMid: int, yMid: int)
    requires x == Copies(6, FAST) + Copies(1, xMid) + Copies(6, SLOW)
    requires y == Copies(6, FAST) + Copies(1, yMid) + Copies(6, SLOW)
    ensures |x| == |y|
    ensures Pearson.Dot(Pearson.Centred(x, mx), Pearson.Centred(y, my))
         == 6.0 * ((FAST as real - mx) * (FAST as real - my)) + (xMid as real - mx) * (yMid as real - my)
            + 6.0 * ((SLOW as real - mx) * (SLOW as real - my))
  {
    var a, b, c := (FAST as real - mx) * (FAST as real - my), (xMid as real - mx) * (yMid as real - my),
                   (SLOW as real - mx) * (SLOW as real - my);
    var u, v := Pearson.Centred(x, mx), Pearson.Centred(y, my);
    var p := Pearson.Products(u, v);
    var q := RepeatReal(6, a) + RepeatReal(1, b) + RepeatReal(6, c);
    forall i | 0 <= i < 13 ensures p[i] == q[i] {
      assert p[i] == u[i] * v[i];
      if i < 6 {
        assert u[i] == FAST as real - mx && v[i] == FAST as real - my && q[i] == a;
      } else if i == 6 {
        assert u[i] == xMid as real - mx && v[i] == yMid as real - my && q[i] == b;
      } else {
        assert u[i] == SLOW as real - mx && v[i] == SLOW as real - my && q[i] == c;
      }
    }
    assert p == q;
    TotalOfThree(p, a, b, c);
  }

  /** The variances and the covariance, in units of the squared difference. */
  lemma SlowedMoments()
    ensures var (x, y) := (Pearson.Lead(SlowedLatencies()), Pearson.Lag(SlowedLatencies()));
            var d := (SLOW - FAST) as real * (SLOW - FAST) as real;
            && |x| == |y| == 13
            && Pearson.Variance(x) == 42.0 * d / 169.0 && Pearson.Variance(y) == 42.0 * d / 169.0
            && Pearson.Covariance(x, y) == 36.0 * d / 169.0
  {
    hide Sum, Pearson.Dot;
    var x, y := Pearson.Lead(SlowedLatencies()), Pearson.Lag(SlowedLatencies());
    assert x == Copies(7, FAST) + Copies(6, SLOW) && y == Copies(6, FAST) + Copies(7, SLOW);
    assert x == Copies(6, FAST) + Copies(1, FAST) + Copies(6, SLOW);
    assert y == Copies(6, FAST) + Copies(1, SLOW) + Copies(6, SLOW);
    SumsOfTwo(7, 6);
    SumsOfTwo(6, 7);
    var mx, my := Pearson.Mean(x), Pearson.Mean(y);
    DotOfThree(x, x, mx, mx, FAST, FAST);
    DotOfThree(y, y, my, my, SLOW, SLOW);
    DotOfThree(x, y, mx, my, FAST, SLOW);
  }

  /** The latencies are strongly correlated: whatever their coefficient is called, it is over a quarter. */
  lemma SlowedCorrelated(c: Pearson.Double)
    requires |Pearson.Lead(SlowedLatencies())| == |Pearson.Lag(SlowedLatencies())| > 0
    requires Pearson.IsCorrelation(c, Pearson.Lead(SlowedLatencies()), Pearson.Lag(SlowedLatencies()))
    ensures Coordinator.Above(c, 0.25)
  {
    hide Pearson.Variance, Pearson.Covariance, Pearson.Lead, Pearson.Lag;
    SlowedRatio();
    var x, y := Pearson.Lead(SlowedLatencies()), Pearson.Lag(SlowedLatencies());
    QuarterOf(c.value, Pearson.Variance(x) * Pearson.Variance(y), Pearson.Covariance(x, y) * Pearson.Covariance(x, y));
  }

  lemma SlowedRatio()
    ensures var (x, y) := (Pearson.Lead(SlowedLatencies()), Pearson.Lag(SlowedLatencies()));
            && |x| == |y| > 0
            && Pearson.Variance(x) > 0.0 && Pearson.Variance(y) > 0.0 && Pearson.Covariance(x, y) > 0.0
            && Pearson.Variance(x) * Pearson.Variance(y) > 0.0
            && Pearson.Covariance(x, y) * Pearson.Covariance(x, y)
               == 36.0 / 49.0 * (Pearson.Variance(x) * Pearson.Variance(y))
  {
    hide Pearson.Variance, Pearson.Covariance, Pearson.Lead, Pearson.Lag;
    SlowedMoments();
  }

  lemma QuarterOf(r: real, f: real, q: real)
    requires f > 0.0 && 0.0 <= r && r * r * f == q && q == 36.0 / 49.0 * f
    ensures r > 0.25
  {
    ScaleIff(0.0625, r * r, f);
    SquareOrder(r, 0.25);
  }

  // What the coordinator makes of it.

  /** The reply is made from the summary as the manager does. */
  ghost predicate Carries(reply: LatencyReply, r: Option<Percentiles.Summary>) {
    r.Some? && exists rx, tx, duration :: reply == Reporting.AsLatency(rx, tx, duration, r.value)
  }

  /**
   An agent whose threads hold these 14 samples reports that they did not converge and a correlation that is not a
   number, although their coefficient is over a quarter; the coordinator accepts the round, for every size of interval.
   */
  lemma SlowedAccepted(r: Option<Percentiles.Summary>, conv: bool, corr: Pearson.Double, sqrt: real -> real,
                       reply: LatencyReply, setup: Coordinator.Setup, round: Coordinator.Round)
    requires Reporting.Reports(r, Latencies(Slowed())) && Reporting.ConvergenceAbout(conv, Slowed())
    requires Reporting.CorrelationAbout(corr, Slowed(), sqrt) && Carries(reply, r)
    requires setup.ciSize >= 0 && round.latency == [reply] && round.correlations == [corr]
    ensures !conv && corr == Pearson.NotANumber
    ensures Coordinator.LatencyOk(setup, round)
  {
    hide Pearson.ComputedCorrelation, Reporting.ConvergenceAbout, Pearson.NoOverflow, Pearson.IsCorrelation, InTxOrder,
         Reporting.Reports, Carries, Coordinator.LatencyOk;
    SlowedNotConverged(conv);
    var t :| InTxOrder(t) && multiset(t) == multiset(Slowed()) && Reporting.CorrelationOf(corr, Latencies(t), sqrt);
    OneOrder(t);
    SlowedValues();
    SlowedNotANumber(sqrt);
    CarriesShort(reply, r);
    EndToEnd.ShortMeasurementsPass([reply], setup.ciSize);
    CoordinatorRuns.AcceptedIff(setup, round);
  }

  /** Fourteen samples: the reply's last upper bound is zero, the lower one a sample. */
  lemma CarriesShort(reply: LatencyReply, r: Option<Percentiles.Summary>)
    requires Reporting.Reports(r, Latencies(Slowed())) && Carries(reply, r)
    ensures reply.p99.k == 0 < reply.p99.i < 0x1000_0000_0000
  {
    hide Percentiles.EstimatesOf, Sum;
    SlowedValues();
    assert r.value.p99.low in SlowedLatencies();
  }

  /** Every round of such an agent, its throughput on target. */
  function SlowedRound(reply: LatencyReply): Coordinator.Environment {
    k => Coordinator.Round(true, true, [ThroughputReply(0, 0, 1000, 1000000)], [reply], [0], [Pearson.NotANumber])
  }

  /** The whole experiment succeeds, although no measurement converged and all were correlated. */
  lemma SuccessWithoutConvergence(r: Option<Percentiles.Summary>, conv: bool, corr: Pearson.Double, sqrt: real -> real,
                                  reply: LatencyReply, ciSize: nat, bits: real -> nat)
    requires Reporting.Reports(r, Latencies(Slowed())) && Reporting.ConvergenceAbout(conv, Slowed())
    requires Reporting.CorrelationAbout(corr, Slowed(), sqrt) && Carries(reply, r)
    ensures !conv && corr == Pearson.NotANumber
    ensures var setup, env := Coordinator.Setup(1, 1000, ciSize, bits), SlowedRound(reply);
            && Coordinator.Replies(setup, env)
            && Coordinator.Fixed(Coordinator.INITIAL_SAMPLES, Coordinator.INITIAL_RATE, setup, true, env).result
               == Coordinator.Success
  {
    hide Reporting.Reports, Reporting.ConvergenceAbout, Reporting.CorrelationAbout, Coordinator.LatencyOk,
         Coordinator.ThroughputOk;
    var setup, env := Coordinator.Setup(1, 1000, ciSize, bits), SlowedRound(reply);
    SlowedAccepted(r, conv, corr, sqrt, reply, setup, env(1).(correlations := [corr]));
    OnTarget(setup, env(0));
    assert CoordinatorRuns.Trail(setup, env, 0, 1) && CoordinatorRuns.EndsAs(setup, env, 0, 1, Coordinator.Success);
    CoordinatorRuns.ResultIff(setup, env, Coordinator.Success);
  }

  /** A thousand requests in a second are on target for a load of a thousand. */
  lemma OnTarget(setup: Coordinator.Setup, round: Coordinator.Round)
    requires setup.loadRate == 1000 && round.throughput == [ThroughputReply(0, 0, 1000, 1000000)]
    ensures Coordinator.ThroughputOk(setup, round)
  {
    var rs := round.throughput;
    assert rs[..0] == [];
    SumOfOne(rs[0], (r: ThroughputReply) => r.reqCount);
    assert AgentStats.AggregateThroughput(rs).reqCount == 1000;
    Coordinator.OnTargetIff(AgentStats.AggregateThroughput(rs), 1000);
  }

  lemma SumOfOne<T>(x: T, f: T -> nat)
    ensures AgentStats.SumOf([x], f) == f(x)
  {
    assert [x][..0] == [];
  }

  // A single thread asked for more samples than it can hold.

  /** A user-space agent on target whose interval stays 100 microseconds wide. */
  function WideRound(k: nat): Coordinator.Round {
    var th := ThroughputReply(0, 0, 1000, 1000000);
    var reply := LatencyReply(th, 60_000, Triple(49_000, 50_000, 51_000), Triple(80_000, 90_000, 100_000),
                              Triple(100_000, 120_000, 140_000), Triple(150_000, 200_000, 250_000));
    Coordinator.Round(true, true, [th], [reply], [], [])
  }

  lemma WideRejected(setup: Coordinator.Setup, k: nat)
    requires setup.ciSize == 10
    ensures Coordinator.JudgeLatency(setup, WideRound(k)) == Coordinator.TooWide
  {
    var rs := WideRound(k).latency;
    SumOfOne(rs[0], (r: LatencyReply) => r.p99.i);
    SumOfOne(rs[0], (r: LatencyReply) => r.p99.k);
    assert AgentStats.AggregateLatency(rs).p99.i == 150_000 && AgentStats.AggregateLatency(rs).p99.k == 250_000;
  }

  /** From its `t`-th try on, the run still comes to ask for 200000 samples. */
  lemma {:induction false} WideRun(setup: Coordinator.Setup, t: nat, k: nat) returns (c: Command)
    requires Coordinator.Replies(setup, WideRound) && setup.ciSize == 10 && t < Coordinator.MAX_TRIES
    ensures c.StartMeasure? && c.samples == 200000
    ensures c in Coordinator.Run(Coordinator.State(Coordinator.WaitForLatency, 10000 * (t + 1),
                                                   Coordinator.INITIAL_RATE, t), setup, WideRound, k).sent
    decreases Coordinator.MAX_TRIES - t
  {
    hide Coordinator.JudgeLatency, Coordinator.ThroughputOk;
    var st := Coordinator.State(Coordinator.WaitForLatency, 10000 * (t + 1), Coordinator.INITIAL_RATE, t);
    WideRejected(setup, k);
    Coordinator.RunRound(st, setup, WideRound, k);
    if t == Coordinator.MAX_TRIES - 1 {
      c := Coordinator.MeasureCommand(setup, st.samples, st.rate);
    } else {
      c := WideRun(setup, t + 1, k + 1);
    }
  }

  /** The adaptive experiment can ask for 200000 samples; an agent with one thread then aborts, whatever it holds. */
  lemma SingleThreadAborts(bits: real -> nat, w: Manager.World, cfg: Manager.Config)
    requires cfg.threads == 1 && Manager.Monotone(w.clock)
    ensures var setup := Coordinator.Setup(1, 1000, 10, bits);
            && Coordinator.Replies(setup, WideRound)
            && (var cs := EndToEnd.SentBy(setup, true, WideRound);
                Manager.ServeBytes(Manager.INITIAL, EncodeCommands(cs), w, 0, cfg).ended == Manager.Aborted)
  {
    hide Coordinator.Run, Manager.Serve, Manager.ServeBytes, Manager.Conversation, Coordinator.ThroughputOk,
         Manager.PerThreadSamples;
    var setup := Coordinator.Setup(1, 1000, 10, bits);
    var st := Coordinator.State(Coordinator.WaitForThroughput, Coordinator.INITIAL_SAMPLES,
                                Coordinator.INITIAL_RATE, 0);
    OnTarget(setup, WideRound(0));
    Coordinator.RunRound(st, setup, WideRound, 0);
    var c := WideRun(setup, 0, 1);
    var cs := EndToEnd.SentBy(setup, true, WideRound);
    assert c in cs;
    CoordinatorRuns.SentIsConversation(setup, true, WideRound);
    EndToEnd.UntilServed(cs, 200000, w, cfg);
    var i :| 0 <= i < |cs| && cs[i] == c;
    Manager.CapAcceptedIff(200000, 1);
    assert !Manager.Acceptable(cfg, cs[i], w.held(i));
    EndToEnd.SentFits(setup, true, WideRound);
    Manager.BytesDriveLikeCommands(Manager.INITIAL, cs, w, 0, cfg);
  }

  // Measurements whose report the agent does not survive.

  /** The shortest experiment: load, one measurement, one report. */
  function OneReport(load: nat, rateBits: nat, kind: nat): seq<Command> {
    [StartLoad(load), StartMeasure(10000, rateBits), ReportReq(kind)]
  }

  /** An agent whose threads live and whose load can be set, up to the report. */
  ghost predicate Prepared(w: Manager.World, cfg: Manager.Config) {
    2 <= cfg.threads <= MAX_STATS_THREADS && cfg.averaged && w.held(0).alive && w.held(1).alive
  }

  lemma OneReportAborts(load: nat, rateBits: nat, kind: nat, w: Manager.World, cfg: Manager.Config)
    requires Prepared(w, cfg) && kind in {REPORT_THROUGHPUT, REPORT_LATENCY}
    requires !Manager.Reportable(cfg, kind, w.held(2))
    ensures Manager.Conversation(OneReport(load, rateBits, kind), 200000)
    ensures var r := Manager.Serve(Manager.INITIAL, OneReport(load, rateBits, kind), w, 0, cfg);
            r.ended == Manager.Aborted && r.answers == [Manager.Ack, Manager.Ack]
  {
    hide Manager.Reportable, Manager.PerThreadSamples;
    var cs := OneReport(load, rateBits, kind);
    Manager.CapInRange(10000, cfg.threads);
    var c1, c2 := cs[1..], cs[1..][1..];
    assert c1[0] == cs[1] && c2 == cs[2..] && c2[0] == cs[2] && c2[1..] == [];
    assert Manager.Rounds([], 200000);
    var o0 := Manager.Handle(Manager.INITIAL, cs[0], w.clock(0), cfg, w.held(0));
    var o1 := Manager.Handle(o0.st, c1[0], w.clock(1), cfg, w.held(1));
    assert Manager.Handle(o1.st, c2[0], w.clock(2), cfg, w.held(2)).Abort?;
    assert Manager.Serve(o1.st, c2, w, 2, cfg) == Manager.Served([], Manager.Aborted, o1.st);
    assert Manager.Serve(o0.st, c1, w, 1, cfg).answers == [Manager.Ack];
  }

  /** A latency report on a measurement that recorded nothing. */
  lemma EmptyMeasurementAborts(load: nat, rateBits: nat, w: Manager.World, cfg: Manager.Config)
    requires Prepared(w, cfg) && IsSqrt(cfg.sqrt) && w.held(2).samples == 0
    ensures var r := Manager.Serve(Manager.INITIAL, OneReport(load, rateBits, REPORT_LATENCY), w, 0, cfg);
            r.ended == Manager.Aborted && r.answers == [Manager.Ack, Manager.Ack]
  {
    hide Manager.Reportable;
    Manager.ReportableIff(cfg, REPORT_LATENCY, w.held(2));
    OneReportAborts(load, rateBits, REPORT_LATENCY, w, cfg);
  }

  /** Either report of a hardware-timed agent with 17 threads or more whose rings of transmission times are full. */
  lemma FullRingsAbort(load: nat, rateBits: nat, kind: nat, w: Manager.World, cfg: Manager.Config,
                       live: seq<seq<Timespec>>)
    requires Prepared(w, cfg) && cfg.agent == Manager.SymmetricNicAgent && kind in {REPORT_THROUGHPUT, REPORT_LATENCY}
    requires |live| == cfg.threads > MAX_THREADS && w.held(2).times == InterArrival.Concat(live)
    requires forall i :: 0 <= i < |live| ==> |live[i]| == MAX_PER_THREAD_TX_SAMPLES
    ensures var r := Manager.Serve(Manager.INITIAL, OneReport(load, rateBits, kind), w, 0, cfg);
            r.ended == Manager.Aborted && r.answers == [Manager.Ack, Manager.Ack]
  {
    hide InterArrival.ComplianceRuns, InterArrival.Concat;
    Manager.FullRingsFitIff(live);
    OneReportAborts(load, rateBits, kind, w, cfg);
  }

  // Intervals that invert.

  /**
   Two agents with valid intervals, the upper bounds of which are a latency of minus a microsecond and one of a
   microsecond: the aggregated interval is inverted. So it is if the first agent has measured nothing else.
   */
  lemma NegativeLatencyInverts(a: LatencyReply, b: LatencyReply)
    requires b.p99 == Triple(500, 700, 1000)
    ensures a.p99 == Triple(500, 700, TWO_64 - 1000) ==>
              AgentStats.AggregateLatency([a, b]).p99 == Triple(500, 700, 0)
    ensures a.p99 == Triple(TWO_64 - 1000, TWO_64 - 1000, TWO_64 - 1000) ==>
              AgentStats.AggregateLatency([a, b]).p99 == Triple(TWO_64 / 2 - 250, TWO_64 / 2 - 150, 0)
  {
    hide AgentStats.AggregateLatency;
    if a.p99 == Triple(500, 700, TWO_64 - 1000) || a.p99 == Triple(TWO_64 - 1000, TWO_64 - 1000, TWO_64 - 1000) {
      AgentStats.OverflowInverts(a, b, 1000);
    }
  }
}

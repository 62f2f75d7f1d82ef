/** The manager's reports, from the rings of the threads to the numbers it sends. */
module Reporting {
  import opened Numeric
  import opened Comparators
  import opened Sorting
  import opened ThreadStats
  import Wire
  import WireLayout
  import Percentiles
  import KsStatistic
  import Verdicts
  import InterArrival
  import Pearson
  import Manager

  // From the rings of the threads to the reported percentiles.

  /** What the manager reports about the latencies `all`, in whatever order they are listed. */
  ghost predicate Reports(r: Option<Percentiles.Summary>, all: seq<int>) {
    var n := |all|;
    && (r.Some? <==> n >= 4)
    && (4 <= n ==> r.value.avg == Sum(all) % TWO_64 / n)
    && (4 <= n < 726 ==> r.value.p99.high == 0 && r.value.p99.low in all)
    && (4 <= n && Narrow(all) ==> Percentiles.EstimatesOf(r.value, all))
    && (726 <= n && Narrow(all) ==> Percentiles.AllBracket(r.value))
  }

  lemma RankPermutes(s: seq<int>, t: seq<int>, k: int, v: int)
    requires multiset(s) == multiset(t) && Percentiles.HasRank(s, k, v)
    ensures Percentiles.HasRank(t, k, v)
  {
    KsStatistic.CountLePermutation(s, t, v);
    KsStatistic.CountLePermutation(s, t, v - 1);
  }

  lemma EstimatePermutes(e: Percentiles.Estimate, s: seq<int>, t: seq<int>, pct: nat)
    requires multiset(s) == multiset(t) && |s| == |t| && Percentiles.EstimateOf(e, s, pct)
    ensures Percentiles.EstimateOf(e, t, pct)
  {
    hide Percentiles.HasRank, Percentiles.LowerPosition, Percentiles.UpperPosition;
    var n := |s|;
    var i, k :| Percentiles.LowerPosition(i, n, pct) && Percentiles.UpperPosition(k, n, pct)
                && Percentiles.HasRank(s, i, e.low)
                && if k < n then Percentiles.HasRank(s, k, e.high) else e.high == 0;
    RankPermutes(s, t, n * pct / 100, e.mid);
    RankPermutes(s, t, i, e.low);
    if k < n {
      RankPermutes(s, t, k, e.high);
    }
  }

  lemma EstimatesPermute(r: Percentiles.Summary, s: seq<int>, t: seq<int>)
    requires multiset(s) == multiset(t) && |s| == |t| && Percentiles.EstimatesOf(r, s)
    ensures Percentiles.EstimatesOf(r, t)
  {
    hide Percentiles.EstimateOf;
    EstimatePermutes(r.p50, s, t, 50);
    EstimatePermutes(r.p90, s, t, 90);
    EstimatePermutes(r.p95, s, t, 95);
    EstimatePermutes(r.p99, s, t, 99);
  }

  /** The summary of a buffer reports about the samples in it. */
  lemma SummaryReports(buf: seq<int>, size: nat, all: seq<int>, sqrt: real -> real)
    requires IsSqrt(sqrt) && size <= |buf| == AGG_SAMPLE_SIZE
    requires Narrow(all) ==> Percentiles.SortedPrefix(buf, size)
    requires forall i :: size <= i < |buf| ==> buf[i] == 0
    requires |all| == size && multiset(all) == multiset(buf[..size])
    ensures Reports(Percentiles.Summarise(buf, size, Percentiles.PositionsFor(size, sqrt)), all)
  {
    hide Percentiles.Summarise, Percentiles.PositionsFor, Percentiles.EstimatesOf, Percentiles.AllBracket, Narrow, Sum;
    var ps := Percentiles.PositionsFor(size, sqrt);
    Percentiles.SummaryExistsIff(buf, size, sqrt);
    if size >= 4 {
      Percentiles.MeanReported(buf, size, ps, all);
      var r := Percentiles.Summarise(buf, size, ps).value;
      if size < 726 {
        Percentiles.SummaryBelow726(buf, size, sqrt);
        assert r.p99.low in multiset(all);
      } else if Narrow(all) {
        Percentiles.SummaryRanked(buf, size, sqrt);
      }
      if Narrow(all) {
        Percentiles.EstimatesMeet(buf, size, sqrt);
        EstimatesPermute(r, buf[..size], all);
      }
    }
  }

  /**
   `collect_latency_stats`: the reported percentiles are those of the last `cap` samples of every thread, provided
   there are at least 726 of them.
   */
  method CollectLatencyStats(agg: Aggregate, threads: seq<Stats>, cap: nat, sqrt: real -> real,
                             ghost cs: seq<Contribution>, ghost histories: seq<seq<LatSample>>,
                             ghost all: seq<LatSample>)
    returns (r: Option<Percentiles.Summary>)
    requires agg.samples.Length == AGG_SAMPLE_SIZE && |threads| * cap <= AGG_SAMPLE_SIZE && IsSqrt(sqrt)
    requires Describes(cs, threads) && |histories| == |threads|
    requires forall i :: 0 <= i < |threads| ==> threads[i].Valid(cap) && threads[i].history == histories[i]
    requires forall i :: 0 <= i < |threads| ==> threads[i] as object != agg && threads[i].samples != agg.samples
    requires multiset(all) == Retained(histories, cap)
    modifies agg, agg.samples
    ensures Reports(r, Latencies(all)) && agg.size == |all| && Totals(agg.rx, agg.tx, cs)
    ensures agg.size <= agg.samples.Length && multiset(agg.samples[..agg.size]) == multiset(all)
  {
    hide Percentiles.Summarise, Percentiles.PositionsFor, SortBy, Reports, IsSqrt;
    ContributionsRetained(cs, threads, histories, cap);
    agg.AggregateLatency(threads, cs);
    ghost var live := Joined(cs).live;
    assert agg.samples[..agg.size] == live;
    assert multiset(live) == multiset(all);
    r := Percentiles.ComputePercentilesCi(agg.samples, agg.size, sqrt);
    SortedReports(live, agg.samples[..], agg.size, all, sqrt);
  }

  lemma SortedReports(live: seq<LatSample>, buf: seq<LatSample>, size: nat, all: seq<LatSample>, sqrt: real -> real)
    requires IsSqrt(sqrt) && |buf| == AGG_SAMPLE_SIZE && size == |live| <= |buf|
    requires multiset(live) == multiset(all)
    requires buf[..size] == SortBy(live, SampleCmpLatency)
    requires Narrow(Latencies(live)) ==> Percentiles.SortedPrefix(Latencies(buf), size)
    requires forall i :: size <= i < |buf| ==> buf[i] == ZERO_SAMPLE
    ensures |all| == size
    ensures Reports(Percentiles.Summarise(Latencies(buf), size, Percentiles.PositionsFor(size, sqrt)), Latencies(all))
  {
    hide Percentiles.Summarise, Percentiles.PositionsFor, SortBy, Reports, IsSqrt, Narrow, Percentiles.SortedPrefix;
    var sorted := buf[..size];
    assert multiset(sorted) == multiset(all);
    assert |multiset(sorted)| == |sorted| && |multiset(all)| == |all|;
    if Narrow(Latencies(all)) {
      NarrowPermutes(all, live);
    }
    Verdicts.LatenciesPermute(all, sorted);
    assert Latencies(buf)[..size] == Latencies(sorted);
    SummaryReports(Latencies(buf), size, Latencies(all), sqrt);
  }

  lemma NarrowWithin(s: seq<LatSample>, t: seq<LatSample>)
    requires Narrow(Latencies(s)) && forall x :: x in t ==> x in s
    ensures Narrow(Latencies(t))
  {
    forall i, j | 0 <= i < |t| && 0 <= j < |t| ensures Latencies(t)[i] - Latencies(t)[j] < TWO_31 {
      assert t[i] in s && t[j] in s;
      var k :| 0 <= k < |s| && s[k] == t[i];
      var l :| 0 <= l < |s| && s[l] == t[j];
      assert Latencies(s)[k] - Latencies(s)[l] < TWO_31;
    }
  }

  lemma NarrowPermutes(s: seq<LatSample>, t: seq<LatSample>)
    requires multiset(s) == multiset(t) && Narrow(Latencies(s))
    ensures Narrow(Latencies(t))
  {
    hide Narrow;
    forall x | x in t ensures x in s {
      assert x in multiset(s);
    }
    NarrowWithin(s, t);
  }

  // The verdicts that accompany them.

  /** `a` and `b` are the earlier and the later half of `all`; of an odd number the last one sent is left out. */
  ghost predicate Halves(a: seq<LatSample>, b: seq<LatSample>, rest: seq<LatSample>, all: seq<LatSample>) {
    && |a| == |b| == |all| / 2 && multiset(a + b + rest) == multiset(all)
    && forall x, y :: x in a && y in b ==> NotAfter(x.tx, y.tx)
  }

  /** The convergence verdict compares the earlier with the later half of the samples `all`. */
  ghost predicate ConvergenceAbout(conv: bool, all: seq<LatSample>)
    requires |all| >= 2
  {
    exists a, b, rest :: Halves(a, b, rest, all) && Verdicts.IsConvergenceVerdict(conv, Latencies(a), Latencies(b))
  }

  /** The correlation is what is computed from the successive latencies of `all` in an order of transmission. */
  ghost predicate CorrelationAbout(corr: Pearson.Double, all: seq<LatSample>, sqrt: real -> real) {
    exists t :: InTxOrder(t) && multiset(t) == multiset(all) && CorrelationOf(corr, Latencies(t), sqrt)
  }

  /** Without overflow that is the correlation coefficient. */
  ghost predicate CorrelationOf(corr: Pearson.Double, lat: seq<int>, sqrt: real -> real) {
    && |lat| >= 2
    && corr == Pearson.ComputedCorrelation(lat, sqrt)
    && (Pearson.NoOverflow(lat) ==> Pearson.IsCorrelation(corr, Pearson.Lead(lat), Pearson.Lag(lat)))
  }

  lemma HalvesAre(listed: seq<LatSample>, all: seq<LatSample>) returns (rest: seq<LatSample>)
    requires multiset(listed) == multiset(all) && |listed| == |all|
    ensures Halves(Verdicts.EarlyHalf(listed), Verdicts.LateHalf(listed), rest, all)
    ensures Narrow(Latencies(all)) ==>
              Narrow(Latencies(Verdicts.EarlyHalf(listed))) && Narrow(Latencies(Verdicts.LateHalf(listed)))
  {
    hide SortBy, Narrow;
    var sorted, half := SortBy(listed, SampleCmpTx), |listed| / 2;
    var a, b := Verdicts.EarlyHalf(listed), Verdicts.LateHalf(listed);
    Verdicts.HalvesUnfold(listed, sorted, half);
    Verdicts.HalvesInOrder(listed);
    rest := sorted[half + half..];
    assert a + b + rest == sorted;
    forall x | x in a || x in b ensures x in all {
      assert x in multiset(sorted);
      assert x in multiset(all);
    }
    if Narrow(Latencies(all)) {
      NarrowWithin(all, a);
      NarrowWithin(all, b);
    }
  }

  /**
   `reply_latency_stats`: percentiles, convergence and correlation are all about the last `cap` samples of every
   thread, although each step sorts the same buffer anew. Nothing is reported if the percentiles cannot be.
   */
  method ReplyLatencyStats(agg: Aggregate, threads: seq<Stats>, cap: nat, sqrt: real -> real,
                           ghost cs: seq<Contribution>, ghost histories: seq<seq<LatSample>>, ghost all: seq<LatSample>)
    returns (r: Option<Percentiles.Summary>, conv: bool, corr: Pearson.Double)
    requires agg.samples.Length == AGG_SAMPLE_SIZE && |threads| * cap <= AGG_SAMPLE_SIZE && IsSqrt(sqrt)
    requires Describes(cs, threads) && |histories| == |threads|
    requires forall i :: 0 <= i < |threads| ==> threads[i].Valid(cap) && threads[i].history == histories[i]
    requires forall i :: 0 <= i < |threads| ==> threads[i] as object != agg && threads[i].samples != agg.samples
    requires multiset(all) == Retained(histories, cap)
    modifies agg, agg.samples
    ensures Reports(r, Latencies(all)) && Totals(agg.rx, agg.tx, cs)
    ensures r.Some? <==> |all| >= 4
    ensures r.Some? ==> (Narrow(Latencies(all)) ==> ConvergenceAbout(conv, all)) && CorrelationAbout(corr, all, sqrt)
  {
    hide SortBy, Verdicts.EarlyHalf, Verdicts.LateHalf, Verdicts.IsConvergenceVerdict, CorrelationOf, Narrow,
         Retained, Describes, InTxOrder, Percentiles.AllBracket, Percentiles.EstimatesOf;
    r := CollectLatencyStats(agg, threads, cap, sqrt, cs, histories, all);
    if r.None? {
      return r, false, Pearson.NotANumber;
    }
    ghost var listed := agg.samples[..agg.size];
    ghost var rest := HalvesAre(listed, all);
    conv := Verdicts.ComputeConvergence(agg.samples, agg.size, sqrt);
    assert Halves(Verdicts.EarlyHalf(listed), Verdicts.LateHalf(listed), rest, all);
    corr := CorrelateInOrder(agg.samples, agg.size, sqrt, all);
  }

  method CorrelateInOrder(samples: array<LatSample>, size: nat, sqrt: real -> real, ghost all: seq<LatSample>)
    returns (corr: Pearson.Double)
    requires 2 <= size <= samples.Length && IsSqrt(sqrt) && multiset(samples[..size]) == multiset(all)
    modifies samples
    ensures CorrelationAbout(corr, all, sqrt)
  {
    hide SortBy, Pearson.IsCorrelation, Pearson.NoOverflow, Pearson.ComputedCorrelation;
    SampleCmpTxSorts(samples[..size]);
    corr := Pearson.CheckIid(samples, size, sqrt);
    assert CorrelationOf(corr, Latencies(samples[..size]), sqrt);
  }

  // The bytes of the replies.

  function AsThroughput(rx: ByteReqPair, tx: ByteReqPair, duration: nat): Wire.ThroughputReply {
    Wire.ThroughputReply(ToUint64(rx.bytes), ToUint64(tx.bytes), ToUint64(rx.reqs), ToUint64(duration))
  }

  function AsTriple(e: Percentiles.Estimate): Wire.Triple {
    Wire.Triple(ToUint64(e.low), ToUint64(e.mid), ToUint64(e.high))
  }

  /** What `reply_latency_stats` fills in; the requests are those answered, not those sent. */
  function AsLatency(rx: ByteReqPair, tx: ByteReqPair, duration: nat, s: Percentiles.Summary): Wire.LatencyReply {
    Wire.LatencyReply(AsThroughput(rx, tx, duration), ToUint64(s.avg), AsTriple(s.p50), AsTriple(s.p90),
                      AsTriple(s.p95), AsTriple(s.p99))
  }

  /**
   The bytes of a latency reply hold the counters, the mean and the percentiles with their bounds at their places, and
   are read back by the coordinator.
   */
  lemma LatencyInBytes(rx: ByteReqPair, tx: ByteReqPair, duration: nat, s: Percentiles.Summary,
                       t: Option<Wire.Trailer>)
    requires t.Some? ==> t.value.Fits()
    ensures var reply := AsLatency(rx, tx, duration, s);
            var bs := Wire.LatencyBytes(reply, t);
            && |bs| <= Wire.READ_BUFFER && Wire.ParseLatency(bs) == Some((reply, t))
            && WireLayout.Words64At(bs, 12, [ToUint64(rx.bytes), ToUint64(tx.bytes), ToUint64(rx.reqs),
                                             ToUint64(duration), ToUint64(s.avg)])
            && WireLayout.Words64At(bs, 52, [ToUint64(s.p50.low), ToUint64(s.p50.mid), ToUint64(s.p50.high),
                                             ToUint64(s.p90.low), ToUint64(s.p90.mid), ToUint64(s.p90.high)])
            && WireLayout.Words64At(bs, 100, [ToUint64(s.p95.low), ToUint64(s.p95.mid), ToUint64(s.p95.high),
                                              ToUint64(s.p99.low), ToUint64(s.p99.mid), ToUint64(s.p99.high)])
  {
    hide Wire.LatencyBytes, Wire.ParseLatency, WireLayout.Words64At, WireLayout.Words32, WireLayout.TrailerAt,
         Wire.Words64;
    var reply := AsLatency(rx, tx, duration, s);
    AllFit(rx, tx, duration, s);
    Wire.LatencyRoundTrip(reply, t);
    WireLayout.LatencyLayout(reply, t);
  }

  lemma AllFit(rx: ByteReqPair, tx: ByteReqPair, duration: nat, s: Percentiles.Summary)
    ensures Wire.Words64(AsLatency(rx, tx, duration, s).Words())
  {
    hide ToUint64;
    forall x | x in AsLatency(rx, tx, duration, s).Words() ensures x < TWO_64 {
      WordIsRemainder(rx, tx, duration, s, x);
    }
  }

  lemma WordIsRemainder(rx: ByteReqPair, tx: ByteReqPair, duration: nat, s: Percentiles.Summary, x: nat)
    requires x in AsLatency(rx, tx, duration, s).Words()
    ensures exists y :: x == ToUint64(y)
  {
    hide ToUint64;
  }

  // The reports as the command loop sees them.

  /** What live threads hold: their retained samples, listed as `all`, and the transmission times `live`. */
  ghost function HeldBy(all: seq<LatSample>, live: seq<seq<Timespec>>): Manager.Held {
    Manager.Held(true, |all|, InterArrival.Concat(live))
  }

  /** `reply_throughput_stats` and `reply_latency_stats`: computed to the end exactly if the report is possible. */
  method Report(cfg: Manager.Config, kind: nat, agg: Aggregate, threads: seq<Stats>, cap: nat, txs: seq<TxSamples>,
                reference: array<int>, collected: array<int>, ghost cs: seq<Contribution>,
                ghost histories: seq<seq<LatSample>>, ghost all: seq<LatSample>, ghost live: seq<seq<Timespec>>)
    returns (ok: bool)
    requires kind in {Wire.REPORT_THROUGHPUT, Wire.REPORT_LATENCY}
    requires agg.samples.Length == AGG_SAMPLE_SIZE && |threads| * cap <= AGG_SAMPLE_SIZE && IsSqrt(cfg.sqrt)
    requires Describes(cs, threads) && |histories| == |threads|
    requires forall i :: 0 <= i < |threads| ==> threads[i].Valid(cap) && threads[i].history == histories[i]
    requires forall i :: 0 <= i < |threads| ==> threads[i] as object != agg && threads[i].samples != agg.samples
    requires multiset(all) == Retained(histories, cap)
    requires InterArrival.Holds(live, txs)
    requires reference != collected && reference.Length == Verdicts.REFERENCE_IA_SIZE
    requires collected.Length == MAX_THREADS * MAX_PER_THREAD_TX_SAMPLES
    modifies agg, agg.samples, reference, collected
    ensures ok <==> Manager.Reportable(cfg, kind, HeldBy(all, live))
  {
    hide Retained, Describes, InterArrival.ComplianceRuns, InterArrival.Concat;
    RetainedFit(cs, threads, histories, all, cap);
    Manager.ReportableIff(cfg, kind, HeldBy(all, live));
    if kind == Wire.REPORT_LATENCY {
      var r, conv, corr := ReplyLatencyStats(agg, threads, cap, cfg.sqrt, cs, histories, all);
      if r.None? {
        return false;
      }
    } else {
      agg.AggregateThroughput(threads, cs);
    }
    if cfg.agent == Manager.SymmetricNicAgent {
      var ia := InterArrival.CheckIa(txs, reference, collected, cfg.sqrt, live);
      return ia.Some?;
    }
    return true;
  }

  lemma RetainedFit(cs: seq<Contribution>, threads: seq<Stats>, histories: seq<seq<LatSample>>, all: seq<LatSample>,
                    cap: nat)
    requires Describes(cs, threads) && |histories| == |threads| && |threads| * cap <= AGG_SAMPLE_SIZE
    requires forall i :: 0 <= i < |threads| ==> threads[i].Valid(cap) && threads[i].history == histories[i]
    requires multiset(all) == Retained(histories, cap)
    ensures |all| <= AGG_SAMPLE_SIZE
  {
    ContributionsRetained(cs, threads, histories, cap);
    assert |all| == |multiset(all)| == |multiset(Joined(cs).live)| == |Joined(cs).live|;
  }
}

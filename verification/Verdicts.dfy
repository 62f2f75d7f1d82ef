/** The two-sample statistics on the manager's arrays, and the convergence verdict. */
module Verdicts {
  import opened Numeric
  import opened Sorting
  import opened Comparators
  import opened KsStatistic
  import opened KsMerge

  const CA := 1.858
  const REFERENCE_IA_SIZE := 8192

  /** `ks`: sorts the first `aLen` and `bLen` values in place and merges them. */
  method Ks(a: array<int>, b: array<int>, aLen: nat, bLen: nat) returns (maxDiff: real)
    requires a != b && aLen <= a.Length && bLen <= b.Length
    modifies a, b
    ensures a[..aLen] == SortBy(old(a[..aLen]), LongCompare) && b[..bLen] == SortBy(old(b[..bLen]), LongCompare)
    ensures aLen > 0 && bLen > 0 && Narrow(old(a[..aLen])) && Narrow(old(b[..bLen])) ==>
              IsMergeKs(maxDiff, old(a[..aLen]), old(b[..bLen]))
    ensures aLen == 0 || bLen == 0 ==> maxDiff == 0.0
    ensures 0.0 <= maxDiff
  {
    hide IsMergeKs;
    ghost var sa, sb := a[..aLen], b[..bLen];
    Qsort(a, 0, aLen, LongCompare);
    assert b[..bLen] == sb;
    Qsort(b, 0, bLen, LongCompare);
    assert a[..aLen] == SortBy(sa, LongCompare);
    maxDiff := MergeKs(a[..aLen], b[..bLen]);
    if aLen > 0 && bLen > 0 && Narrow(sa) && Narrow(sb) {
      SortedMergeIsKs(sa, sb, maxDiff);
    }
  }

  lemma SortedMergeIsKs(a: seq<int>, b: seq<int>, d: real)
    requires |a| > 0 && |b| > 0 && Narrow(a) && Narrow(b)
    requires var (sa, sb) := (SortBy(a, LongCompare), SortBy(b, LongCompare));
             Ascending(sa) && Ascending(sb) ==> IsMergeKs(d, sa, sb)
    ensures IsMergeKs(d, a, b)
  {
    LongCompareSorts(a);
    LongCompareSorts(b);
    SamePermutationSameGaps(a, b, SortBy(a, LongCompare), SortBy(b, LongCompare), d);
  }

  /** The two `qsort` calls of `ks_lts`, on adjacent stretches of one array. */
  method SortHalves(s: array<LatSample>, n: nat)
    requires n + n <= s.Length
    modifies s
    ensures s[..n] == SortBy(old(s[..n]), SampleCmpLatency)
    ensures s[n..n + n] == SortBy(old(s[n..n + n]), SampleCmpLatency)
    ensures forall i :: n + n <= i < s.Length ==> s[i] == old(s[i])
  {
    hide SortBy;
    ghost var second := s[n..n + n];
    Qsort(s, 0, n, SampleCmpLatency);
    ghost var first := s[..n];
    assert s[n..n + n] == second;
    Qsort(s, n, n, SampleCmpLatency);
    assert s[n..n + n] == SortBy(second, SampleCmpLatency);
    assert s[..n] == first;
  }

  /** `ks_lts` on two adjacent stretches of `n` samples of one array. */
  method KsLts(s: array<LatSample>, n: nat) returns (maxDiff: real)
    requires n + n <= s.Length
    modifies s
    ensures multiset(s[..n]) == multiset(old(s[..n])) && multiset(s[n..n + n]) == multiset(old(s[n..n + n]))
    ensures forall i :: n + n <= i < s.Length ==> s[i] == old(s[i])
    ensures var (a, b) := (Latencies(old(s[..n])), Latencies(old(s[n..n + n])));
            n > 0 && Narrow(a) && Narrow(b) ==> IsMergeKs(maxDiff, a, b)
    ensures n == 0 ==> maxDiff == 0.0
    ensures 0.0 <= maxDiff
  {
    hide IsMergeKs, Narrow, Ascending;
    ghost var sa, sb := s[..n], s[n..n + n];
    SortHalves(s, n);
    maxDiff := MergeKs(Latencies(s[..n]), Latencies(s[n..n + n]));
    if n > 0 && Narrow(Latencies(sa)) && Narrow(Latencies(sb)) {
      SortedLatenciesMerge(sa, sb, maxDiff);
    }
  }

  lemma SortedLatenciesMerge(a: seq<LatSample>, b: seq<LatSample>, d: real)
    requires |a| > 0 && |b| > 0 && Narrow(Latencies(a)) && Narrow(Latencies(b))
    requires var (x, y) := (Latencies(SortBy(a, SampleCmpLatency)), Latencies(SortBy(b, SampleCmpLatency)));
             Ascending(x) && Ascending(y) ==> IsMergeKs(d, x, y)
    ensures IsMergeKs(d, Latencies(a), Latencies(b))
  {
    SampleCmpLatencySorts(a);
    SampleCmpLatencySorts(b);
    LatenciesPermute(a, SortBy(a, SampleCmpLatency));
    LatenciesPermute(b, SortBy(b, SampleCmpLatency));
    SamePermutationSameGaps(Latencies(a), Latencies(b), Latencies(SortBy(a, SampleCmpLatency)),
                            Latencies(SortBy(b, SampleCmpLatency)), d);
  }

  lemma {:induction false} LatenciesPermute(s: seq<LatSample>, t: seq<LatSample>)
    requires multiset(s) == multiset(t)
    ensures multiset(Latencies(s)) == multiset(Latencies(t)) && |s| == |t|
  {
    assert |s| == |multiset(s)| == |multiset(t)| == |t|;
    if s != [] {
      var x := s[0];
      assert x in multiset(t);
      var k :| 0 <= k < |t| && t[k] == x;
      RemoveSample(s, 0);
      RemoveSample(t, k);
      LatenciesPermute(s[..0] + s[1..], t[..k] + t[k + 1..]);
    }
  }

  lemma RemoveSample(s: seq<LatSample>, k: nat)
    requires k < |s|
    ensures var rest := s[..k] + s[k + 1..];
            && multiset(rest) == multiset(s) - multiset{s[k]}
            && multiset(Latencies(s)) == multiset(Latencies(rest)) + multiset{s[k].nsec}
  {
    var rest := s[..k] + s[k + 1..];
    assert s == s[..k] + [s[k]] + s[k + 1..];
    var l := Latencies(s);
    assert l == l[..k] + [l[k]] + l[k + 1..];
    assert Latencies(rest) == l[..k] + l[k + 1..];
  }

  // Convergence.

  /** The comparison with the critical value, without its square root. */
  lemma BelowCritical(stat: real, q: real, sqrt: real -> real)
    requires IsSqrt(sqrt) && 0.0 <= stat && 0.0 <= q
    ensures stat < CA * sqrt(q) <==> stat * stat < CA * CA * q
  {
    assert RootAt(sqrt, q);
    var r := sqrt(q);
    assert (CA * r) * (CA * r) == CA * CA * q by { assert (CA * r) * (CA * r) == CA * CA * (r * r); }
    SquareOrder(CA * r, stat);
  }

  /** The halves the samples fall into when ordered by transmission time. */
  ghost function EarlyHalf(s: seq<LatSample>): (r: seq<LatSample>)
    ensures |r| == |s| / 2
  {
    SortBy(s, SampleCmpTx)[..|s| / 2]
  }

  ghost function LateHalf(s: seq<LatSample>): (r: seq<LatSample>)
    ensures |r| == |s| / 2
  {
    SortBy(s, SampleCmpTx)[|s| / 2..|s| / 2 + |s| / 2]
  }

  /** Nothing in the early half was sent after anything in the late half. */
  lemma HalvesInOrder(s: seq<LatSample>)
    ensures forall i, j :: 0 <= i < |s| / 2 && 0 <= j < |s| / 2 ==> NotAfter(EarlyHalf(s)[i].tx, LateHalf(s)[j].tx)
  {
    SampleCmpTxSorts(s);
    OrderAcross(SortBy(s, SampleCmpTx), EarlyHalf(s), LateHalf(s), |s| / 2);
  }

  lemma OrderAcross(r: seq<LatSample>, early: seq<LatSample>, late: seq<LatSample>, h: nat)
    requires InTxOrder(r) && h + h <= |r| && early == r[..h] && late == r[h..h + h]
    ensures forall i, j :: 0 <= i < h && 0 <= j < h ==> NotAfter(early[i].tx, late[j].tx)
  {
  }

  /** `d` is below 1.858 times the root of 2 / n. */
  predicate BelowLimit(d: real, n: nat) {
    d * d * n as real < 6.904328
  }

  /** The test accepts exactly when the statistic of the two halves is below 1.858 times the root of 2 / |a|. */
  ghost predicate IsConvergenceVerdict(conv: bool, a: seq<int>, b: seq<int>)
    requires |a| > 0 && |b| > 0
  {
    exists k :: IsKs(k, a, b) && (conv <==> BelowLimit(k, |a|))
  }

  /** The test on two adjacent stretches of `half` samples. */
  method CompareHalves(samples: array<LatSample>, half: nat, sqrt: real -> real) returns (conv: bool)
    requires half + half <= samples.Length
    requires IsSqrt(sqrt)
    modifies samples
    ensures multiset(samples[..half]) == multiset(old(samples[..half]))
    ensures multiset(samples[half..half + half]) == multiset(old(samples[half..half + half]))
    ensures forall i :: half + half <= i < samples.Length ==> samples[i] == old(samples[i])
    ensures half == 0 ==> !conv
    ensures var (a, b) := (Latencies(old(samples[..half])), Latencies(old(samples[half..half + half])));
            half > 0 && Narrow(a) && Narrow(b) ==> IsConvergenceVerdict(conv, a, b)
  {
    hide IsMergeKs, IsKs, Narrow, IsConvergenceVerdict;
    ghost var a, b := Latencies(samples[..half]), Latencies(samples[half..half + half]);
    var dnm := KsLts(samples, half);
    conv := Decide(dnm, half, sqrt);
    if half > 0 && Narrow(a) && Narrow(b) {
      VerdictOfMerge(conv, dnm, a, b);
    }
  }

  /** The first `qsort` of `compute_convergence`, and the two halves it leaves. */
  method OrderByTx(samples: array<LatSample>, size: nat, half: nat)
    requires size <= samples.Length && half == size / 2
    modifies samples
    ensures samples[..half] == EarlyHalf(old(samples[..size]))
    ensures samples[half..half + half] == LateHalf(old(samples[..size]))
    ensures multiset(samples[..size]) == multiset(old(samples[..size]))
  {
    hide SortBy, EarlyHalf, LateHalf;
    ghost var all := samples[..size];
    Qsort(samples, 0, size, SampleCmpTx);
    ghost var sorted := samples[..size];
    assert forall i :: 0 <= i < size ==> samples[..][i] == sorted[i];
    HalvesOf(all, sorted, samples[..], half);
    assert samples[..][..half] == samples[..half] && samples[..][half..half + half] == samples[half..half + half];
  }

  /** `compute_convergence`: the two-sample test between the earlier and the later half. */
  method ComputeConvergence(samples: array<LatSample>, size: nat, sqrt: real -> real) returns (conv: bool)
    requires size <= samples.Length
    requires IsSqrt(sqrt)
    modifies samples
    ensures multiset(samples[..size]) == multiset(old(samples[..size]))
    ensures size < 2 ==> !conv
    ensures var (a, b) := (Latencies(EarlyHalf(old(samples[..size]))), Latencies(LateHalf(old(samples[..size]))));
            size >= 2 && Narrow(a) && Narrow(b) ==> IsConvergenceVerdict(conv, a, b)
  {
    hide IsConvergenceVerdict, Narrow, SortBy, EarlyHalf, LateHalf;
    var half := size / 2;
    OrderByTx(samples, size, half);
    ghost var byTx := samples[..];
    conv := CompareHalves(samples, half, sqrt);
    AcrossHalves(byTx, samples[..], half, size);
  }

  lemma HalvesOf(all: seq<LatSample>, sorted: seq<LatSample>, byTx: seq<LatSample>, half: nat)
    requires sorted == SortBy(all, SampleCmpTx) && half == |all| / 2
    requires |sorted| <= |byTx| && forall i :: 0 <= i < |sorted| ==> byTx[i] == sorted[i]
    ensures byTx[..half] == EarlyHalf(all) && byTx[half..half + half] == LateHalf(all)
  {
    hide SortBy, EarlyHalf, LateHalf;
    HalvesUnfold(all, sorted, half);
  }

  lemma HalvesUnfold(all: seq<LatSample>, sorted: seq<LatSample>, half: nat)
    requires sorted == SortBy(all, SampleCmpTx) && half == |all| / 2
    ensures half + half <= |sorted|
    ensures EarlyHalf(all) == sorted[..half] && LateHalf(all) == sorted[half..half + half]
  {
    hide SortBy, SampleCmpTx;
    assert |sorted| == |all|;
  }

  /** The comparison with the critical value; for empty halves it is 0.0 / 0.0, and false. */
  method Decide(dnm: real, half: nat, sqrt: real -> real) returns (conv: bool)
    requires IsSqrt(sqrt) && 0.0 <= dnm
    ensures half == 0 ==> !conv
    ensures half > 0 ==> (conv <==> BelowLimit(dnm, half))
  {
    hide BelowLimit;
    if half == 0 {
      return false;
    }
    var sizeD := half as real;
    Product(sizeD, sizeD);
    var val := CA * sqrt((2.0 * sizeD) / (sizeD * sizeD));
    conv := dnm < val;
    TwoOver(sizeD, sizeD * sizeD);
    AsLimit(dnm, half);
    CriticalValue(dnm, sizeD, (2.0 * sizeD) / (sizeD * sizeD), sqrt);
  }

  lemma VerdictOfMerge(conv: bool, d: real, a: seq<int>, b: seq<int>)
    requires |a| == |b| > 0 && IsMergeKs(d, a, b)
    requires conv <==> BelowLimit(d, |a|)
    ensures IsConvergenceVerdict(conv, a, b)
  {
    hide IsMergeKs, IsKs;
    MergeKsExactForEqualLengths(d, a, b);
  }

  lemma AcrossHalves(s: seq<LatSample>, t: seq<LatSample>, h: nat, size: nat)
    requires size <= |s| == |t| && h + h <= size <= h + h + 1
    requires multiset(s[..h]) == multiset(t[..h]) && multiset(s[h..h + h]) == multiset(t[h..h + h])
    requires forall i :: h + h <= i < |s| ==> s[i] == t[i]
    ensures multiset(s[..size]) == multiset(t[..size])
  {
    assert s[..size] == s[..h] + s[h..h + h] + s[h + h..size];
    assert t[..size] == t[..h] + t[h..h + h] + t[h + h..size];
    assert s[h + h..size] == t[h + h..size];
  }

  lemma CriticalValue(d: real, h: real, q: real, sqrt: real -> real)
    requires IsSqrt(sqrt) && 0.0 <= d && 0.0 < h && q * h == 2.0
    ensures d < CA * sqrt(q) <==> d * d * h < 2.0 * CA * CA
  {
    if q < 0.0 {
      ScaleLt(q, 0.0, h);
    }
    BelowCritical(d, q, sqrt);
    TimesHalf(d * d, q, h);
  }

  lemma TwoOver(h: real, hh: real)
    requires 0.0 < h && hh == h * h && 0.0 < hh
    ensures (2.0 * h) / hh * h == 2.0
  {
    var q := (2.0 * h) / hh;
    assert q * hh == 2.0 * h;
    assert q * hh == (q * h) * h;
    if q * h < 2.0 {
      ScaleLt(q * h, 2.0, h);
    } else if 2.0 < q * h {
      ScaleLt(2.0, q * h, h);
    }
  }

  lemma TimesHalf(x: real, q: real, h: real)
    requires 0.0 < h && q * h == 2.0
    ensures x < CA * CA * q <==> x * h < 2.0 * CA * CA
  {
    assert (CA * CA * q) * h == 2.0 * CA * CA;
    if x < CA * CA * q {
      ScaleLt(x, CA * CA * q, h);
    } else {
      ScaleLe(CA * CA * q, x, h);
    }
  }

  lemma AsLimit(d: real, n: nat)
    ensures BelowLimit(d, n) <==> d * d * n as real < 2.0 * CA * CA
  {
    assert 2.0 * CA * CA == 6.904328;
  }
}

/** Inter-transmission gaps and the compliance test of `check_ia`. */
module InterArrival {
  import opened Numeric
  import opened Sorting
  import opened Comparators
  import opened KsStatistic
  import opened ThreadStats
  import opened Rings
  import opened Verdicts

  const BILLION := 1_000_000_000

  ghost function Nanos(t: Timespec): int {
    t.sec * BILLION + t.nsec
  }

  /** `timespec_diff`: fails for a null pointer and for a time stamp whose seconds are zero. */
  function TimespecDiff(a: Option<Timespec>, b: Option<Timespec>): Option<Timespec> {
    if a.None? || b.None? then None
    else if a.value.sec == 0 || b.value.sec == 0 then None
    else if a.value.nsec < b.value.nsec then
      Some(Timespec(a.value.sec - 1 - b.value.sec, BILLION - (b.value.nsec - a.value.nsec)))
    else
      Some(Timespec(a.value.sec - b.value.sec, a.value.nsec - b.value.nsec))
  }

  /** The difference of normalised times is exact and normalised, and its seconds are zero only for gaps below 1 s. */
  lemma TimespecDiffExact(a: Timespec, b: Timespec)
    requires Normalised(a) && Normalised(b) && a.sec != 0 && b.sec != 0
    ensures var d := TimespecDiff(Some(a), Some(b));
            && d.Some? && Normalised(d.value)
            && Nanos(d.value) == Nanos(a) - Nanos(b)
            && (d.value.sec == 0 <==> 0 <= Nanos(a) - Nanos(b) < BILLION)
            && (0 <= d.value.sec <==> NotAfter(b, a))
  {
  }

  /** The loop goes on over this gap: the difference exists and is below a second. */
  predicate SmallGap(later: Timespec, earlier: Timespec) {
    later.sec != 0 && earlier.sec != 0 && TimespecDiff(Some(later), Some(earlier)).value.sec == 0
  }

  function Gap(later: Timespec, earlier: Timespec): int
    requires SmallGap(later, earlier)
  {
    TimespecDiff(Some(later), Some(earlier)).value.nsec
  }

  predicate AllGapsSmall(s: seq<Timespec>) {
    forall i :: 1 <= i < |s| ==> SmallGap(s[i], s[i - 1])
  }

  ghost function GapAt(s: seq<Timespec>, i: nat): int
    requires i + 1 < |s| && AllGapsSmall(s)
  {
    assert SmallGap(s[i + 1], s[i]);
    Gap(s[i + 1], s[i])
  }

  ghost predicate AreGaps(gaps: seq<int>, s: seq<Timespec>)
    requires AllGapsSmall(s)
  {
    |gaps| == (if |s| == 0 then 0 else |s| - 1) && forall i :: 0 <= i < |gaps| ==> gaps[i] == GapAt(s, i)
  }

  ghost predicate AllNormalised(s: seq<Timespec>) {
    forall i :: 0 <= i < |s| ==> Normalised(s[i])
  }

  /** Collected gaps are whole nanoseconds below a second and add up to the span from first to last. */
  lemma {:induction false} GapsTelescope(gaps: seq<int>, s: seq<Timespec>)
    requires AllNormalised(s) && |s| > 0 && AllGapsSmall(s) && AreGaps(gaps, s)
    ensures forall i :: 0 <= i < |gaps| ==> 0 <= gaps[i] < BILLION
    ensures Sum(gaps) == Nanos(s[|s| - 1]) - Nanos(s[0])
  {
    if |s| > 1 {
      var n := |s| - 1;
      forall i | 0 <= i < n - 1 ensures gaps[..n - 1][i] == GapAt(s[..n], i) {
        assert gaps[i] == GapAt(s, i);
      }
      assert AllGapsSmall(s[..n]);
      GapsTelescope(gaps[..n - 1], s[..n]);
      assert SmallGap(s[n], s[n - 1]);
      assert gaps[n - 1] == GapAt(s, n - 1);
      TimespecDiffExact(s[n], s[n - 1]);
    }
  }

  /** Both times are set and less than a second apart. */
  ghost predicate WithinASecond(later: Timespec, earlier: Timespec) {
    later.sec != 0 && earlier.sec != 0 && Nanos(later) - Nanos(earlier) < BILLION
  }

  /** For sorted, normalised times the loop runs to its end exactly when adjacent ones are set and within a second. */
  lemma GapsSmallIff(s: seq<Timespec>)
    requires AllNormalised(s) && InTimeOrder(s)
    ensures AllGapsSmall(s) <==> forall i :: 1 <= i < |s| ==> WithinASecond(s[i], s[i - 1])
  {
    forall i | 1 <= i < |s| ensures SmallGap(s[i], s[i - 1]) <==> WithinASecond(s[i], s[i - 1]) {
      assert NotAfter(s[i - 1], s[i]);
      if s[i].sec != 0 && s[i - 1].sec != 0 {
        TimespecDiffExact(s[i], s[i - 1]);
      }
    }
  }

  /** The same for times in any order: what decides whether the test runs to its end. */
  lemma ComplianceRunsIff(times: seq<Timespec>)
    requires NearbyTimes(times)
    ensures var s := SortBy(times, TimespecCmp);
            && InTimeOrder(s) && AllNormalised(s)
            && (AllGapsSmall(s) <==> forall i :: 1 <= i < |s| ==> WithinASecond(s[i], s[i - 1]))
  {
    var s := SortBy(times, TimespecCmp);
    TimespecCmpSorts(times);
    forall i | 0 <= i < |s| ensures Normalised(s[i]) {
      assert s[i] in s;
      assert s[i] in times;
    }
    GapsSmallIff(s);
  }

  /** The test runs to its end: there is a time, all fit the array, and no gap fails an assertion. */
  predicate ComplianceRuns(times: seq<Timespec>) {
    0 < |times| <= MAX_THREADS * MAX_PER_THREAD_TX_SAMPLES && AllGapsSmall(SortBy(times, TimespecCmp))
  }

  /** The loop over the sorted times; it stops at the first failing assertion. */
  method CollectGaps(data: array<Timespec>, n: nat, collected: array<int>) returns (ok: bool)
    requires n <= data.Length && n <= collected.Length
    modifies collected
    ensures ok <==> AllGapsSmall(data[..n])
    ensures ok ==> AreGaps(collected[..if n == 0 then 0 else n - 1], data[..n])
  {
    var i := 1;
    while i < n
      invariant 1 <= i && (n >= 1 ==> i <= n)
      invariant forall j :: 1 <= j < i && j < n ==> SmallGap(data[j], data[j - 1])
      invariant forall j :: 1 <= j < i && j < n ==> collected[j - 1] == Gap(data[j], data[j - 1])
    {
      var diff := TimespecDiff(Some(data[i]), Some(data[i - 1]));
      if diff.None? || diff.value.sec != 0 {
        assert !SmallGap(data[..n][i], data[..n][i - 1]);
        return false;
      }
      collected[i - 1] := diff.value.nsec;
      i := i + 1;
    }
    ghost var s := data[..n];
    assert forall j :: 1 <= j < n ==> SmallGap(s[j], s[j - 1]);
    ok := true;
    ghost var gaps := collected[..if n == 0 then 0 else n - 1];
    forall j | 0 <= j < |gaps| ensures gaps[j] == GapAt(s, j) {
      assert SmallGap(data[j + 1], data[j]);
    }
  }

  // Collecting the time stamps of all threads.

  ghost function Concat(lists: seq<seq<Timespec>>): seq<Timespec> {
    if lists == [] then [] else Concat(lists[..|lists| - 1]) + lists[|lists| - 1]
  }

  lemma {:induction false} ConcatPrefix(lists: seq<seq<Timespec>>, i: nat)
    requires i < |lists|
    ensures Concat(lists[..i + 1]) == Concat(lists[..i]) + lists[i]
    ensures |Concat(lists[..i + 1])| <= |Concat(lists)|
    decreases |lists|
  {
    var n := |lists| - 1;
    assert lists[..i + 1][..i] == lists[..i];
    if i < n {
      ConcatPrefix(lists[..n], i);
      assert lists[..n][..i + 1] == lists[..i + 1];
    } else {
      assert lists[..i + 1] == lists;
    }
  }

  /** Up to 16 threads the copies fit the array. */
  lemma {:induction false} ConcatBound(lists: seq<seq<Timespec>>, cap: nat)
    requires forall i :: 0 <= i < |lists| ==> |lists[i]| <= cap
    ensures |Concat(lists)| <= |lists| * cap
  {
    if lists != [] {
      ConcatBound(lists[..|lists| - 1], cap);
      assert |lists| * cap == (|lists| - 1) * cap + cap;
    }
  }

  /** `live` lists the time stamps each thread still holds. */
  ghost predicate Holds(live: seq<seq<Timespec>>, threads: seq<TxSamples>)
    reads threads, set i | 0 <= i < |threads| :: threads[i].samples
  {
    && |live| == |threads|
    && forall i :: 0 <= i < |threads| ==>
                     && threads[i].samples.Length == MAX_PER_THREAD_TX_SAMPLES
                     && live[i] == threads[i].samples[..Min(threads[i].count, MAX_PER_THREAD_TX_SAMPLES)]
  }

  /** What the threads recorded and their rings still hold. */
  ghost function RetainedTimes(histories: seq<seq<Timespec>>): multiset<Timespec> {
    if histories == [] then multiset{}
    else
      RetainedTimes(histories[..|histories| - 1])
      + multiset(LastOf(histories[|histories| - 1], MAX_PER_THREAD_TX_SAMPLES))
  }

  /** The times collected are the last 2048 each thread recorded. */
  lemma CollectedAreLast(live: seq<seq<Timespec>>, threads: seq<TxSamples>, histories: seq<seq<Timespec>>)
    requires Holds(live, threads) && |histories| == |threads|
    requires forall i :: 0 <= i < |threads| ==> threads[i].Valid() && threads[i].history == histories[i]
    ensures multiset(Concat(live)) == RetainedTimes(histories)
  {
    forall i | 0 <= i < |live| ensures multiset(live[i]) == multiset(LastOf(histories[i], MAX_PER_THREAD_TX_SAMPLES)) {
      LiveTimesAreLast(threads[i]);
      assert live[i] == threads[i].samples[..Min(threads[i].count, MAX_PER_THREAD_TX_SAMPLES)];
    }
    ConcatRetains(live, histories);
  }

  lemma {:induction false} ConcatRetains(live: seq<seq<Timespec>>, histories: seq<seq<Timespec>>)
    requires |live| == |histories|
    requires forall i :: 0 <= i < |live| ==>
               multiset(live[i]) == multiset(LastOf(histories[i], MAX_PER_THREAD_TX_SAMPLES))
    ensures multiset(Concat(live)) == RetainedTimes(histories)
  {
    if live != [] {
      var n := |live| - 1;
      ConcatRetains(live[..n], histories[..n]);
    }
  }

  /** The copying loop; it fails where a copy would leave the array. */
  method CollectTimes(threads: seq<TxSamples>, data: array<Timespec>, ghost live: seq<seq<Timespec>>)
    returns (n: nat, ok: bool)
    requires Holds(live, threads)
    requires forall i :: 0 <= i < |threads| ==> threads[i].samples != data
    modifies data
    ensures ok <==> |Concat(live)| <= data.Length
    ensures ok ==> n == |Concat(live)| && data[..n] == Concat(live)
  {
    n := 0;
    for i := 0 to |threads|
      invariant n == |Concat(live[..i])| <= data.Length
      invariant data[..n] == Concat(live[..i])
    {
      var t := threads[i];
      var toCopy := if t.count > MAX_PER_THREAD_TX_SAMPLES then MAX_PER_THREAD_TX_SAMPLES else t.count;
      ConcatPrefix(live, i);
      assert old(t.samples[..Min(t.count, MAX_PER_THREAD_TX_SAMPLES)]) == live[i];
      if n + toCopy > data.Length {
        return n, false;
      }
      CopyTimes(data, n, t.samples, toCopy);
      n := n + toCopy;
    }
    assert live[..|threads|] == live;
    ok := true;
  }

  method CopyTimes(data: array<Timespec>, at: nat, from: array<Timespec>, n: nat)
    requires from != data && n <= from.Length && at + n <= data.Length
    modifies data
    ensures data[..at + n] == old(data[..at]) + from[..n]
  {
    forall j | 0 <= j < n {
      data[at + j] := from[j];
    }
  }

  /** The verdict on the collected gaps, without the square root of the critical value. */
  ghost predicate IsComplianceVerdict(pass: bool, reference: seq<int>, gaps: seq<int>)
    requires |reference| > 0 && |gaps| > 0
  {
    var m, n := |reference| as real, |gaps| as real;
    exists d :: 0.0 <= d && IsMergeKs(d, reference, gaps) && (pass <==> d * d * (m * n) < 3.452164 * (m + n))
  }

  /** Passing is sound: the true statistic, which the merge may over-estimate, is below the critical value too. */
  lemma PassIsSound(reference: seq<int>, gaps: seq<int>, k: real)
    requires |reference| > 0 && |gaps| > 0 && 0.0 <= k
    requires IsComplianceVerdict(true, reference, gaps) && IsKs(k, reference, gaps)
    ensures var (m, n) := (|reference| as real, |gaps| as real); k * k * (m * n) < 3.452164 * (m + n)
  {
    hide IsMergeKs, IsKs, BoundsTieGaps;
    var m, n := |reference| as real, |gaps| as real;
    var d :| 0.0 <= d && IsMergeKs(d, reference, gaps) && d * d * (m * n) < 3.452164 * (m + n);
    MergeKsAgainstKs(d, k, reference, gaps);
    Product(m, n);
    SmallerSquare(k, d, m * n);
  }

  lemma SmallerSquare(k: real, d: real, f: real)
    requires 0.0 <= k <= d && 0.0 <= f
    ensures k * k * f <= d * d * f
  {
    SquareLe(k, d);
    ScaleLe(k * k, d * d, f);
  }

  /** Collecting and sorting the time stamps of all threads. */
  method SortedTimes(threads: seq<TxSamples>, data: array<Timespec>, ghost live: seq<seq<Timespec>>)
    returns (n: nat, ok: bool)
    requires Holds(live, threads)
    requires forall i :: 0 <= i < |threads| ==> threads[i].samples != data
    modifies data
    ensures ok <==> |Concat(live)| <= data.Length
    ensures ok ==> n <= data.Length && n == |Concat(live)| && data[..n] == SortBy(Concat(live), TimespecCmp)
  {
    hide SortBy, Concat, Holds;
    n, ok := CollectTimes(threads, data, live);
    if ok {
      Qsort(data, 0, n, TimespecCmp);
    }
  }

  /** The gaps of `n` sorted times against the reference. */
  method TestGaps(data: array<Timespec>, n: nat, reference: array<int>, collected: array<int>, sqrt: real -> real)
    returns (r: Option<bool>)
    requires 0 < n <= data.Length && n <= collected.Length && IsSqrt(sqrt)
    requires reference != collected && reference.Length == REFERENCE_IA_SIZE
    modifies reference, collected
    ensures r.Some? <==> AllGapsSmall(data[..n])
    ensures r.Some? && n == 1 ==> r.value
    ensures r.Some? && n >= 2 && AllNormalised(data[..n]) && Narrow(old(reference[..])) ==>
              exists gaps :: AreGaps(gaps, data[..n]) && |gaps| > 0
                             && IsComplianceVerdict(r.value, old(reference[..]), gaps)
  {
    hide SortBy, IsComplianceVerdict, AllGapsSmall, AreGaps, IsMergeKs, Narrow;
    ghost var ref, s := reference[..], data[..n];
    var ok := CollectGaps(data, n, collected);
    if !ok {
      return None;
    }
    ghost var gaps := collected[..n - 1];
    assert reference[..REFERENCE_IA_SIZE] == ref;
    var ksResult := Ks(reference, collected, REFERENCE_IA_SIZE, n - 1);
    var pass := DecideIa(ksResult, n - 1, sqrt);
    r := Some(pass);
    if n >= 2 && AllNormalised(s) && Narrow(ref) {
      GapsNarrow(gaps, s);
      VerdictOfIa(pass, ksResult, ref, gaps);
    }
  }

  /** `check_ia`; no result when an assertion fails or an array is left. */
  method CheckIa(threads: seq<TxSamples>, reference: array<int>, collected: array<int>, sqrt: real -> real,
                 ghost live: seq<seq<Timespec>>)
    returns (r: Option<bool>)
    requires Holds(live, threads) && IsSqrt(sqrt)
    requires reference != collected && reference.Length == REFERENCE_IA_SIZE
    requires collected.Length == MAX_THREADS * MAX_PER_THREAD_TX_SAMPLES
    modifies reference, collected
    ensures r.Some? <==> ComplianceRuns(Concat(live))
    ensures r.Some? && |Concat(live)| == 1 ==> r.value
    ensures var s := SortBy(Concat(live), TimespecCmp);
            r.Some? && |s| >= 2 && AllNormalised(s) && Narrow(old(reference[..])) ==>
              exists gaps :: AreGaps(gaps, s) && |gaps| > 0 && IsComplianceVerdict(r.value, old(reference[..]), gaps)
  {
    hide SortBy, IsComplianceVerdict, AllGapsSmall, AreGaps, AllNormalised, Narrow, Concat, Holds;
    var data := new Timespec[MAX_THREADS * MAX_PER_THREAD_TX_SAMPLES](_ => Timespec(0, 0));
    var n, fits := SortedTimes(threads, data, live);
    if !fits || n == 0 {
      return None;
    }
    r := TestGaps(data, n, reference, collected, sqrt);
  }

  lemma GapsNarrow(gaps: seq<int>, s: seq<Timespec>)
    requires AllNormalised(s) && |s| > 0 && AllGapsSmall(s) && AreGaps(gaps, s)
    ensures Narrow(gaps)
  {
    GapsTelescope(gaps, s);
  }

  lemma VerdictOfIa(pass: bool, d: real, reference: seq<int>, gaps: seq<int>)
    requires |reference| > 0 && |gaps| > 0 && 0.0 <= d && IsMergeKs(d, reference, gaps)
    requires var (m, n) := (|reference| as real, |gaps| as real); pass <==> d * d * (m * n) < 3.452164 * (m + n)
    ensures IsComplianceVerdict(pass, reference, gaps)
  {
  }

  /** The comparison with the critical value; without gaps that value is infinite and the test passes. */
  method DecideIa(ksResult: real, n: nat, sqrt: real -> real) returns (pass: bool)
    requires IsSqrt(sqrt) && 0.0 <= ksResult
    ensures n == 0 ==> pass
    ensures n > 0 ==> var (m, c) := (REFERENCE_IA_SIZE as real, n as real);
                      pass <==> ksResult * ksResult * (m * c) < 3.452164 * (m + c)
  {
    if n == 0 {
      return true;
    }
    var m, c := REFERENCE_IA_SIZE as real, n as real;
    var q := (m + c) / (m * c);
    var val := CA * sqrt(q);
    pass := ksResult < val;
    IaCritical(ksResult, q, m * c, m + c, sqrt);
  }

  lemma IaCritical(d: real, q: real, mc: real, sum: real, sqrt: real -> real)
    requires IsSqrt(sqrt) && 0.0 <= d && 0.0 < mc && 0.0 < sum && q * mc == sum
    ensures d < CA * sqrt(q) <==> d * d * mc < 3.452164 * sum
  {
    if q < 0.0 {
      ScaleLt(q, 0.0, mc);
    }
    BelowCritical(d, q, sqrt);
    assert 3.452164 * q * mc == 3.452164 * sum;
    if d * d < 3.452164 * q {
      ScaleLt(d * d, 3.452164 * q, mc);
    } else {
      ScaleLe(3.452164 * q, d * d, mc);
    }
  }
}

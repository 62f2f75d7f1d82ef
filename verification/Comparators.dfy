/** Sample records and the comparators handed to `qsort`. */
module Comparators {
  import opened Numeric
  import opened Sorting

  datatype Timespec = Timespec(sec: int, nsec: int)

  datatype LatSample = LatSample(nsec: int, tx: Timespec)

  /** `long_compare`: a 64-bit difference returned as an `int`. */
  function LongCompare(x: int, y: int): int {
    ToInt32(ToUint64(x - y))
  }

  function SampleCmpLatency(x: LatSample, y: LatSample): int {
    ToInt32(ToUint64(x.nsec - y.nsec))
  }

  /** Returns 1 or 0, never a negative value. */
  function SampleCmpTx(x: LatSample, y: LatSample): int {
    if x.tx.sec != y.tx.sec then (if x.tx.sec > y.tx.sec then 1 else 0)
    else if x.tx.nsec > y.tx.nsec then 1 else 0
  }

  function TimespecCmp(a: Timespec, b: Timespec): int {
    if a.sec == b.sec then ToInt32(a.nsec - b.nsec) else ToInt32(a.sec - b.sec)
  }

  /** Lexicographic order on time stamps. */
  predicate NotAfter(a: Timespec, b: Timespec) {
    a.sec < b.sec || (a.sec == b.sec && a.nsec <= b.nsec)
  }

  lemma ToInt32Of(d: int)
    ensures -TWO_31 <= d < TWO_31 ==> ToInt32(d) == d && ToInt32(ToUint64(d)) == d
    ensures ToInt32(ToUint64(TWO_31)) == -TWO_31
  {
    var u := ToUint64(d);
    if 0 <= d {
    } else if -TWO_31 <= d {
      assert u == d + TWO_64 by { assert d == (d + TWO_64) - TWO_64; }
      assert u % TWO_32 == d + TWO_32;
    }
  }

  /** Both 64-bit comparators order every pair of an interval correctly exactly when it is narrower than 2^31. */
  lemma LongCompareRightIff(lo: int, hi: int)
    requires lo <= hi
    ensures hi - lo < TWO_31 <==>
            forall x, y :: lo <= x <= hi && lo <= y <= hi ==>
                             (LongCompare(x, y) < 0 <==> x < y) && (LongCompare(x, y) > 0 <==> x > y)
  {
    if hi - lo < TWO_31 {
      forall x, y | lo <= x <= hi && lo <= y <= hi
        ensures LongCompare(x, y) == x - y
      {
        ToInt32Of(x - y);
      }
    } else {
      ToInt32Of(TWO_31);
      assert LongCompare(lo + TWO_31, lo) < 0;
    }
  }

  /** Three latencies, each of 4 seconds at most, that `sample_cmp_latency` orders in a cycle. */
  lemma SampleCmpLatencyCycles(t: Timespec)
    ensures var a := LatSample(0, t);
            var b := LatSample(1_500_000_000, t);
            var c := LatSample(3_000_000_000, t);
            SampleCmpLatency(a, b) < 0 && SampleCmpLatency(b, c) < 0 && SampleCmpLatency(c, a) < 0
  {
    ToInt32Of(-1_500_000_000);
    assert ToUint64(3_000_000_000) % TWO_32 == 3_000_000_000;
  }

  /** Every two of the values differ by less than 2^31. */
  ghost predicate Narrow(s: seq<int>) {
    forall i, j :: 0 <= i < |s| && 0 <= j < |s| ==> s[i] - s[j] < TWO_31
  }

  ghost predicate Ascending(s: seq<int>) {
    forall i, j :: 0 <= i < j < |s| ==> s[i] <= s[j]
  }

  lemma LongCompareSorts(s: seq<int>)
    requires Narrow(s)
    ensures Ascending(SortBy(s, LongCompare))
  {
    forall x, y | x in s && y in s
      ensures LongCompare(x, y) == x - y
    {
      ToInt32Of(x - y);
    }
    SortByOrdered(s, LongCompare);
    var r := SortBy(s, LongCompare);
    forall i, j | 0 <= i < j < |r| ensures r[i] <= r[j] {
      assert r[i] in r && r[j] in r;
    }
  }

  function Latencies(s: seq<LatSample>): (r: seq<int>)
    ensures |r| == |s|
    ensures forall i :: 0 <= i < |s| ==> r[i] == s[i].nsec
  {
    seq(|s|, i requires 0 <= i < |s| => s[i].nsec)
  }

  lemma SampleCmpLatencySorts(s: seq<LatSample>)
    requires Narrow(Latencies(s))
    ensures Ascending(Latencies(SortBy(s, SampleCmpLatency)))
  {
    forall x, y | x in s && y in s
      ensures SampleCmpLatency(x, y) == x.nsec - y.nsec
    {
      var i :| 0 <= i < |s| && s[i] == x;
      var j :| 0 <= j < |s| && s[j] == y;
      assert Latencies(s)[i] == x.nsec && Latencies(s)[j] == y.nsec;
      ToInt32Of(x.nsec - y.nsec);
    }
    SortByOrdered(s, SampleCmpLatency);
    var r := SortBy(s, SampleCmpLatency);
    forall i, j | 0 <= i < j < |r| ensures r[i].nsec <= r[j].nsec {
      assert r[i] in r && r[j] in r;
    }
  }

  ghost predicate InTxOrder(s: seq<LatSample>) {
    forall i, j :: 0 <= i < j < |s| ==> NotAfter(s[i].tx, s[j].tx)
  }

  /** Although it never returns a negative value, `sample_cmp_tx` sorts by transmission time. */
  lemma SampleCmpTxSorts(s: seq<LatSample>)
    ensures InTxOrder(SortBy(s, SampleCmpTx))
  {
    SortByOrdered(s, SampleCmpTx);
  }

  predicate Normalised(t: Timespec) {
    0 <= t.nsec < 1_000_000_000
  }

  /** Normalised, and the seconds lie within 2^31 of each other. */
  ghost predicate NearbyTimes(s: seq<Timespec>) {
    forall i, j :: 0 <= i < |s| && 0 <= j < |s| ==> Normalised(s[i]) && s[i].sec - s[j].sec < TWO_31
  }

  ghost predicate InTimeOrder(s: seq<Timespec>) {
    forall i, j :: 0 <= i < j < |s| ==> NotAfter(s[i], s[j])
  }

  lemma TimespecCmpSorts(s: seq<Timespec>)
    requires NearbyTimes(s)
    ensures InTimeOrder(SortBy(s, TimespecCmp))
  {
    forall x, y | x in s && y in s
      ensures TimespecCmp(x, y) <= 0 <==> NotAfter(x, y)
    {
      ToInt32Of(x.nsec - y.nsec);
      ToInt32Of(x.sec - y.sec);
    }
    SortByOrdered(s, TimespecCmp);
    var r := SortBy(s, TimespecCmp);
    forall i, j | 0 <= i < j < |r| ensures NotAfter(r[i], r[j]) {
      assert r[i] in r && r[j] in r;
    }
  }
}

/** The merge loop shared by `ks` and `ks_lts`. */
module KsMerge {
  import opened Numeric
  import opened KsStatistic
  import opened Comparators

  /** Cross-multiplied distance after `i` of `m` and `j` of `n` values: i/m - j/n scaled by m*n. */
  ghost function Dist(i: int, j: int, m: int, n: int): int {
    i * n - j * m
  }

  ghost function DistAt(a: seq<int>, b: seq<int>, v: int): int {
    Dist(CountLe(a, v), CountLe(b, v), |a|, |b|)
  }

  ghost function TieDistAt(a: seq<int>, b: seq<int>, v: int): int {
    var t := Shared(a, b, v);
    Dist(CountLe(a, v - 1) + t, CountLe(b, v - 1) + t, |a|, |b|)
  }

  ghost predicate Within(d: int, bound: int) {
    -bound <= d <= bound
  }

  ghost predicate BoundsAll(bound: int, a: seq<int>, b: seq<int>) {
    forall v :: Within(DistAt(a, b, v), bound) && Within(TieDistAt(a, b, v), bound)
  }

  /** `s[..start]` is below `v`, `s[start..pos]` equals `v`, and the rest is not below `v`. */
  ghost predicate InBlock(s: seq<int>, start: int, pos: int, v: int) {
    && 0 <= start <= pos <= |s|
    && (forall i :: 0 <= i < start ==> s[i] < v)
    && (forall i :: start <= i < pos ==> s[i] == v)
    && (forall i :: pos <= i < |s| ==> v <= s[i])
  }

  ghost predicate PastBlock(s: seq<int>, pos: int, v: int)
    requires 0 <= pos <= |s|
  {
    pos == |s| || v < s[pos]
  }

  /** Within the block of `v` both cursors advance together until one sample runs out of `v`. */
  ghost predicate InStep(a: seq<int>, b: seq<int>, ga: int, gb: int, ia: int, ib: int, v: int)
    requires 0 <= ia <= |a| && 0 <= ib <= |b|
  {
    || ia - ga == ib - gb
    || (ia - ga > ib - gb && PastBlock(b, ib, v))
    || (ia - ga < ib - gb && PastBlock(a, ia, v))
  }

  lemma BlockCounts(s: seq<int>, start: int, pos: int, v: int)
    requires Ascending(s) && InBlock(s, start, pos, v)
    ensures CountLe(s, v - 1) == start
    ensures pos <= CountLe(s, v)
    ensures PastBlock(s, pos, v) ==> CountLe(s, v) == pos
  {
    CountLeAt(s, v - 1, start);
    CountLeAtLeast(s, v, pos);
    if PastBlock(s, pos, v) {
      CountLeAt(s, v, pos);
    }
  }

  lemma Interpolate(x: int, s: int, t: int, step: int, bound: int)
    requires 0 <= s <= t
    requires Within(x, bound) && Within(x + t * step, bound)
    ensures Within(x + s * step, bound)
  {
    if step >= 0 {
      assert 0 <= s * step <= t * step;
    } else {
      assert t * step <= s * step <= 0;
    }
  }

  /** Every point the merge visits lies between points that belong to the supremum. */
  lemma VisitedWithin(a: seq<int>, b: seq<int>, ga: int, gb: int, ia: int, ib: int, v: int, bound: int)
    requires Ascending(a) && Ascending(b)
    requires InBlock(a, ga, ia, v) && InBlock(b, gb, ib, v)
    requires InStep(a, b, ga, gb, ia, ib, v)
    requires BoundsAll(bound, a, b)
    ensures Within(Dist(ia, ib, |a|, |b|), bound)
  {
    BlockCounts(a, ga, ia, v);
    BlockCounts(b, gb, ib, v);
    var m, n := |a|, |b|;
    var ca, cb := CountLe(a, v) - ga, CountLe(b, v) - gb;
    var t := Shared(a, b, v);
    assert Within(DistAt(a, b, v - 1), bound) && Within(TieDistAt(a, b, v), bound) && Within(DistAt(a, b, v), bound);
    if ia - ga == ib - gb {
      var s := ia - ga;
      DistMove(ga, gb, s, s, m, n);
      DistMove(ga, gb, t, t, m, n);
      Diagonal(s, m, n);
      Diagonal(t, m, n);
      Interpolate(Dist(ga, gb, m, n), s, t, n - m, bound);
    } else if ia - ga > ib - gb {
      assert t == cb == ib - gb;
      DistMove(ga + t, gb + t, ia - ga - t, 0, m, n);
      DistMove(ga + t, gb + t, ca - t, 0, m, n);
      Interpolate(Dist(ga + t, gb + t, m, n), ia - ga - t, ca - t, n, bound);
    } else {
      assert t == ca == ia - ga;
      DistMove(ga + t, gb + t, 0, ib - gb - t, m, n);
      DistMove(ga + t, gb + t, 0, cb - t, m, n);
      Interpolate(Dist(ga + t, gb + t, m, n), ib - gb - t, cb - t, -m, bound);
    }
  }

  lemma DistMove(i: int, j: int, di: int, dj: int, m: int, n: int)
    ensures Dist(i + di, j + dj, m, n) == Dist(i, j, m, n) + di * n - dj * m
    ensures dj * m == -(dj * -m)
  {
  }

  lemma Diagonal(s: int, m: int, n: int)
    ensures s * n - s * m == s * (n - m)
  {
  }

  /** The distances of every value below `v`, and of the current point and tie corner, are within `top`. */
  ghost predicate Covered(a: seq<int>, b: seq<int>, ga: int, gb: int, ia: int, ib: int, v: int, top: int) {
    && (forall w :: w < v ==> Within(DistAt(a, b, w), top) && Within(TieDistAt(a, b, w), top))
    && Within(Dist(ia, ib, |a|, |b|), top)
    && (var t := Min(ia - ga, ib - gb); Within(Dist(ga + t, gb + t, |a|, |b|), top))
  }

  /** Entering the block of the next value `v'`: the block of `v` is complete in both samples. */
  lemma EnterBlock(a: seq<int>, b: seq<int>, ga: int, gb: int, ia: int, ib: int, v: int, v': int, top: int)
    requires Ascending(a) && Ascending(b)
    requires InBlock(a, ga, ia, v) && InBlock(b, gb, ib, v)
    requires Covered(a, b, ga, gb, ia, ib, v, top)
    requires v < v'
    requires ia < |a| ==> v' <= a[ia]
    requires ib < |b| ==> v' <= b[ib]
    ensures InBlock(a, ia, ia, v') && InBlock(b, ib, ib, v')
    ensures Covered(a, b, ia, ib, ia, ib, v', top)
  {
    BlockCounts(a, ga, ia, v);
    BlockCounts(b, gb, ib, v);
    forall w | v <= w < v'
      ensures Within(DistAt(a, b, w), top) && Within(TieDistAt(a, b, w), top)
    {
      CountLeAt(a, w, ia);
      CountLeAt(b, w, ib);
      if v < w {
        CountLeAt(a, w - 1, ia);
        CountLeAt(b, w - 1, ib);
      }
    }
  }

  /** Once the first sample is exhausted, the unscanned tail of the second cannot exceed what was seen. */
  lemma TailOfSecond(a: seq<int>, b: seq<int>, ga: int, gb: int, ia: int, ib: int, v: int, top: int, w: int)
    requires Ascending(a) && Ascending(b)
    requires InBlock(a, ga, ia, v) && InBlock(b, gb, ib, v)
    requires InStep(a, b, ga, gb, ia, ib, v)
    requires Covered(a, b, ga, gb, ia, ib, v, top)
    requires ia == |a| && v <= w
    ensures Within(DistAt(a, b, w), top) && Within(TieDistAt(a, b, w), top)
  {
    hide CountLe;
    BlockCounts(a, ga, ia, v);
    BlockCounts(b, gb, ib, v);
    CountLeMonotone(a, v, w);
    CountLeMonotone(b, v, w);
    TailWithin(ia, ib, CountLe(b, w), |a|, |b|, top);
    if v < w {
      CountLeMonotone(a, v, w - 1);
      CountLeMonotone(b, v, w - 1);
      CountLeMonotone(b, w - 1, w);
      TailWithin(ia, ib, CountLe(b, w - 1), |a|, |b|, top);
      assert Shared(a, b, w) == 0;
    } else {
      assert Shared(a, b, v) == Min(ia - ga, ib - gb);
    }
  }

  lemma SwapSamples(a: seq<int>, b: seq<int>, v: int)
    ensures DistAt(b, a, v) == -DistAt(a, b, v) && TieDistAt(b, a, v) == -TieDistAt(a, b, v)
  {
  }

  lemma TailCovered(a: seq<int>, b: seq<int>, ga: int, gb: int, ia: int, ib: int, v: int, top: int)
    requires Ascending(a) && Ascending(b)
    requires InBlock(a, ga, ia, v) && InBlock(b, gb, ib, v)
    requires InStep(a, b, ga, gb, ia, ib, v)
    requires Covered(a, b, ga, gb, ia, ib, v, top)
    requires ia == |a| || ib == |b|
    ensures BoundsAll(top, a, b)
  {
    forall w ensures Within(DistAt(a, b, w), top) && Within(TieDistAt(a, b, w), top) {
      if v <= w {
        if ia == |a| {
          TailOfSecond(a, b, ga, gb, ia, ib, v, top, w);
        } else {
          forall u ensures DistAt(b, a, u) == -DistAt(a, b, u) && TieDistAt(b, a, u) == -TieDistAt(a, b, u) {
            SwapSamples(a, b, u);
          }
          TailOfSecond(b, a, gb, ga, ib, ia, v, top, w);
        }
      }
    }
  }

  lemma TailWithin(i: int, j: int, k: int, m: int, n: int, top: int)
    requires i == m && Within(Dist(i, j, m, n), top) && m >= 0
    ensures j <= k <= n ==> Within(Dist(i, k, m, n), top) && Within(Dist(k, i, n, m), top)
  {
    if j <= k <= n {
      assert j * m <= k * m <= n * m;
    }
  }

  // From cross-multiplied integers to reals.

  lemma DistAsReal(i: int, j: int, m: int, n: int)
    requires m > 0 && n > 0
    ensures i as real / m as real - j as real / n as real == Dist(i, j, m, n) as real / (m * n) as real
  {
    var mr, nr := m as real, n as real;
    assert (m * n) as real == mr * nr;
    assert Dist(i, j, m, n) as real == i as real * nr - j as real * mr;
    assert i as real / mr == (i as real * nr) / (mr * nr);
    assert j as real / nr == (j as real * mr) / (mr * nr);
  }

  lemma ScaledAbs(d: int, mn: int)
    requires mn > 0
    ensures AbsReal(d as real / mn as real) == Abs(d) as real / mn as real
  {
    if d >= 0 {
      assert d as real / mn as real >= 0.0;
    } else {
      assert d as real / mn as real < 0.0;
    }
  }

  lemma ScaledLess(x: int, y: int, mn: int)
    requires mn > 0
    ensures x < y <==> x as real / mn as real < y as real / mn as real
  {
    if x < y {
      assert (y - x) as real / mn as real > 0.0;
    } else {
      assert (x - y) as real / mn as real >= 0.0;
    }
  }

  lemma GapAsDist(a: seq<int>, b: seq<int>, v: int)
    requires |a| > 0 && |b| > 0
    ensures Gap(a, b, v) == Abs(DistAt(a, b, v)) as real / (|a| * |b|) as real
    ensures TieGap(a, b, v) == Abs(TieDistAt(a, b, v)) as real / (|a| * |b|) as real
  {
    hide CountLe, AbsReal, Abs, Shared, Dist;
    var t := Shared(a, b, v);
    DistAsReal(CountLe(a, v), CountLe(b, v), |a|, |b|);
    DistAsReal(CountLe(a, v - 1) + t, CountLe(b, v - 1) + t, |a|, |b|);
    ScaledAbs(DistAt(a, b, v), |a| * |b|);
    ScaledAbs(TieDistAt(a, b, v), |a| * |b|);
  }

  /** A least integer bound on the scaled distances is the supremum of the gaps. */
  lemma LeastBoundIsMergeKs(a: seq<int>, b: seq<int>, top: nat)
    requires |a| > 0 && |b| > 0
    requires BoundsAll(top, a, b)
    requires forall bound: nat :: BoundsAll(bound, a, b) ==> top <= bound
    ensures IsMergeKs(top as real / (|a| * |b|) as real, a, b)
  {
    hide DistAt, TieDistAt, CountLe;
    var d := top as real / (|a| * |b|) as real;
    forall v ensures Gap(a, b, v) <= d && TieGap(a, b, v) <= d {
      BoundScales(a, b, v, top);
    }
    forall c | BoundsGaps(c, a, b) && BoundsTieGaps(c, a, b) ensures d <= c {
      if top > 0 {
        assert !BoundsAll(top - 1, a, b);
        var v :| !(Within(DistAt(a, b, v), top - 1) && Within(TieDistAt(a, b, v), top - 1));
        assert Gap(a, b, v) <= c && TieGap(a, b, v) <= c;
        BoundScales(a, b, v, top);
      } else {
        assert Gap(a, b, 0) <= c;
      }
    }
  }

  lemma BoundScales(a: seq<int>, b: seq<int>, v: int, top: nat)
    requires |a| > 0 && |b| > 0
    requires Within(DistAt(a, b, v), top) && Within(TieDistAt(a, b, v), top)
    ensures var d := top as real / (|a| * |b|) as real;
            && Gap(a, b, v) <= d && TieGap(a, b, v) <= d
            && (!Within(DistAt(a, b, v), top - 1) ==> Gap(a, b, v) == d)
            && (!Within(TieDistAt(a, b, v), top - 1) ==> TieGap(a, b, v) == d)
  {
    GapAsDist(a, b, v);
    ScaledLess(top, Abs(DistAt(a, b, v)), |a| * |b|);
    ScaledLess(top, Abs(TieDistAt(a, b, v)), |a| * |b|);
  }

  /** What the loop knows after passing `ia` and `ib` values, `top` being the largest scaled distance seen. */
  ghost predicate MergeInv(a: seq<int>, b: seq<int>, ga: int, gb: int, ia: int, ib: int, v: int, top: int) {
    && InBlock(a, ga, ia, v) && InBlock(b, gb, ib, v)
    && InStep(a, b, ga, gb, ia, ib, v)
    && Covered(a, b, ga, gb, ia, ib, v, top)
    && forall bound: nat :: BoundsAll(bound, a, b) ==> top <= bound
  }

  /** One iteration, on the scaled distances; `ga'`, `gb'` and `v'` describe the block it ends in. */
  lemma MergeStep(a: seq<int>, b: seq<int>, ga: int, gb: int, ia: int, ib: int, v: int, top: int)
    returns (ga': int, gb': int, v': int)
    requires Ascending(a) && Ascending(b)
    requires MergeInv(a, b, ga, gb, ia, ib, v, top)
    requires ia < |a| && ib < |b|
    ensures var ja := if a[ia] <= b[ib] then ia + 1 else ia;
            var jb := if b[ib] <= a[ia] then ib + 1 else ib;
            var d := Abs(Dist(ja, jb, |a|, |b|));
            MergeInv(a, b, ga', gb', ja, jb, v', if top < d then d else top)
  {
    ga', gb', v' := ga, gb, Min(a[ia], b[ib]);
    assert v <= v';
    if v < v' {
      EnterBlock(a, b, ga, gb, ia, ib, v, v', top);
      ga', gb' := ia, ib;
    }
    var ja := if a[ia] <= b[ib] then ia + 1 else ia;
    var jb := if b[ib] <= a[ia] then ib + 1 else ib;
    assert InBlock(a, ga', ja, v') && InBlock(b, gb', jb, v');
    assert InStep(a, b, ga', gb', ja, jb, v');
    forall bound: nat | BoundsAll(bound, a, b) ensures Within(Dist(ja, jb, |a|, |b|), bound) {
      VisitedWithin(a, b, ga', gb', ja, jb, v', bound);
    }
  }

  /** The difference the loop body computes is the scaled distance at the new position. */
  lemma StepDiff(ia: int, ib: int, m: int, n: int, top: nat)
    requires m > 0 && n > 0
    ensures var d := Abs(Dist(ia, ib, m, n)) as real / (m * n) as real;
            && AbsReal(ia as real / m as real - ib as real / n as real) == d
            && AbsReal(ib as real / n as real - ia as real / m as real) == d
            && (top as real / (m * n) as real < d <==> top < Abs(Dist(ia, ib, m, n)))
            && 0.0 <= d
  {
    var d := Dist(ia, ib, m, n);
    DistAsReal(ia, ib, m, n);
    ScaledAbs(d, m * n);
    ScaledLess(top, Abs(d), m * n);
  }

  /** The loop of `ks` and `ks_lts` over the two sorted samples. */
  method MergeKs(a: seq<int>, b: seq<int>) returns (maxDiff: real)
    ensures |a| > 0 && |b| > 0 && Ascending(a) && Ascending(b) ==> IsMergeKs(maxDiff, a, b)
    ensures |a| == 0 || |b| == 0 ==> maxDiff == 0.0
    ensures 0.0 <= maxDiff
  {
    var ia, ib := 0, 0;
    maxDiff := 0.0;
    ghost var m, n := |a|, |b|;
    ghost var sorted := m > 0 && n > 0 && Ascending(a) && Ascending(b);
    ghost var ga, gb, top: nat := 0, 0, 0;
    ghost var v := if sorted then Min(a[0], b[0]) else 0;
    if sorted {
      BlockStart(a, b, v);
    }
    while ia < |a| && ib < |b|
      invariant 0 <= ia <= |a| && 0 <= ib <= |b|
      invariant m == 0 || n == 0 ==> maxDiff == 0.0
      invariant m > 0 && n > 0 ==> maxDiff == top as real / (m * n) as real
      invariant 0.0 <= maxDiff
      invariant sorted ==> MergeInv(a, b, ga, gb, ia, ib, v, top)
      decreases |a| - ia + |b| - ib
    {
      if sorted {
        ga, gb, v := MergeStep(a, b, ga, gb, ia, ib, v, top);
      }
      var minVal := if a[ia] < b[ib] then a[ia] else b[ib];
      var diff := 0.0;
      var inA, inB := minVal == a[ia], minVal == b[ib];
      if inA {
        diff := (ia + 1) as real / |a| as real - ib as real / |b| as real;
        ia := ia + 1;
      }
      if inB {
        diff := (ib + 1) as real / |b| as real - ia as real / |a| as real;
        ib := ib + 1;
      }
      StepDiff(ia, ib, m, n, top);
      if diff < 0.0 {
        diff := diff * -1.0;
      }
      if maxDiff < diff {
        maxDiff := diff;
        top := Abs(Dist(ia, ib, m, n));
      }
    }
    if sorted {
      TailCovered(a, b, ga, gb, ia, ib, v, top);
      LeastBoundIsMergeKs(a, b, top);
    }
  }

  lemma BlockStart(a: seq<int>, b: seq<int>, v: int)
    requires |a| > 0 && |b| > 0 && Ascending(a) && Ascending(b) && v == Min(a[0], b[0])
    ensures MergeInv(a, b, 0, 0, 0, 0, v, 0)
  {
    forall w | w < v ensures DistAt(a, b, w) == 0 && TieDistAt(a, b, w) == 0 {
      CountLeAt(a, w, 0);
      CountLeAt(b, w, 0);
      CountLeAt(a, w - 1, 0);
      CountLeAt(b, w - 1, 0);
    }
  }
}

/** What the Kolmogorov-Smirnov merge computes, stated on empirical distribution functions. */
module KsStatistic {
  import opened Numeric

  /** How many of the values are at most `v`. */
  function CountLe(s: seq<int>, v: int): (n: nat)
    ensures n <= |s|
  {
    if s == [] then 0 else (if s[0] <= v then 1 else 0) + CountLe(s[1..], v)
  }

  /** The empirical distribution function. */
  ghost function Ecdf(s: seq<int>, v: int): real
    requires |s| > 0
  {
    CountLe(s, v) as real / |s| as real
  }

  ghost function Gap(a: seq<int>, b: seq<int>, v: int): real
    requires |a| > 0 && |b| > 0
  {
    AbsReal(Ecdf(a, v) - Ecdf(b, v))
  }

  /** How many times the value `v` can be paired up across the two samples. */
  ghost function Shared(a: seq<int>, b: seq<int>, v: int): int {
    Min(CountLe(a, v) - CountLe(a, v - 1), CountLe(b, v) - CountLe(b, v - 1))
  }

  /** The distance after only the paired-up occurrences of `v` have been passed in both samples. */
  ghost function TieGap(a: seq<int>, b: seq<int>, v: int): real
    requires |a| > 0 && |b| > 0
  {
    var t := Shared(a, b, v);
    AbsReal((CountLe(a, v - 1) + t) as real / |a| as real - (CountLe(b, v - 1) + t) as real / |b| as real)
  }

  ghost predicate BoundsGaps(d: real, a: seq<int>, b: seq<int>)
    requires |a| > 0 && |b| > 0
  {
    forall v :: Gap(a, b, v) <= d
  }

  ghost predicate BoundsTieGaps(d: real, a: seq<int>, b: seq<int>)
    requires |a| > 0 && |b| > 0
  {
    forall v :: TieGap(a, b, v) <= d
  }

  /** The two-sample statistic: the supremum of |F_a - F_b|. */
  ghost predicate IsKs(d: real, a: seq<int>, b: seq<int>)
    requires |a| > 0 && |b| > 0
  {
    BoundsGaps(d, a, b) && forall c :: BoundsGaps(c, a, b) ==> d <= c
  }

  /** What the merge loop yields: the supremum over the gaps and the tie gaps together. */
  ghost predicate IsMergeKs(d: real, a: seq<int>, b: seq<int>)
    requires |a| > 0 && |b| > 0
  {
    && BoundsGaps(d, a, b) && BoundsTieGaps(d, a, b)
    && forall c :: BoundsGaps(c, a, b) && BoundsTieGaps(c, a, b) ==> d <= c
  }

  /** The merge never under-estimates, and is exact if and only if no tie gap exceeds the statistic. */
  lemma MergeKsAgainstKs(d: real, k: real, a: seq<int>, b: seq<int>)
    requires |a| > 0 && |b| > 0
    requires IsMergeKs(d, a, b) && IsKs(k, a, b)
    ensures k <= d
    ensures d == k <==> BoundsTieGaps(k, a, b)
  {
    assert BoundsGaps(d, a, b) && BoundsGaps(k, a, b);
  }

  lemma ShiftCancels(x: int, y: int, t: int, n: int)
    requires n > 0
    ensures (x + t) as real / n as real - (y + t) as real / n as real == x as real / n as real - y as real / n as real
  {
    var r := n as real;
    assert (x + t) as real / r == x as real / r + t as real / r;
    assert (y + t) as real / r == y as real / r + t as real / r;
  }

  /** Samples of one length: the merge is exact, whatever the ties. */
  lemma MergeKsExactForEqualLengths(d: real, a: seq<int>, b: seq<int>)
    requires |a| == |b| > 0
    requires IsMergeKs(d, a, b)
    ensures IsKs(d, a, b)
  {
    forall c | BoundsGaps(c, a, b) ensures BoundsTieGaps(c, a, b) {
      forall v ensures TieGap(a, b, v) <= c {
        ShiftCancels(CountLe(a, v - 1), CountLe(b, v - 1), Shared(a, b, v), |a|);
        assert TieGap(a, b, v) == Gap(a, b, v - 1);
      }
    }
  }

  /** Every value that occurs in both samples occurs equally often in both. */
  ghost predicate TiesBalanced(a: seq<int>, b: seq<int>) {
    forall v :: Shared(a, b, v) > 0 ==>
                  CountLe(a, v) - CountLe(a, v - 1) == CountLe(b, v) - CountLe(b, v - 1)
  }

  lemma MergeKsExactForBalancedTies(d: real, a: seq<int>, b: seq<int>)
    requires |a| > 0 && |b| > 0
    requires TiesBalanced(a, b)
    requires IsMergeKs(d, a, b)
    ensures IsKs(d, a, b)
  {
    forall c | BoundsGaps(c, a, b) ensures BoundsTieGaps(c, a, b) {
      forall v ensures TieGap(a, b, v) <= c {
        CountLeMonotone(a, v - 1, v);
        CountLeMonotone(b, v - 1, v);
        assert Shared(a, b, v) > 0 || Shared(a, b, v) == 0;
        assert TieGap(a, b, v) == Gap(a, b, v) || TieGap(a, b, v) == Gap(a, b, v - 1);
      }
    }
  }

  function Copies(n: nat, v: int): (r: seq<int>)
    ensures |r| == n && forall i :: 0 <= i < n ==> r[i] == v
  {
    seq(n, _ => v)
  }

  lemma {:induction false} CountCopies(n: nat, v: int, w: int)
    ensures CountLe(Copies(n, v), w) == if v <= w then n else 0
  {
    if n > 0 {
      CountCopies(n - 1, v, w);
      assert Copies(n, v)[1..] == Copies(n - 1, v);
    }
  }

  /** The fraction by which the longer of two lengths exceeds the shorter. */
  function Excess(m: nat, n: nat): (r: real)
    requires m > 0 && n > 0
    ensures 0.0 <= r
  {
    var t := Min(m, n) as real;
    AbsReal(t / m as real - t / n as real)
  }

  /** A single value throughout both samples: the statistic is 0, but the merge yields the excess of the lengths. */
  lemma EqualValues(m: nat, n: nat, v: int, d: real)
    requires m > 0 && n > 0
    ensures IsKs(0.0, Copies(m, v), Copies(n, v))
    ensures IsMergeKs(d, Copies(m, v), Copies(n, v)) <==> d == Excess(m, n)
  {
    hide CountLe, Copies, Shared;
    var a, b := Copies(m, v), Copies(n, v);
    forall w ensures Gap(a, b, w) == 0.0 && TieGap(a, b, w) == if w == v then Excess(m, n) else 0.0 {
      GapsOfCopies(m, n, v, w);
    }
    assert BoundsGaps(0.0, a, b);
    forall c | BoundsGaps(c, a, b) ensures 0.0 <= c {
      assert Gap(a, b, v) <= c;
    }
    forall c | BoundsTieGaps(c, a, b) ensures Excess(m, n) <= c {
      assert TieGap(a, b, v) <= c;
    }
    assert BoundsGaps(Excess(m, n), a, b) && BoundsTieGaps(Excess(m, n), a, b);
  }

  lemma GapsOfCopies(m: nat, n: nat, v: int, w: int)
    requires m > 0 && n > 0
    ensures Gap(Copies(m, v), Copies(n, v), w) == 0.0
    ensures TieGap(Copies(m, v), Copies(n, v), w) == if w == v then Excess(m, n) else 0.0
  {
    hide CountLe, Copies;
    CountCopies(m, v, w);
    CountCopies(n, v, w);
    CountCopies(m, v, w - 1);
    CountCopies(n, v, w - 1);
    WholeAndNone(m);
    WholeAndNone(n);
  }

  lemma WholeAndNone(n: nat)
    requires n > 0
    ensures n as real / n as real == 1.0 && 0.0 / n as real == 0.0
  {
  }

  /** So with one value throughout samples of different lengths, the merge over-estimates. */
  lemma MergeKsOverestimates(m: nat, n: nat, v: int, d: real)
    requires m > 0 && n > 0 && m != n
    requires IsMergeKs(d, Copies(m, v), Copies(n, v))
    ensures IsKs(0.0, Copies(m, v), Copies(n, v)) && d > 0.0
  {
    hide IsMergeKs, IsKs;
    EqualValues(m, n, v, d);
    ExcessPositive(m, n);
  }

  lemma ExcessPositive(m: nat, n: nat)
    requires m > 0 && n > 0 && m != n
    ensures Excess(m, n) > 0.0
  {
    var s, l := Min(m, n) as real, (if m < n then n else m) as real;
    WholeAndNone(Min(m, n));
    var q := s / l;
    assert q * l == s;
    ScaleIff(q, 1.0, l);
  }

  lemma {:induction false} CountLeMonotone(s: seq<int>, v: int, w: int)
    requires v <= w
    ensures CountLe(s, v) <= CountLe(s, w)
  {
    if s != [] {
      CountLeMonotone(s[1..], v, w);
    }
  }

  /** If exactly the first `k` values are at most `v`, the count is `k`. */
  lemma {:induction false} CountLeAt(s: seq<int>, v: int, k: nat)
    requires k <= |s|
    requires forall i :: 0 <= i < k ==> s[i] <= v
    requires forall i :: k <= i < |s| ==> v < s[i]
    ensures CountLe(s, v) == k
  {
    if s != [] {
      CountLeAt(s[1..], v, if k == 0 then 0 else k - 1);
    }
  }

  lemma {:induction false} CountLeAtLeast(s: seq<int>, v: int, k: nat)
    requires k <= |s|
    requires forall i :: 0 <= i < k ==> s[i] <= v
    ensures k <= CountLe(s, v)
  {
    if k > 0 {
      CountLeAtLeast(s[1..], v, k - 1);
    }
  }

  /** Counts depend on the values only, not on their order. */
  lemma {:induction false} CountLePermutation(s: seq<int>, t: seq<int>, v: int)
    requires multiset(s) == multiset(t)
    ensures CountLe(s, v) == CountLe(t, v)
  {
    if s == [] {
      assert |multiset(t)| == 0;
    } else {
      var k := PositionIn(s[0], t);
      RemoveBoth(s, t, k);
      CountLePermutation(s[1..], t[..k] + t[k + 1..], v);
      CountLeRemove(t, k, v);
    }
  }

  lemma PositionIn(x: int, t: seq<int>) returns (k: nat)
    requires x in multiset(t)
    ensures k < |t| && t[k] == x
  {
    k :| 0 <= k < |t| && t[k] == x;
  }

  lemma RemoveBoth(s: seq<int>, t: seq<int>, k: nat)
    requires s != [] && multiset(s) == multiset(t) && k < |t| && t[k] == s[0]
    ensures multiset(s[1..]) == multiset(t[..k] + t[k + 1..])
  {
    assert s == [s[0]] + s[1..];
    assert t == t[..k] + [t[k]] + t[k + 1..];
    assert multiset(s[1..]) == multiset(s) - multiset{s[0]};
    assert multiset(t[..k] + t[k + 1..]) == multiset(t) - multiset{t[k]};
  }

  lemma CountLeRemove(t: seq<int>, k: nat, v: int)
    requires k < |t|
    ensures CountLe(t, v) == (if t[k] <= v then 1 else 0) + CountLe(t[..k] + t[k + 1..], v)
  {
    assert t == t[..k] + ([t[k]] + t[k + 1..]);
    CountLeConcat(t[..k], [t[k]] + t[k + 1..], v);
    CountLeConcat(t[..k], t[k + 1..], v);
  }

  lemma {:induction false} CountLeConcat(s: seq<int>, t: seq<int>, v: int)
    ensures CountLe(s + t, v) == CountLe(s, v) + CountLe(t, v)
  {
    if s == [] {
      assert s + t == t;
    } else {
      assert (s + t)[1..] == s[1..] + t;
      CountLeConcat(s[1..], t, v);
    }
  }

  lemma SamePermutationSameGaps(a: seq<int>, b: seq<int>, a': seq<int>, b': seq<int>, d: real)
    requires |a| > 0 && |b| > 0
    requires multiset(a) == multiset(a') && multiset(b) == multiset(b')
    requires |a| == |a'| && |b| == |b'|
    ensures IsMergeKs(d, a, b) <==> IsMergeKs(d, a', b')
  {
    forall v ensures CountLe(a, v) == CountLe(a', v) && CountLe(b, v) == CountLe(b', v) {
      CountLePermutation(a, a', v);
      CountLePermutation(b, b', v);
    }
    forall v ensures Gap(a, b, v) == Gap(a', b', v) && TieGap(a, b, v) == TieGap(a', b', v) {
      assert CountLe(a, v - 1) == CountLe(a', v - 1) && CountLe(b, v - 1) == CountLe(b', v - 1);
    }
    assert forall c :: BoundsGaps(c, a, b) <==> BoundsGaps(c, a', b');
    assert forall c :: BoundsTieGaps(c, a, b) <==> BoundsTieGaps(c, a', b');
  }
}

/** Sample rings: slot `count % cap` is overwritten, so the ring holds the last `cap` samples. */
module Rings {
  import opened Numeric

  /** `slots[..cap]` is a ring into which the values of `hist` were written in order. */
  ghost predicate IsRing<T>(slots: seq<T>, cap: nat, hist: seq<T>) {
    && 0 < cap <= |slots|
    && forall i {:trigger hist[i]} :: 0 <= i < |hist| && |hist| - cap <= i ==> slots[i % cap] == hist[i]
  }

  /** The values a ring of `cap` slots still holds. */
  ghost function LastOf<T>(hist: seq<T>, cap: nat): (r: seq<T>)
    ensures |r| == Min(|hist|, cap)
  {
    hist[|hist| - Min(|hist|, cap)..]
  }

  lemma MultipleIsFar(cap: int, d: int)
    requires cap > 0
    ensures d >= 1 ==> cap * d >= cap
    ensures d <= -1 ==> cap * d <= -cap
    ensures d == 0 ==> cap * d == 0
  {
    if d >= 1 {
      assert cap * d == cap + cap * (d - 1);
    } else if d <= -1 {
      assert cap * d == -cap + cap * (d + 1);
    }
  }

  lemma ModDistinct(i: int, j: int, cap: nat)
    requires 0 <= i < j < i + cap
    ensures i % cap != j % cap
  {
    var d := j / cap - i / cap;
    assert i == cap * (i / cap) + i % cap && j == cap * (j / cap) + j % cap;
    assert cap * d == cap * (j / cap) - cap * (i / cap);
    MultipleIsFar(cap, d);
  }

  lemma RingAppend<T>(slots: seq<T>, cap: nat, hist: seq<T>, x: T)
    requires IsRing(slots, cap, hist)
    ensures IsRing(slots[|hist| % cap := x], cap, hist + [x])
  {
    var h := hist + [x];
    var s := slots[|hist| % cap := x];
    forall i | 0 <= i < |h| && |h| - cap <= i ensures s[i % cap] == h[i] {
      if i < |hist| {
        ModDistinct(i, |hist|, cap);
        assert slots[i % cap] == hist[i];
      }
    }
  }

  /** The live slots hold exactly the last `cap` values ever written, up to rotation. */
  lemma RingHoldsLast<T>(slots: seq<T>, cap: nat, hist: seq<T>)
    requires IsRing(slots, cap, hist)
    ensures multiset(slots[..Min(|hist|, cap)]) == multiset(LastOf(hist, cap))
  {
    hide IsRing;
    var n := |hist|;
    RingSlots(slots, cap, hist);
    if n <= cap {
      assert slots[..n] == hist == LastOf(hist, cap);
    } else {
      var r := n % cap;
      forall i | 0 <= i < r ensures slots[i] == hist[n - r + i] {
        LiveSlot(slots, cap, hist, n - r + i, i);
      }
      forall i | r <= i < cap ensures slots[i] == hist[n - r - cap + i] {
        LiveSlot(slots, cap, hist, n - r - cap + i, i);
      }
      assert slots[..cap] == hist[n - r..] + hist[n - cap..n - r];
      assert LastOf(hist, cap) == hist[n - cap..n - r] + hist[n - r..];
    }
  }

  /** There are enough slots, and before the first rotation they are in order. */
  lemma RingSlots<T>(slots: seq<T>, cap: nat, hist: seq<T>)
    requires IsRing(slots, cap, hist)
    ensures 0 < cap <= |slots|
    ensures |hist| <= cap ==> forall i :: 0 <= i < |hist| ==> slots[i] == hist[i]
  {
    if |hist| <= cap {
      forall i | 0 <= i < |hist| ensures slots[i] == hist[i] {
        assert i % cap == i by { SmallMod(i, cap); }
        assert slots[i % cap] == hist[i];
      }
    }
  }

  lemma LiveSlot<T>(slots: seq<T>, cap: nat, hist: seq<T>, j: nat, i: nat)
    requires IsRing(slots, cap, hist) && cap < |hist| && i < cap && |hist| - cap <= j < |hist|
    requires j == |hist| - |hist| % cap + i || j == |hist| - |hist| % cap - cap + i
    ensures slots[i] == hist[j]
  {
    RotatedIndex(|hist|, cap, j, i);
    assert slots[j % cap] == hist[j];
  }

  lemma SmallMod(i: int, cap: nat)
    requires 0 <= i < cap
    ensures i % cap == i
  {
  }

  lemma RotatedIndex(n: nat, cap: nat, j: int, i: int)
    requires 0 < cap < n && 0 <= i < cap
    requires j == n - n % cap + i || j == n - n % cap - cap + i
    ensures j % cap == i
  {
    var q := if j == n - n % cap + i then n / cap else n / cap - 1;
    assert n - n % cap == cap * (n / cap);
    assert j == cap * q + i;
    QuotientUnique(j, cap, q, i);
  }
}

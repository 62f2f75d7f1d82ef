/** Machine-integer conversions and the few C library functions the agents call. */
module Numeric {

  datatype Option<+T> = None | Some(value: T)

  const TWO_31 := 0x8000_0000
  const TWO_32 := 0x1_0000_0000
  const TWO_64 := 0x1_0000_0000_0000_0000

  /** Conversion to a 32-bit signed `int`: keep the low 32 bits, read them in two's complement. */
  function ToInt32(x: int): (r: int)
    ensures -TWO_31 <= r < TWO_31
    ensures exists k :: x == r + k * TWO_32
  {
    var low := x % TWO_32;
    assert x == low + (x / TWO_32) * TWO_32;
    assert x == (low - TWO_32) + (x / TWO_32 + 1) * TWO_32;
    if low < TWO_31 then low else low - TWO_32
  }

  /** Conversion to `uint64_t`. */
  function ToUint64(x: int): (r: nat)
    ensures r < TWO_64
    ensures 0 <= x < TWO_64 ==> r == x
  {
    x % TWO_64
  }

  ghost predicate RootAt(sqrt: real -> real, x: real) {
    0.0 <= sqrt(x) && sqrt(x) * sqrt(x) == x
  }

  /** What the model assumes of the C library's `sqrt`; rounding is not modelled. */
  ghost predicate IsSqrt(sqrt: real -> real) {
    forall x {:trigger RootAt(sqrt, x)} :: 0.0 <= x ==> RootAt(sqrt, x)
  }

  function Abs(x: int): nat {
    if x < 0 then -x else x
  }

  function AbsReal(x: real): real {
    if x < 0.0 then -x else x
  }

  function Min(x: int, y: int): int {
    if x < y then x else y
  }

  function Ceil(x: real): int {
    -((-x).Floor)
  }

  /** `lround`: to the nearest integer, halves away from zero. */
  function LRound(x: real): int {
    if x < 0.0 then -((0.5 - x).Floor) else (x + 0.5).Floor
  }

  /** Integer division towards zero. */
  function Quo(x: int, n: nat): int
    requires n > 0
  {
    if x < 0 then -(-x / n) else x / n
  }

  type byte = x: int | 0 <= x < 256

  function Sum(s: seq<int>): int {
    if s == [] then 0 else Sum(s[..|s| - 1]) + s[|s| - 1]
  }

  ghost function SumOver<T>(s: seq<T>, f: T -> int): int {
    if s == [] then 0 else SumOver(s[..|s| - 1], f) + f(s[|s| - 1])
  }

  lemma {:induction false} SumConcat(a: seq<int>, b: seq<int>)
    ensures Sum(a + b) == Sum(a) + Sum(b)
  {
    if b == [] {
      assert a + b == a;
    } else {
      var n := |b| - 1;
      SumConcat(a, b[..n]);
      assert (a + b)[..|a + b| - 1] == a + b[..n];
    }
  }

  /** Wrapping around after each addition is wrapping around once. */
  lemma AddWraps(x: int, y: int)
    ensures ToUint64(ToUint64(x) + y) == ToUint64(x + y)
  {
  }

  // Multiples and quotients.

  lemma NatProduct(x: nat, y: nat)
    ensures 0 <= x * y
  {
  }

  lemma NextMultiple(n: int, x: int, y: int)
    requires n > 0
    ensures x < y ==> n * x + n <= n * y
  {
    if x < y {
      var d := y - x - 1;
      NatProduct(n, d);
      assert y == x + 1 + d;
    }
  }

  lemma DivBetween(x: int, n: int, lo: int, hi: int)
    requires n > 0 && n * lo <= x <= n * hi
    ensures lo <= x / n <= hi
  {
    var q := x / n;
    assert x == n * q + x % n;
    NextMultiple(n, q, lo);
    NextMultiple(n, hi, q);
  }

  lemma QuotientUnique(x: int, n: nat, q: int, r: nat)
    requires n > 0 && r < n && x == n * q + r
    ensures x / n == q && x % n == r
  {
    assert x == n * (x / n) + x % n;
    NextMultiple(n, q, x / n);
    NextMultiple(n, x / n, q);
  }

  /** `q` is the share of `x` divided by `n` towards zero. */
  predicate IsShare(q: int, x: int, n: nat) {
    && n * Abs(q) <= Abs(x) < n * Abs(q) + n
    && (q > 0 ==> x > 0) && (q < 0 ==> x < 0)
  }

  lemma QuoIsShare(x: int, n: nat)
    requires n > 0
    ensures IsShare(Quo(x, n), x, n)
  {
    ShareOfNat(Abs(x), n);
  }

  lemma ShareOfNat(x: nat, n: nat)
    requires n > 0
    ensures 0 <= x / n && n * (x / n) <= x < n * (x / n) + n && (x / n > 0 ==> x > 0)
  {
    var q := x / n;
    assert x == n * q + x % n;
  }

  // Order facts about products of reals.

  lemma Product(x: real, y: real)
    ensures 0.0 <= x && 0.0 <= y ==> 0.0 <= x * y
    ensures 0.0 < x && 0.0 < y ==> 0.0 < x * y
  {
  }

  lemma ScaleLe(x: real, y: real, f: real)
    requires x <= y && 0.0 <= f
    ensures x * f <= y * f
  {
    Product(y - x, f);
  }

  lemma ScaleLt(x: real, y: real, f: real)
    requires x < y && 0.0 < f
    ensures x * f < y * f
  {
    Product(y - x, f);
  }

  lemma ScaleIff(x: real, y: real, f: real)
    requires 0.0 < f
    ensures x < y <==> x * f < y * f
  {
    if x < y {
      ScaleLt(x, y, f);
    } else {
      ScaleLe(y, x, f);
    }
  }

  lemma SquareLe(x: real, y: real)
    requires 0.0 <= x <= y
    ensures x * x <= y * y
  {
    Product(y - x, x);
    Product(y - x, y);
  }

  lemma SquareLt(x: real, y: real)
    requires 0.0 <= x < y
    ensures x * x < y * y
  {
    Product(y - x, x + y);
  }

  /** Non-negative reals compare like their squares. */
  lemma SquareOrder(x: real, y: real)
    requires 0.0 <= x && 0.0 <= y
    ensures x <= y <==> x * x <= y * y
  {
    if x <= y {
      SquareLe(x, y);
    } else {
      SquareLt(y, x);
    }
  }
}

/**
 * Exact arithmetic the converters rely on: powers of two and ten, and the
 * rounding mode PHP calls PHP_ROUND_HALF_DOWN, stated over the reals.
 */
module Numbers {

  /** 2^n. */
  function Pow2(n: nat): (r: nat)
    ensures r >= 1
  {
    if n == 0 then 1 else 2 * Pow2(n - 1)
  }

  /** 10^n. */
  function Pow10(n: nat): (r: nat)
    ensures r >= 1
  {
    if n == 0 then 1 else 10 * Pow10(n - 1)
  }

  /** 10^p for any integer p, as a real: the unit of the p-th decimal place. */
  function Scale(p: int): (r: real)
    ensures r > 0.0
  {
    if p >= 0 then Pow10(p) as real else 1.0 / (Pow10(-p) as real)
  }

  function Abs(x: real): real
  {
    if x < 0.0 then -x else x
  }

  /** True when x has no fractional part. */
  predicate IsInteger(x: real)
  {
    x.Floor as real == x
  }

  /**
   * The nearest natural number to v >= 0, ties going down: the magnitude step of
   * PHP's half-down rounding.
   */
  function HalfDownNat(v: real): (m: nat)
    requires v >= 0.0
    ensures m as real - 0.5 < v <= m as real + 0.5
    ensures v - v.Floor as real == 0.5 ==> m == v.Floor
  {
    var n := v.Floor;
    assert v - n as real == 0.5 ==> 0.5 - v == (-n) as real;
    -((0.5 - v).Floor)
  }

  /** The nearest natural number to v >= 0, ties going up (away from zero). */
  function HalfUpNat(v: real): (m: nat)
    requires v >= 0.0
    ensures m as real - 0.5 <= v < m as real + 0.5
  {
    (v + 0.5).Floor
  }

  /** A whole number is its own nearest natural number. */
  lemma HalfUpNatOfWhole(v: real)
    requires v >= 0.0 && IsInteger(v)
    ensures HalfUpNat(v) as real == v
  {
    var n := v.Floor;
    assert v == n as real;
    assert (v + 0.5).Floor == n;
  }

  /** Abs(a) * s == Abs(a * s) for s > 0. */
  lemma AbsScale(a: real, s: real)
    requires s > 0.0
    ensures Abs(a) * s == Abs(a * s)
    ensures a < 0.0 <==> a * s < 0.0
  {
  }

  /**
   * The integer nearest to v, a tie going towards zero: |v| goes to its nearest
   * natural number, ties down, and the sign of v is put back.
   */
  function HalfDownInt(v: real): (k: int)
    ensures Abs(k as real - v) <= 0.5
    ensures v >= 0.0 ==> k >= 0
    ensures v <= 0.0 ==> k <= 0
    ensures Abs(v) - Abs(v).Floor as real == 0.5 ==> Abs(k as real) == Abs(v).Floor as real
  {
    var m := HalfDownNat(Abs(v));
    if v < 0.0 then -(m as int) else m
  }

  /** (a / s) * s == a: the cancellation step every rounding proof needs. */
  lemma DivMulCancel(a: real, s: real)
    requires s > 0.0
    ensures (a / s) * s == a
  {
  }

  /** Multiplication by s > 0 is injective. */
  lemma MulCancel(a: real, b: real, s: real)
    requires s > 0.0 && a * s == b * s
    ensures a == b
  {
  }

  /** Scaling a difference: (a - b) * s == a * s - b * s. */
  lemma MulSubDistrib(a: real, b: real, s: real)
    ensures (a - b) * s == a * s - b * s
  {
  }

  /** The facts that tie r = k / s back to x, for s > 0. */
  lemma ScaledDistance(x: real, s: real, k: int)
    requires s > 0.0
    ensures (k as real / s) * s == k as real
    ensures Abs(k as real / s - x) * s == Abs(k as real - x * s)
  {
    var r := k as real / s;
    DivMulCancel(k as real, s);
    MulSubDistrib(r, x, s);
    AbsScale(r - x, s);
  }

  /** Half-down rounding to a whole number of units of size 1/s. */
  function RoundToScale(x: real, s: real): real
    requires s > 0.0
  {
    HalfDownInt(x * s) as real / s
  }

  /**
   * The result is a whole number of units 1/s, the nearest one to x with ties
   * towards zero, so it is at most half a unit away from x.
   */
  lemma RoundToScaleFacts(x: real, s: real)
    requires s > 0.0
    ensures RoundToScale(x, s) * s == HalfDownInt(x * s) as real
    ensures Abs(RoundToScale(x, s) - x) * s <= 0.5
  {
    ScaledNearest(x, s, HalfDownInt(x * s));
  }

  /** k / s for an integer k within half of x * s is within half a unit 1/s of x. */
  lemma ScaledNearest(x: real, s: real, k: int)
    requires s > 0.0 && Abs(k as real - x * s) <= 0.5
    ensures (k as real / s) * s == k as real
    ensures Abs(k as real / s - x) * s <= 0.5
  {
    ScaledDistance(x, s, k);
  }

  /** Rounding a non-negative value gives a non-negative value. */
  lemma RoundToScaleNonNegative(x: real, s: real)
    requires s > 0.0 && x >= 0.0
    ensures RoundToScale(x, s) >= 0.0
  {
    var r := RoundToScale(x, s);
    RoundToScaleFacts(x, s);
    if r < 0.0 {
      assert r * s < 0.0;
    }
  }

  /** An integer is its own nearest integer. */
  lemma HalfDownIntOfInt(k: int)
    ensures HalfDownInt(k as real) == k
  {
  }

  /** A whole number k of units 1/s is left unchanged by rounding to that unit. */
  lemma RoundToScaleOfMultiple(k: int, s: real)
    requires s > 0.0
    ensures RoundToScale(k as real / s, s) == k as real / s
  {
    var x := k as real / s;
    DivMulCancel(k as real, s);
    assert x * s == k as real;
    HalfDownIntOfInt(k);
    assert HalfDownInt(x * s) == k;
    var r := RoundToScale(x, s);
    RoundToScaleFacts(x, s);
    assert r * s == k as real;
    MulCancel(r, x, s);
  }

  /** x * s whole means x is already a whole number of units 1/s, so rounding keeps it. */
  lemma RoundToScaleExact(x: real, s: real)
    requires s > 0.0 && IsInteger(x * s)
    ensures RoundToScale(x, s) == x
  {
    var k := (x * s).Floor;
    assert x == k as real / s;
    RoundToScaleOfMultiple(k, s);
  }

  /** Rounding twice to the same unit is rounding once. */
  lemma RoundToScaleIdempotent(x: real, s: real)
    requires s > 0.0
    ensures RoundToScale(RoundToScale(x, s), s) == RoundToScale(x, s)
  {
    RoundToScaleOfMultiple(HalfDownInt(x * s), s);
  }

  /**
   * PHP `round(x, p, PHP_ROUND_HALF_DOWN)` over the reals: the multiple of 10^-p
   * nearest to x, a tie going towards zero. A negative p rounds to tens, hundreds, ...
   * Its properties are those of RoundToScale at the unit Scale(p).
   */
  function RoundHalfDown(x: real, p: int): real
  {
    RoundToScale(x, Scale(p))
  }

  /** Half a unit of the p-th decimal. */
  function HalfUnit(p: int): (h: real)
    ensures h > 0.0 && h * Scale(p) == 0.5
  {
    0.5 / Scale(p)
  }

  /** Rounding to p >= 0 decimals never passes a whole number at or above the value. */
  lemma RoundHalfDownAtMost(x: real, p: int, n: int)
    requires p >= 0 && x <= n as real
    ensures RoundHalfDown(x, p) <= n as real
  {
    WholeTimesScale(n, p);
    RoundToScaleAtMost(x, Scale(p), n as real, n * Pow10(p));
  }

  /** Rounding to units 1/s never passes a whole number of units at or above the value. */
  lemma RoundToScaleAtMost(x: real, s: real, n: real, m: int)
    requires s > 0.0 && x <= n && n * s == m as real
    ensures RoundToScale(x, s) <= n
  {
    var k := HalfDownInt(x * s);
    NearestBelow(x, n, s, k, m);
    DivMulCancel(k as real, s);
    BelowByUnits(k as real / s, n, s, k, m);
  }

  /** The whole number nearest to x * s does not pass n * s when that is whole and x <= n. */
  lemma NearestBelow(x: real, n: real, s: real, k: int, m: int)
    requires s > 0.0 && x <= n && n * s == m as real && Abs(k as real - x * s) <= 0.5
    ensures k <= m
  {
    MulMonotone(x, n, s);
    assert x * s <= m as real;
    assert k as real <= x * s + 0.5;
    assert k as real < m as real + 1.0;
  }

  /** Whole numbers of units 1/s compare as their counts do. */
  lemma BelowByUnits(r: real, n: real, s: real, k: int, m: int)
    requires s > 0.0 && r * s == k as real && n * s == m as real && k <= m
    ensures r <= n
  {
    MulMonotone(n, r, s);
  }

  /** A whole number times 10^p, p >= 0, is a whole number. */
  lemma WholeTimesScale(n: int, p: int)
    requires p >= 0
    ensures (n * Pow10(p)) as real == n as real * Scale(p)
  {
  }

  /** Multiplying by a positive factor keeps the order, strictly or not. */
  lemma MulMonotone(a: real, b: real, s: real)
    requires s > 0.0
    ensures a <= b ==> a * s <= b * s
    ensures a < b ==> a * s < b * s
  {
  }

  /** Rounding to p decimals moves a value by at most half a unit of the p-th decimal. */
  lemma RoundHalfDownClose(x: real, p: int)
    ensures Abs(RoundHalfDown(x, p) - x) <= HalfUnit(p)
  {
    RoundToScaleClose(x, Scale(p));
  }

  /** Rounding to units 1/s moves a value by at most half a unit. */
  lemma RoundToScaleClose(x: real, s: real)
    requires s > 0.0
    ensures Abs(RoundToScale(x, s) - x) <= 0.5 / s
  {
    RoundToScaleFacts(x, s);
    DivideBoth(Abs(RoundToScale(x, s) - x), 0.5, s);
  }

  /** a * s <= b gives a <= b / s, for s > 0. */
  lemma DivideBoth(a: real, b: real, s: real)
    requires s > 0.0 && a * s <= b
    ensures a <= b / s
  {
    DivMulCancel(b, s);
  }

  /** Rounding a non-negative value to p decimals gives a non-negative value. */
  lemma RoundHalfDownNonNegative(x: real, p: int)
    requires x >= 0.0
    ensures RoundHalfDown(x, p) >= 0.0
  {
    RoundToScaleNonNegative(x, Scale(p));
  }

  /** A value that already has at most p decimals is left unchanged by rounding. */
  lemma RoundHalfDownExact(x: real, p: int)
    requires IsInteger(x * Scale(p))
    ensures RoundHalfDown(x, p) == x
  {
    RoundToScaleExact(x, Scale(p));
  }

  /** Rounding twice to the same precision is rounding once. */
  lemma RoundHalfDownIdempotent(x: real, p: int)
    ensures RoundHalfDown(RoundHalfDown(x, p), p) == RoundHalfDown(x, p)
  {
    RoundToScaleIdempotent(x, Scale(p));
  }
}

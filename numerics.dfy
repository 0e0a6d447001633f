/** Exact-real stand-ins for the JavaScript number operations the bond
    calculator uses: integer powers (Math.pow with a whole exponent),
    Math.abs, and Number.prototype.toFixed. */
module Numerics {

  /** Math.abs */
  function Abs(x: real): (r: real)
    ensures r >= 0.0 && (r == x || r == -x)
  {
    if x < 0.0 then -x else x
  }

  /** Math.pow(b, n) for a whole exponent n. */
  function Pow(b: real, n: nat): (r: real)
    ensures b > 0.0 ==> r > 0.0
    ensures b >= 1.0 ==> r >= 1.0
  {
    if n == 0 then 1.0 else b * Pow(b, n - 1)
  }

  lemma MulLeft(a: real, x: real, y: real)
    requires a >= 0.0 && x <= y
    ensures a * x <= a * y && x * a <= y * a
  {
  }

  /** Raising to a whole power is monotone on positive bases. */
  lemma {:induction false} PowMonotone(a: real, b: real, n: nat)
    requires 0.0 < a <= b
    ensures Pow(a, n) <= Pow(b, n)
  {
    if n > 0 {
      PowMonotone(a, b, n - 1);
      var pa, pb := Pow(a, n - 1), Pow(b, n - 1);
      MulLeft(a, pa, pb);
      MulLeft(pb, a, b);
      calc {
        Pow(a, n);
      ==
        a * pa;
      <=
        a * pb;
      ==
        pb * a;
      <=
        pb * b;
      ==
        Pow(b, n);
      }
    }
  }

  /** Raising to a whole power of at least one is strictly monotone on
      positive bases. */
  lemma PowStrictlyMonotone(a: real, b: real, n: nat)
    requires 0.0 < a < b && n >= 1
    ensures Pow(a, n) < Pow(b, n)
  {
    PowMonotone(a, b, n - 1);
    var pa, pb := Pow(a, n - 1), Pow(b, n - 1);
    MulLeft(a, pa, pb);
    assert (b - a) * pb > 0.0;
    calc {
      Pow(a, n);
    ==
      a * pa;
    <=
      a * pb;
    <
      b * pb;
    ==
      Pow(b, n);
    }
  }

  /** A strictly larger (positive) denominator gives a strictly smaller
      quotient of a positive numerator. */
  lemma StrictDivAntitone(c: real, a: real, b: real)
    requires c > 0.0 && 0.0 < a < b
    ensures c / b < c / a
  {
  }

  /** A larger (positive) denominator gives a smaller quotient of a
      non-negative numerator. */
  lemma DivAntitone(c: real, a: real, b: real)
    requires c >= 0.0 && 0.0 < a <= b
    ensures c / b <= c / a
  {
  }

  /** 10^digits, the scale toFixed rounds at. */
  function Scale(digits: nat): (s: real)
    ensures s >= 1.0
  {
    Pow(10.0, digits)
  }

  /** Threshold above which toFixed falls back to the plain number text,
      i.e. leaves the value as it is. */
  const ToFixedLimit: real := 1000000000000000000000.0

  /** toFixed on a non-negative value below 10^21: the integer nearest to
      x * 10^digits, the larger one on a tie, divided back by 10^digits;
      written one decimal digit at a time. */
  function RoundHalfUp(x: real, digits: nat): real
    // digits alone bounds the recursion; x is listed so that a call with a
    // literal digit count is not unfolded down to its floor.
    decreases digits, x
  {
    if digits == 0 then (x + 0.5).Floor as real
    else RoundHalfUp(x * 10.0, digits - 1) / 10.0
  }

  /** +x.toFixed(digits): the sign is set aside, the magnitude rounded half
      up to `digits` decimals, and the sign put back; magnitudes of 10^21
      and above are returned unchanged. */
  function ToFixed(x: real, digits: nat): real
  {
    if Abs(x) >= ToFixedLimit then x
    else if x < 0.0 then -RoundHalfUp(-x, digits)
    else RoundHalfUp(x, digits)
  }

  /** Rounding half up moves a value by at most half a unit in the last
      kept digit. */
  lemma {:induction false} RoundHalfUpError(x: real, digits: nat)
    ensures Abs(RoundHalfUp(x, digits) - x) <= 0.5 / Scale(digits)
    decreases digits
  {
    if digits == 0 {
      var n := (x + 0.5).Floor as real;
      assert n <= x + 0.5 < n + 1.0;
    } else {
      RoundHalfUpError(x * 10.0, digits - 1);
      var s := Scale(digits - 1);
      var y := RoundHalfUp(x * 10.0, digits - 1);
      assert Scale(digits) == 10.0 * s;
      assert Abs(y - x * 10.0) <= 0.5 / s;
      DivideByTen(y - x * 10.0, 0.5 / s);
      assert (y - x * 10.0) / 10.0 == y / 10.0 - x;
      assert 0.5 / s / 10.0 == 0.5 / (10.0 * s);
    }
  }

  lemma DivideByTen(d: real, e: real)
    requires Abs(d) <= e
    ensures Abs(d / 10.0) <= e / 10.0
  {
  }

  /** toFixed moves a value by at most half a unit in the last kept digit,
      and never changes its sign. */
  lemma ToFixedError(x: real, digits: nat)
    ensures Abs(ToFixed(x, digits) - x) <= 0.5 / Scale(digits)
    ensures x >= 0.0 ==> ToFixed(x, digits) >= 0.0
    ensures x < 0.0 ==> ToFixed(x, digits) <= 0.0
  {
    RoundHalfUpError(x, digits);
    RoundHalfUpError(-x, digits);
    if x >= 0.0 { RoundHalfUpNonNegative(x, digits); }
    if x < 0.0 { RoundHalfUpNonNegative(-x, digits); }
    assert 0.5 / Scale(digits) > 0.0;
  }

  lemma {:induction false} RoundHalfUpNonNegative(x: real, digits: nat)
    requires x >= 0.0
    ensures RoundHalfUp(x, digits) >= 0.0
    decreases digits
  {
    if digits == 0 {
      assert (x + 0.5).Floor >= 0;
    } else {
      RoundHalfUpNonNegative(x * 10.0, digits - 1);
    }
  }

  /** toFixed(6) is off by at most 0.0000005 and keeps a non-negative value
      non-negative. */
  lemma ToFixedSixError(x: real)
    ensures x - 0.0000005 <= ToFixed(x, 6) <= x + 0.0000005
    ensures x >= 0.0 ==> ToFixed(x, 6) >= 0.0
  {
    ToFixedError(x, 6);
    assert Scale(6) == 1000000.0;
  }

  /** A value known to lie in [lo, hi] lies, after toFixed(6), in the same
      interval widened by 0.0000005 on each side. */
  lemma RoundedSixWithin(lo: real, hi: real, x: real, y: real)
    requires lo <= x <= hi && y == ToFixed(x, 6)
    ensures lo - 0.0000005 <= y <= hi + 0.0000005
  {
    ToFixedSixError(x);
  }

  /** toFixed(6) of a non-negative value is non-negative and within
      0.0000005 of it. */
  lemma RoundedSixNear(x: real, y: real)
    requires x >= 0.0 && y == ToFixed(x, 6)
    ensures 0.0 <= y && x - 0.0000005 <= y <= x + 0.0000005
  {
    ToFixedSixError(x);
  }
}

/** The fixed-coupon bond calculator's building blocks: present value at a
    periodic rate, yield to maturity by bisection, and the coupon schedule. */
module BondUtils {
  import opened Numerics
  import opened BondTypes
  import opened CalculateBondDto

  // ---------------------------------------------------------------------------
  // Bond price
  // ---------------------------------------------------------------------------

  /** Sum over t = 1..n of coupon / (1 + r)^t. */
  function CouponValue(r: real, coupon: real, n: nat): real
    requires r > -1.0
  {
    if n == 0 then 0.0 else CouponValue(r, coupon, n - 1) + coupon / Pow(1.0 + r, n)
  }

  /** The present value of n coupons and the face value repaid with the
      last one, at periodic discount rate r. */
  function PresentValue(r: real, coupon: real, faceValue: real, n: nat): real
    requires r > -1.0
  {
    CouponValue(r, coupon, n) + faceValue / Pow(1.0 + r, n)
  }

  /** bondPrice: accumulates the discounted coupons period by period, then
      adds the discounted face value. */
  method BondPrice(r: real, coupon: real, faceValue: real, periods: nat) returns (price: real)
    requires r > -1.0
    ensures price == PresentValue(r, coupon, faceValue, periods)
  {
    price := 0.0;
    var t := 1;
    while t <= periods
      invariant 1 <= t <= periods + 1
      invariant price == CouponValue(r, coupon, t - 1)
    {
      price := price + coupon / Pow(1.0 + r, t);
      t := t + 1;
    }
    price := price + faceValue / Pow(1.0 + r, periods);
  }

  /** With non-negative coupons the discounted coupon stream is worth less at
      a higher rate. */
  lemma {:induction false} CouponValueAntitone(r1: real, r2: real, coupon: real, n: nat)
    requires -1.0 < r1 <= r2 && coupon >= 0.0
    ensures CouponValue(r2, coupon, n) <= CouponValue(r1, coupon, n)
  {
    if n > 0 {
      CouponValueAntitone(r1, r2, coupon, n - 1);
      PowMonotone(1.0 + r1, 1.0 + r2, n);
      DivAntitone(coupon, Pow(1.0 + r1, n), Pow(1.0 + r2, n));
    }
  }

  /** The price is non-increasing in the rate for non-negative coupon and
      face value: the reason bisection moves `low` up when the price is
      still above the market price. */
  lemma PresentValueAntitone(r1: real, r2: real, coupon: real, faceValue: real, n: nat)
    requires -1.0 < r1 <= r2 && coupon >= 0.0 && faceValue >= 0.0
    ensures PresentValue(r2, coupon, faceValue, n) <= PresentValue(r1, coupon, faceValue, n)
  {
    CouponValueAntitone(r1, r2, coupon, n);
    PowMonotone(1.0 + r1, 1.0 + r2, n);
    DivAntitone(faceValue, Pow(1.0 + r1, n), Pow(1.0 + r2, n));
  }

  lemma DivCancel(x: real, b: real, q: real)
    requires b != 0.0 && q != 0.0
    ensures x / q == x * b / (b * q)
  {
  }

  lemma DivSum(x: real, y: real, d: real)
    requires d != 0.0
    ensures x / d + y / d == (x + y) / d
  {
  }

  /** Coupons paid at the discount rate itself are worth the face value less
      the discounted face value. */
  lemma {:induction false} ParCouponValue(r: real, faceValue: real, n: nat)
    requires r > -1.0
    ensures CouponValue(r, faceValue * r, n) == faceValue - faceValue / Pow(1.0 + r, n)
  {
    if n > 0 {
      ParCouponValue(r, faceValue, n - 1);
      var b, q := 1.0 + r, Pow(1.0 + r, n - 1);
      assert Pow(1.0 + r, n) == b * q;
      DivCancel(faceValue, b, q);
      DivSum(-(faceValue * b), faceValue * r, b * q);
      assert -(faceValue * b) + faceValue * r == -faceValue;
    }
  }

  /** A bond whose coupon rate equals the discount rate is priced at par. */
  lemma ParBondPrice(r: real, faceValue: real, n: nat)
    requires r > -1.0
    ensures PresentValue(r, faceValue * r, faceValue, n) == faceValue
  {
    ParCouponValue(r, faceValue, n);
  }

  // ---------------------------------------------------------------------------
  // Yield to maturity by bisection
  // ---------------------------------------------------------------------------

  /** The fixed bracket of periodic rates searched. */
  const BracketLow: real := -0.9999
  const BracketHigh: real := 1.0
  /** Periodic rates at or below this are reported as this rate. */
  const ClampLimit: real := -0.9998
  /** Default tolerance on |price - marketPrice| and default iteration cap. */
  const DefaultTolerance: real := 0.00000001
  const DefaultMaxIterations: nat := 200

  /** The function whose root is sought: the bond's price at a periodic rate
      minus the market price. */
  datatype PriceGap = PriceGap(marketPrice: real, coupon: real, faceValue: real, periods: nat)
  {
    function At(r: real): real
      requires r > -1.0
    {
      PresentValue(r, coupon, faceValue, periods) - marketPrice
    }
  }

  /** The loop variables of the bisection: the bracket, the last midpoint,
      the number of halvings done so far, and whether the loop broke off on
      tolerance. */
  datatype Search = Search(low: real, high: real, mid: real, steps: nat, converged: bool)

  predicate InBracket(s: Search)
  {
    BracketLow <= s.low <= s.mid <= s.high && s.low < s.high
  }

  /** The state before the first iteration. */
  const Start: Search := Search(BracketLow, BracketHigh, 0.0, 0, false)

  /** k more iterations of the bisection loop from state s. */
  function Bisect(f: PriceGap, tolerance: real, s: Search, k: nat): (t: Search)
    requires InBracket(s)
    ensures InBracket(t)
    ensures s.low <= t.low && t.high <= s.high
    // k alone bounds the recursion; f is listed so that a call with a
    // literal iteration count is not unfolded level by level.
    decreases k, f
  {
    if s.converged || k == 0 then s
    else
      var m := (s.low + s.high) / 2.0;
      var v := f.At(m);
      if Abs(v) < tolerance then s.(mid := m, converged := true)
      else if v > 0.0 then Bisect(f, tolerance, Search(m, s.high, m, s.steps + 1, false), k - 1)
      else Bisect(f, tolerance, Search(s.low, m, m, s.steps + 1, false), k - 1)
  }

  /** Annualise a periodic rate, reporting rates at or below ClampLimit as
      ClampLimit. */
  function Annualise(periodic: real, frequency: real): real
  {
    if periodic <= ClampLimit then ClampLimit * frequency else periodic * frequency
  }

  /** The annual yield calculateYTM reports, or None when the fixed bracket
      does not hold a sign change. */
  function Ytm(f: PriceGap, frequency: real, tolerance: real, maxIterations: nat): Option<real>
  {
    if f.At(BracketLow) * f.At(BracketHigh) > 0.0 then None
    else Some(Annualise(Bisect(f, tolerance, Start, maxIterations).mid, frequency))
  }

  /** calculateYTM */
  method CalculateYTM(marketPrice: real, coupon: real, faceValue: real, periods: nat,
                      frequency: real, tolerance: real, maxIterations: nat)
    returns (ytm: Option<real>)
    ensures ytm == Ytm(PriceGap(marketPrice, coupon, faceValue, periods), frequency, tolerance, maxIterations)
    ensures ytm.None? <==>
      PriceGap(marketPrice, coupon, faceValue, periods).At(BracketLow)
      * PriceGap(marketPrice, coupon, faceValue, periods).At(BracketHigh) > 0.0
  {
    ghost var f := PriceGap(marketPrice, coupon, faceValue, periods);
    var low := BracketLow;
    var high := BracketHigh;
    var mid := 0.0;

    var priceLow := BondPrice(low, coupon, faceValue, periods);
    var priceHigh := BondPrice(high, coupon, faceValue, periods);
    var fLow := priceLow - marketPrice;
    var fHigh := priceHigh - marketPrice;
    YtmCases(f, frequency, tolerance, maxIterations, fLow, fHigh);
    if fLow * fHigh > 0.0 {
      return None;
    }

    ghost var goal := Bisect(f, tolerance, Start, maxIterations);
    var i: nat := 0;
    while i < maxIterations
      invariant i <= maxIterations
      invariant InBracket(Search(low, high, mid, i, false))
      invariant goal == Bisect(f, tolerance, Search(low, high, mid, i, false), maxIterations - i)
    {
      ghost var before := Search(low, high, mid, i, false);
      mid := (low + high) / 2.0;
      var price := BondPrice(mid, coupon, faceValue, periods);
      var value := price - marketPrice;
      BisectStep(f, tolerance, before, maxIterations - i, value);
      if Abs(value) < tolerance {
        break;
      }
      if value > 0.0 {
        low := mid;
      } else {
        high := mid;
      }
      i := i + 1;
    }
    assert mid == goal.mid;

    var periodicYTM := mid;
    var annualYTM := periodicYTM * frequency;
    if periodicYTM <= ClampLimit {
      return Some(ClampLimit * frequency);
    }
    AnnualiseUnclamped(periodicYTM, frequency);
    return Some(annualYTM);
  }

  lemma AnnualiseUnclamped(periodic: real, frequency: real)
    requires periodic > ClampLimit
    ensures Annualise(periodic, frequency) == periodic * frequency
  {
  }

  /** The bracket check decides between no yield and the annualised end
      point of the search. */
  lemma YtmCases(f: PriceGap, frequency: real, tolerance: real, maxIterations: nat,
                 fLow: real, fHigh: real)
    requires fLow == f.At(BracketLow) && fHigh == f.At(BracketHigh)
    ensures fLow * fHigh > 0.0 ==> Ytm(f, frequency, tolerance, maxIterations) == None
    ensures fLow * fHigh <= 0.0 ==>
      Ytm(f, frequency, tolerance, maxIterations)
        == Some(Annualise(Bisect(f, tolerance, Start, maxIterations).mid, frequency))
  {
  }

  /** No yield is reported exactly when the bracket check fails. */
  lemma YtmNone(f: PriceGap, frequency: real, tolerance: real, maxIterations: nat)
    ensures Ytm(f, frequency, tolerance, maxIterations).None?
      <==> f.At(BracketLow) * f.At(BracketHigh) > 0.0
  {
  }

  /** A null yield means the bond cannot be solved on the bracket: for
      non-negative cash flows no rate of the bracket prices the bond at the
      market price. */
  lemma YtmNoneMeansNoRoot(f: PriceGap, frequency: real, tolerance: real, maxIterations: nat, r: real)
    requires f.coupon >= 0.0 && f.faceValue >= 0.0
    requires Ytm(f, frequency, tolerance, maxIterations).None?
    requires BracketLow <= r <= BracketHigh
    ensures f.At(r) != 0.0
  {
    SameSign(f.At(BracketLow), f.At(BracketHigh));
    PresentValueAntitone(BracketLow, r, f.coupon, f.faceValue, f.periods);
    PresentValueAntitone(r, BracketHigh, f.coupon, f.faceValue, f.periods);
  }

  /** A positive product has factors of the same strict sign. */
  lemma SameSign(a: real, b: real)
    requires a * b > 0.0
    ensures (a > 0.0 && b > 0.0) || (a < 0.0 && b < 0.0)
  {
    if a >= 0.0 && b <= 0.0 { MulLeft(a, b, 0.0); }
    if a <= 0.0 && b >= 0.0 { MulLeft(b, a, 0.0); }
  }

  /** One iteration of the loop, in terms of the value at the midpoint. */
  lemma BisectStep(f: PriceGap, tolerance: real, s: Search, k: nat, value: real)
    requires InBracket(s) && !s.converged && k > 0
    requires value == f.At((s.low + s.high) / 2.0)
    ensures var m := (s.low + s.high) / 2.0;
      && (Abs(value) < tolerance ==> Bisect(f, tolerance, s, k) == s.(mid := m, converged := true))
      && (Abs(value) >= tolerance && value > 0.0 ==>
            Bisect(f, tolerance, s, k) == Bisect(f, tolerance, Search(m, s.high, m, s.steps + 1, false), k - 1))
      && (Abs(value) >= tolerance && value <= 0.0 ==>
            Bisect(f, tolerance, s, k) == Bisect(f, tolerance, Search(s.low, m, m, s.steps + 1, false), k - 1))
  {
  }

  /** Each iteration moves `low` only to a rate where the price is above the
      market price and `high` only to one where it is not. */
  lemma {:induction false} BisectSigns(f: PriceGap, tolerance: real, s: Search, k: nat)
    requires InBracket(s)
    requires s.low == BracketLow || f.At(s.low) > 0.0
    requires s.high == BracketHigh || f.At(s.high) <= 0.0
    ensures var t := Bisect(f, tolerance, s, k);
      (t.low == BracketLow || f.At(t.low) > 0.0) && (t.high == BracketHigh || f.At(t.high) <= 0.0)
    decreases k
  {
    if !s.converged && k > 0 {
      var m := (s.low + s.high) / 2.0;
      if Abs(f.At(m)) >= tolerance {
        if f.At(m) > 0.0 {
          BisectSigns(f, tolerance, Search(m, s.high, m, s.steps + 1, false), k - 1);
        } else {
          BisectSigns(f, tolerance, Search(s.low, m, m, s.steps + 1, false), k - 1);
        }
      }
    }
  }

  /** Once the bracket holds a sign change (price above the market price at
      `low`, not above at `high`), every iteration keeps one. */
  lemma {:induction false} BisectKeepsRoot(f: PriceGap, tolerance: real, s: Search, k: nat)
    requires InBracket(s)
    requires f.At(s.low) >= 0.0 >= f.At(s.high)
    ensures var t := Bisect(f, tolerance, s, k); f.At(t.low) >= 0.0 >= f.At(t.high)
    decreases k
  {
    if !s.converged && k > 0 {
      var m := (s.low + s.high) / 2.0;
      if Abs(f.At(m)) >= tolerance {
        if f.At(m) > 0.0 {
          BisectKeepsRoot(f, tolerance, Search(m, s.high, m, s.steps + 1, false), k - 1);
        } else {
          BisectKeepsRoot(f, tolerance, Search(s.low, m, m, s.steps + 1, false), k - 1);
        }
      }
    }
  }

  /** Every halving halves the bracket: after `steps` halvings its width is
      the initial width over 2^steps. */
  lemma {:induction false} BisectWidth(f: PriceGap, tolerance: real, s: Search, k: nat, width: real)
    requires InBracket(s)
    requires s.high - s.low == width / Pow(2.0, s.steps)
    ensures var t := Bisect(f, tolerance, s, k); t.high - t.low == width / Pow(2.0, t.steps)
    decreases k
  {
    if !s.converged && k > 0 {
      var m := (s.low + s.high) / 2.0;
      if Abs(f.At(m)) >= tolerance {
        var p := Pow(2.0, s.steps);
        assert Pow(2.0, s.steps + 1) == 2.0 * p;
        DivCancel(width, 2.0, p);
        assert (s.high - s.low) / 2.0 == width / (2.0 * p);
        if f.At(m) > 0.0 {
          BisectWidth(f, tolerance, Search(m, s.high, m, s.steps + 1, false), k - 1, width);
        } else {
          BisectWidth(f, tolerance, Search(s.low, m, m, s.steps + 1, false), k - 1, width);
        }
      }
    }
  }

  /** The loop runs at most k more iterations. It stops early exactly when a
      midpoint prices within tolerance of the market price: it stops at once
      on such a midpoint, and a search that runs all k halvings ends on a
      midpoint outside the tolerance, at an end of the bracket. */
  lemma {:induction false} BisectIterations(f: PriceGap, tolerance: real, s: Search, k: nat)
    requires InBracket(s) && !s.converged
    ensures var t := Bisect(f, tolerance, s, k);
      && s.steps <= t.steps <= s.steps + k
      && (t.converged ==> t.steps < s.steps + k && Abs(f.At(t.mid)) < tolerance)
      && (!t.converged ==> t.steps == s.steps + k)
      && (!t.converged && k > 0 ==> t.mid == t.low || t.mid == t.high)
      && (!t.converged && k > 0 ==> Abs(f.At(t.mid)) >= tolerance)
      && (k > 0 && Abs(f.At((s.low + s.high) / 2.0)) < tolerance ==>
            t == s.(mid := (s.low + s.high) / 2.0, converged := true))
    decreases k
  {
    if k > 0 {
      var m := (s.low + s.high) / 2.0;
      if Abs(f.At(m)) >= tolerance {
        if f.At(m) > 0.0 {
          BisectIterations(f, tolerance, Search(m, s.high, m, s.steps + 1, false), k - 1);
        } else {
          BisectIterations(f, tolerance, Search(s.low, m, m, s.steps + 1, false), k - 1);
        }
      }
    }
  }

  /** For non-negative coupon and face value, a bracket that passes the
      check has the price above (or at) the market price at the low end and
      below (or at) it at the high end. */
  lemma BracketOrientation(f: PriceGap)
    requires f.coupon >= 0.0 && f.faceValue >= 0.0
    requires f.At(BracketLow) * f.At(BracketHigh) <= 0.0
    ensures f.At(BracketLow) >= 0.0 >= f.At(BracketHigh)
  {
    PresentValueAntitone(BracketLow, BracketHigh, f.coupon, f.faceValue, f.periods);
  }

  /** When calculateYTM returns a number for a bond with non-negative coupon
      and face value, the bisection ends on a bracket with a sign change of
      width 1.9999 / 2^steps, after at most maxIterations iterations; if it
      broke off on tolerance, the price at `mid` is within tolerance. */
  lemma YtmLocatesRoot(f: PriceGap, tolerance: real, maxIterations: nat)
    requires f.coupon >= 0.0 && f.faceValue >= 0.0
    requires f.At(BracketLow) * f.At(BracketHigh) <= 0.0
    ensures var t := Bisect(f, tolerance, Start, maxIterations);
      && f.At(t.low) >= 0.0 >= f.At(t.high)
      && t.high - t.low == (BracketHigh - BracketLow) / Pow(2.0, t.steps)
      && t.steps <= maxIterations
      && (t.converged ==> Abs(f.At(t.mid)) < tolerance)
      && (!t.converged && maxIterations > 0 ==> Abs(f.At(t.mid)) >= tolerance)
  {
    BracketOrientation(f);
    BisectKeepsRoot(f, tolerance, Start, maxIterations);
    BisectWidth(f, tolerance, Start, maxIterations, BracketHigh - BracketLow);
    BisectIterations(f, tolerance, Start, maxIterations);
  }

  /** Annualising a rate of the bracket gives at least ClampLimit and at
      most BracketHigh per period. */
  lemma AnnualiseRange(periodic: real, frequency: real)
    requires BracketLow <= periodic <= BracketHigh && frequency >= 0.0
    ensures ClampLimit * frequency <= Annualise(periodic, frequency) <= BracketHigh * frequency
    ensures periodic <= ClampLimit ==> Annualise(periodic, frequency) == ClampLimit * frequency
  {
    if periodic > ClampLimit {
      MulLeft(frequency, ClampLimit, periodic);
      MulLeft(frequency, periodic, BracketHigh);
      assert Annualise(periodic, frequency) == periodic * frequency;
      assert ClampLimit * frequency <= periodic * frequency;
      assert periodic * frequency <= BracketHigh * frequency;
    }
  }

  /** A reported yield lies between ClampLimit and 1.0 per period, annualised;
      it is ClampLimit annualised when the final midpoint is at or below
      ClampLimit, and the midpoint annualised otherwise. */
  lemma YtmRange(f: PriceGap, frequency: real, tolerance: real, maxIterations: nat)
    requires frequency >= 0.0
    ensures var y := Ytm(f, frequency, tolerance, maxIterations);
      y.Some? ==> ClampLimit * frequency <= y.value <= BracketHigh * frequency
    ensures var y := Ytm(f, frequency, tolerance, maxIterations);
      var mid := Bisect(f, tolerance, Start, maxIterations).mid;
      y.Some? && mid <= ClampLimit ==> y.value == ClampLimit * frequency
    ensures var y := Ytm(f, frequency, tolerance, maxIterations);
      var mid := Bisect(f, tolerance, Start, maxIterations).mid;
      y.Some? && mid > ClampLimit ==> y.value == mid * frequency
  {
    AnnualiseRange(Bisect(f, tolerance, Start, maxIterations).mid, frequency);
  }

  /** With no iterations allowed a bracketed search reports the initial
      midpoint, 0. */
  lemma YtmWithoutIterations(f: PriceGap, frequency: real, tolerance: real)
    requires f.At(BracketLow) * f.At(BracketHigh) <= 0.0
    ensures Ytm(f, frequency, tolerance, 0) == Some(0.0)
  {
  }

  /** A bond priced at par has its periodic coupon rate as an exact root of
      the price gap. */
  lemma ParBondRoot(faceValue: real, rate: real, periods: nat)
    requires rate > -1.0
    ensures PriceGap(faceValue, faceValue * rate, faceValue, periods).At(rate) == 0.0
  {
    ParBondPrice(rate, faceValue, periods);
  }

  /** At par, with a coupon rate of at most 100% per period, the bracket
      check passes: the price is at least the market price at the low end
      and at most at the high end. */
  lemma ParBondBracketed(f: PriceGap, rate: real)
    requires f.faceValue >= 0.0 && f.marketPrice == f.faceValue
    requires 0.0 <= rate <= 1.0 && f.coupon == f.faceValue * rate
    ensures f.At(BracketLow) >= 0.0 >= f.At(BracketHigh)
    ensures f.At(BracketLow) * f.At(BracketHigh) <= 0.0
  {
    ParBondPrice(rate, f.faceValue, f.periods);
    PresentValueAntitone(BracketLow, rate, f.coupon, f.faceValue, f.periods);
    PresentValueAntitone(rate, BracketHigh, f.coupon, f.faceValue, f.periods);
    MulLeft(f.At(BracketLow), f.At(BracketHigh), 0.0);
  }

  /** With a positive face value and at least one period the price falls
      strictly as the rate rises. */
  lemma PresentValueStrictlyAntitone(r1: real, r2: real, coupon: real, faceValue: real, n: nat)
    requires -1.0 < r1 < r2 && coupon >= 0.0 && faceValue > 0.0 && n >= 1
    ensures PresentValue(r2, coupon, faceValue, n) < PresentValue(r1, coupon, faceValue, n)
  {
    CouponValueAntitone(r1, r2, coupon, n);
    PowStrictlyMonotone(1.0 + r1, 1.0 + r2, n);
    StrictDivAntitone(faceValue, Pow(1.0 + r1, n), Pow(1.0 + r2, n));
  }

  /** At par, a bisection from the fixed bracket keeps the coupon rate per
      period inside its bracket, so its midpoint is within the bracket's
      width, 1.9999 / 2^steps, of that rate. */
  lemma ParBondSearch(f: PriceGap, rate: real, tolerance: real, k: nat)
    requires f.faceValue > 0.0 && f.marketPrice == f.faceValue && f.periods >= 1
    requires 0.0 <= rate <= 1.0 && f.coupon == f.faceValue * rate
    ensures var t := Bisect(f, tolerance, Start, k);
      && t.low <= rate <= t.high
      && Abs(t.mid - rate) <= (BracketHigh - BracketLow) / Pow(2.0, t.steps)
  {
    var t := Bisect(f, tolerance, Start, k);
    ParBondBracketed(f, rate);
    BisectKeepsRoot(f, tolerance, Start, k);
    BisectWidth(f, tolerance, Start, k, BracketHigh - BracketLow);
    ParRootInside(f, rate, t.low, t.high);
  }

  /** At par, any bracket over which the price gap changes sign contains the
      coupon rate per period, its only root. */
  lemma ParRootInside(f: PriceGap, rate: real, low: real, high: real)
    requires f.faceValue > 0.0 && f.marketPrice == f.faceValue && f.periods >= 1
    requires 0.0 <= rate <= 1.0 && f.coupon == f.faceValue * rate
    requires -1.0 < low && -1.0 < high
    requires f.At(low) >= 0.0 >= f.At(high)
    ensures low <= rate <= high
  {
    ParBondRoot(f.faceValue, rate, f.periods);
    if low > rate {
      PresentValueStrictlyAntitone(rate, low, f.coupon, f.faceValue, f.periods);
    }
    if high < rate {
      PresentValueStrictlyAntitone(high, rate, f.coupon, f.faceValue, f.periods);
    }
  }

  // ---------------------------------------------------------------------------
  // Cash-flow schedule
  // ---------------------------------------------------------------------------

  /** The coupon paid each period. */
  function CouponPayment(inputs: BondInputs): (c: real)
    requires IsFrequency(inputs.couponFrequency)
    ensures inputs.faceValue >= 0.0 && inputs.annualCouponRate >= 0.0 ==> c >= 0.0
  {
    inputs.faceValue * inputs.annualCouponRate / inputs.couponFrequency
  }

  /** The months between two payments. */
  function MonthsPerPeriod(frequency: real): real
    requires IsFrequency(frequency)
  {
    12.0 / frequency
  }

  /** How many times `for (p = 1; p <= periods; p++)` runs. */
  function RowCount(periods: real): (n: nat)
  {
    if periods < 1.0 then 0 else periods.Floor
  }

  /** The loop runs exactly for the whole numbers p with 1 <= p <= periods. */
  lemma RowCountIsLoopCount(periods: real, p: int)
    ensures 1 <= p <= RowCount(periods) <==> 1 <= p && p as real <= periods
  {
  }

  lemma NextMultiple(p: int, c: real)
    ensures (p - 1) as real * c + c == p as real * c
  {
  }

  lemma WholeFloor(x: real, n: int)
    requires x.Floor as real == x && n as real <= x < n as real + 1.0
    ensures n as real == x
  {
    var k := x.Floor;
    assert n <= k;
    assert k < n + 1;
  }

  lemma RowCountExit(periods: real, p: int)
    requires 1 <= p <= RowCount(periods) + 1 && p as real > periods
    ensures p == RowCount(periods) + 1
  {
  }

  /** The coupons paid in periods 1..p, added up one period at a time. */
  function CumulativeInterest(inputs: BondInputs, p: nat): real
    requires IsFrequency(inputs.couponFrequency)
  {
    if p == 0 then 0.0 else CumulativeInterest(inputs, p - 1) + CouponPayment(inputs)
  }

  /** Coupons are simple interest: p periods pay p coupons. */
  lemma {:induction false} CumulativeInterestIsMultiple(inputs: BondInputs, p: nat)
    requires IsFrequency(inputs.couponFrequency)
    ensures CumulativeInterest(inputs, p) == p as real * CouponPayment(inputs)
  {
    if p > 0 {
      CumulativeInterestIsMultiple(inputs, p - 1);
      NextMultiple(p, CouponPayment(inputs));
    }
  }

  /** The row for period p. */
  function ScheduleRow(inputs: BondInputs, p: nat): CashFlowRow
    requires IsFrequency(inputs.couponFrequency)
  {
    CashFlowRow(
      p,
      p as real * MonthsPerPeriod(inputs.couponFrequency),
      ToFixed(CouponPayment(inputs), 4),
      ToFixed(CumulativeInterest(inputs, p), 4),
      if p as real == Periods(inputs) then 0.0 else inputs.faceValue)
  }

  /** The rows for periods 1..k, in period order. */
  function Rows(inputs: BondInputs, k: nat): seq<CashFlowRow>
    requires IsFrequency(inputs.couponFrequency)
  {
    if k == 0 then [] else Rows(inputs, k - 1) + [ScheduleRow(inputs, k)]
  }

  /** The schedule: one row per loop iteration. */
  function Schedule(inputs: BondInputs): seq<CashFlowRow>
    requires IsFrequency(inputs.couponFrequency)
  {
    Rows(inputs, RowCount(Periods(inputs)))
  }

  /** Row i of the first k rows is the row for period i + 1. */
  lemma {:induction false} RowsAt(inputs: BondInputs, k: nat, i: nat)
    requires IsFrequency(inputs.couponFrequency)
    requires i < k
    ensures |Rows(inputs, k)| == k
    ensures Rows(inputs, k)[i] == ScheduleRow(inputs, i + 1)
  {
    RowsLength(inputs, k);
    if i < k - 1 {
      RowsAt(inputs, k - 1, i);
    }
  }

  lemma {:induction false} RowsLength(inputs: BondInputs, k: nat)
    requires IsFrequency(inputs.couponFrequency)
    ensures |Rows(inputs, k)| == k
  {
    if k > 0 {
      RowsLength(inputs, k - 1);
    }
  }

  /** buildCashFlowSchedule: appends one row per period, carrying the running
      total of coupons paid. */
  method BuildCashFlowSchedule(inputs: BondInputs) returns (rows: seq<CashFlowRow>)
    requires IsFrequency(inputs.couponFrequency)
    ensures rows == Schedule(inputs)
  {
    var periods := Periods(inputs);
    var couponPayment := CouponPayment(inputs);
    var monthsPerPeriod := MonthsPerPeriod(inputs.couponFrequency);

    rows := [];
    var cumulative := 0.0;
    var p: nat := 1;
    while p as real <= periods
      invariant 1 <= p <= RowCount(periods) + 1
      invariant cumulative == CumulativeInterest(inputs, p - 1)
      invariant rows == Rows(inputs, p - 1)
      decreases RowCount(periods) + 1 - p
    {
      RowCountIsLoopCount(periods, p);
      cumulative := cumulative + couponPayment;
      var row := CashFlowRow(
        p,
        p as real * monthsPerPeriod,
        ToFixed(couponPayment, 4),
        ToFixed(cumulative, 4),
        if p as real == periods then 0.0 else inputs.faceValue);
      rows := rows + [row];
      p := p + 1;
    }
    RowCountExit(periods, p);
  }

  /** A whole number of periods. */
  predicate WholePeriods(inputs: BondInputs)
  {
    Periods(inputs).Floor as real == Periods(inputs)
  }

  /** The schedule has one row per whole period: none when fewer than one
      period remains, otherwise the whole part of the period count. */
  lemma ScheduleLength(inputs: BondInputs)
    requires IsFrequency(inputs.couponFrequency)
    ensures var n := |Schedule(inputs)|;
      && (Periods(inputs) < 1.0 ==> n == 0)
      && (Periods(inputs) >= 1.0 ==> n as real <= Periods(inputs) < n as real + 1.0)
  {
    RowsLength(inputs, RowCount(Periods(inputs)));
  }

  /** Row i of the schedule is period i + 1: it is paid (i + 1) periods of
      months after the start, carries one coupon, the running total of i + 1
      coupons, both rounded to four decimals. */
  lemma ScheduleRowAt(inputs: BondInputs, i: nat)
    requires IsFrequency(inputs.couponFrequency)
    requires i < |Schedule(inputs)|
    ensures var row := Schedule(inputs)[i];
      && row.period == i + 1
      && row.monthsAfterStart == (i + 1) as real * MonthsPerPeriod(inputs.couponFrequency)
      && row.couponPayment == ToFixed(CouponPayment(inputs), 4)
      && row.cumulativeInterest == ToFixed((i + 1) as real * CouponPayment(inputs), 4)
  {
    RowsLength(inputs, RowCount(Periods(inputs)));
    RowsAt(inputs, RowCount(Periods(inputs)), i);
    CumulativeInterestIsMultiple(inputs, i + 1);
  }

  /** Row i repays the principal exactly when period i + 1 is the last of a
      whole number of periods. */
  lemma PrincipalAt(inputs: BondInputs, i: nat)
    requires IsFrequency(inputs.couponFrequency)
    requires i < |Schedule(inputs)|
    ensures Schedule(inputs)[i].remainingPrincipal
      == if (i + 1) as real == Periods(inputs) then 0.0 else inputs.faceValue
  {
    RowsLength(inputs, RowCount(Periods(inputs)));
    RowsAt(inputs, RowCount(Periods(inputs)), i);
  }

  /** With a whole number n >= 1 of periods, the principal is repaid on the
      last row and on no other. */
  lemma PrincipalRepaidAtMaturity(inputs: BondInputs)
    requires IsFrequency(inputs.couponFrequency)
    requires WholePeriods(inputs) && Periods(inputs) >= 1.0
    ensures var rows := Schedule(inputs);
      && |rows| as real == Periods(inputs)
      && rows[|rows| - 1].remainingPrincipal == 0.0
      && forall i :: 0 <= i < |rows| - 1 ==> rows[i].remainingPrincipal == inputs.faceValue
  {
    var rows := Schedule(inputs);
    WholeScheduleLength(inputs);
    PrincipalAt(inputs, |rows| - 1);
    forall i | 0 <= i < |rows| - 1
      ensures rows[i].remainingPrincipal == inputs.faceValue
    {
      PrincipalAt(inputs, i);
    }
  }

  /** With a fractional number of periods no row repays the principal. */
  lemma FractionalPeriodsNeverRepay(inputs: BondInputs)
    requires IsFrequency(inputs.couponFrequency)
    requires !WholePeriods(inputs)
    ensures forall row :: row in Schedule(inputs) ==> row.remainingPrincipal == inputs.faceValue
  {
    var rows := Schedule(inputs);
    ScheduleLength(inputs);
    forall i | 0 <= i < |rows|
      ensures rows[i].remainingPrincipal == inputs.faceValue
    {
      PrincipalAt(inputs, i);
      assert (i + 1) as real != Periods(inputs);
    }
  }

  /** Validated inputs give at most 200 rows. */
  lemma ScheduleAtMost200Rows(inputs: BondInputs)
    requires ValidInputs(inputs)
    ensures |Schedule(inputs)| <= 200
  {
    PeriodsBounded(inputs);
    ScheduleLength(inputs);
  }

  /** A whole, positive number of periods gives exactly that many rows. */
  lemma WholeScheduleLength(inputs: BondInputs)
    requires IsFrequency(inputs.couponFrequency) && WholePeriods(inputs)
    requires Periods(inputs) > 0.0
    ensures |Schedule(inputs)| as real == Periods(inputs)
  {
    var p := Periods(inputs);
    ScheduleLength(inputs);
    WholeFloor(p, |Schedule(inputs)|);
  }

  /** With a whole number of periods the last row's running total is one
      coupon per period. */
  lemma LastRowTotal(inputs: BondInputs)
    requires IsFrequency(inputs.couponFrequency) && WholePeriods(inputs)
    requires Schedule(inputs) != []
    ensures Schedule(inputs)[|Schedule(inputs)| - 1].cumulativeInterest
      == ToFixed(CouponPayment(inputs) * Periods(inputs), 4)
  {
    var n := |Schedule(inputs)|;
    TotalOfAllPeriods(inputs);
    RowsLength(inputs, RowCount(Periods(inputs)));
    RowsAt(inputs, RowCount(Periods(inputs)), n - 1);
  }

  /** Adding up one coupon per row gives the coupon times the number of
      periods. */
  lemma TotalOfAllPeriods(inputs: BondInputs)
    requires IsFrequency(inputs.couponFrequency) && WholePeriods(inputs)
    requires Schedule(inputs) != []
    ensures CumulativeInterest(inputs, |Schedule(inputs)|) == CouponPayment(inputs) * Periods(inputs)
  {
    var n := |Schedule(inputs)|;
    ScheduleLength(inputs);
    WholeScheduleLength(inputs);
    CumulativeInterestIsMultiple(inputs, n);
    assert n as real * CouponPayment(inputs) == CouponPayment(inputs) * n as real;
  }
}

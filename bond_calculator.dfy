/** calculateBond: the output record built from the price, yield and
    schedule parts. */
module BondCalculator {
  import opened Numerics
  import opened BondTypes
  import opened CalculateBondDto
  import opened BondUtils

  /** The price gap calculateBond hands to the yield search: the market
      price against the bond's coupon per period, face value and (whole)
      number of periods. */
  function GapOf(inputs: BondInputs): (f: PriceGap)
    requires ValidInputs(inputs) && WholePeriods(inputs)
    ensures f.marketPrice == inputs.marketPrice && f.faceValue == inputs.faceValue
    ensures f.coupon == CouponPayment(inputs) >= 0.0
    ensures f.periods as real == Periods(inputs)
  {
    PeriodsBounded(inputs);
    PriceGap(inputs.marketPrice, CouponPayment(inputs), inputs.faceValue, Periods(inputs).Floor)
  }

  /** calculateBond, for inputs that passed validation and make a whole
      number of coupon periods: the current yield, the yield to maturity
      (null when the price cannot be bracketed), the total interest, the
      premium and discount flags, and the cash-flow schedule. */
  function CalculateBond(inputs: BondInputs): (out: BondOutputs)
    requires ValidInputs(inputs) && WholePeriods(inputs)
    // Premium and discount
    ensures !(out.isPremium && out.isDiscount)
    ensures !out.isPremium && !out.isDiscount <==> inputs.marketPrice == inputs.faceValue
    ensures out.isPremium <==> inputs.marketPrice > inputs.faceValue
    ensures out.isDiscount <==> inputs.marketPrice < inputs.faceValue
    // The current yield: the annual coupon over the market price, to six decimals
    ensures 0.0 <= out.currentYield
    ensures inputs.faceValue * inputs.annualCouponRate / inputs.marketPrice - 0.0000005
      <= out.currentYield
      <= inputs.faceValue * inputs.annualCouponRate / inputs.marketPrice + 0.0000005
    // The yield to maturity: null exactly when the bracket shows no sign change,
    // otherwise calculateYTM's value to six decimals, within the annualised
    // bracket up to the rounding
    ensures out.ytm.None? <==> GapOf(inputs).At(BracketLow) * GapOf(inputs).At(BracketHigh) > 0.0
    ensures out.ytm.None?
      <==> Ytm(GapOf(inputs), inputs.couponFrequency, DefaultTolerance, DefaultMaxIterations).None?
    ensures out.ytm.Some? ==>
      ClampLimit * inputs.couponFrequency - 0.0000005 <= out.ytm.value
        <= BracketHigh * inputs.couponFrequency + 0.0000005
    ensures out.ytm.Some? ==>
      Ytm(GapOf(inputs), inputs.couponFrequency, DefaultTolerance, DefaultMaxIterations).Some?
      && Abs(out.ytm.value
             - Ytm(GapOf(inputs), inputs.couponFrequency, DefaultTolerance, DefaultMaxIterations).value)
         <= 0.0000005
    ensures inputs.marketPrice == inputs.faceValue ==> out.ytm.Some?
    // The total interest: the annual coupon over all years, to four decimals
    ensures out.totalInterestEarned
      == ToFixed(inputs.faceValue * inputs.annualCouponRate * inputs.yearsToMaturity, 4)
    // The schedule: buildCashFlowSchedule's, one row per period, at most 200,
    // its last running total being the total interest
    ensures out.cashFlowSchedule == Schedule(inputs)
    ensures |out.cashFlowSchedule| as real == Periods(inputs) <= 200.0
    ensures out.cashFlowSchedule != []
    ensures out.cashFlowSchedule[|out.cashFlowSchedule| - 1].cumulativeInterest == out.totalInterestEarned
  {
    // annualCoupon is faceValue * annualCouponRate and periodicCoupon is
    // CouponPayment(inputs); each is written out where it is used.
    CurrentYieldRounded(inputs);
    YtmRounded(inputs);
    ParYtmReported(inputs);
    InterestOverTerm(inputs);
    ScheduleTotals(inputs);
    BondOutputs(
      ToFixed(inputs.faceValue * inputs.annualCouponRate / inputs.marketPrice, 6),
      RoundSix(Ytm(GapOf(inputs), inputs.couponFrequency, DefaultTolerance, DefaultMaxIterations)),
      ToFixed(CouponPayment(inputs) * Periods(inputs), 4),
      inputs.marketPrice > inputs.faceValue,
      inputs.marketPrice < inputs.faceValue,
      Schedule(inputs))
  }

  /** toFixed(6) on a yield that may be null. */
  function RoundSix(y: Option<real>): Option<real>
  {
    if y.Some? then Some(ToFixed(y.value, 6)) else None
  }

  // The lemmas below take the whole request rather than its fields, so that
  // what they state is about the very terms the record holds.

  /** The current yield rounded to six decimals is non-negative and within
      0.0000005 of the exact quotient. */
  lemma CurrentYieldRounded(inputs: BondInputs)
    requires ValidInputs(inputs)
    ensures 0.0 <= ToFixed(inputs.faceValue * inputs.annualCouponRate / inputs.marketPrice, 6)
    ensures inputs.faceValue * inputs.annualCouponRate / inputs.marketPrice - 0.0000005
      <= ToFixed(inputs.faceValue * inputs.annualCouponRate / inputs.marketPrice, 6)
      <= inputs.faceValue * inputs.annualCouponRate / inputs.marketPrice + 0.0000005
  {
    NonNegativeQuotient(inputs.faceValue, inputs.annualCouponRate, inputs.marketPrice);
    RoundedSixNear(inputs.faceValue * inputs.annualCouponRate / inputs.marketPrice,
                   ToFixed(inputs.faceValue * inputs.annualCouponRate / inputs.marketPrice, 6));
  }

  /** The rounded yield to maturity is null exactly when the bracket shows no
      sign change, and otherwise lies within 0.0000005 of the search's yield
      and within the annualised bracket widened by the rounding. */
  lemma YtmRounded(inputs: BondInputs)
    requires ValidInputs(inputs) && WholePeriods(inputs)
    ensures RoundSix(Ytm(GapOf(inputs), inputs.couponFrequency, DefaultTolerance, DefaultMaxIterations)).None?
      <==> GapOf(inputs).At(BracketLow) * GapOf(inputs).At(BracketHigh) > 0.0
    ensures RoundSix(Ytm(GapOf(inputs), inputs.couponFrequency, DefaultTolerance, DefaultMaxIterations)).None?
      <==> Ytm(GapOf(inputs), inputs.couponFrequency, DefaultTolerance, DefaultMaxIterations).None?
    ensures var r := RoundSix(Ytm(GapOf(inputs), inputs.couponFrequency, DefaultTolerance, DefaultMaxIterations));
      r.Some? ==>
        ClampLimit * inputs.couponFrequency - 0.0000005 <= r.value
          <= BracketHigh * inputs.couponFrequency + 0.0000005
    ensures var y := Ytm(GapOf(inputs), inputs.couponFrequency, DefaultTolerance, DefaultMaxIterations);
      RoundSix(y).Some? ==> y.Some? && Abs(RoundSix(y).value - y.value) <= 0.0000005
  {
    var y := Ytm(GapOf(inputs), inputs.couponFrequency, DefaultTolerance, DefaultMaxIterations);
    YtmNone(GapOf(inputs), inputs.couponFrequency, DefaultTolerance, DefaultMaxIterations);
    YtmRange(GapOf(inputs), inputs.couponFrequency, DefaultTolerance, DefaultMaxIterations);
    if y.Some? {
      RoundedSixWithin(ClampLimit * inputs.couponFrequency, BracketHigh * inputs.couponFrequency,
                       y.value, RoundSix(y).value);
      ToFixedSixError(y.value);
    }
  }

  /** For valid inputs with a whole number of periods the schedule has one
      row per period, and its last running total is the coupon times the
      number of periods, to four decimals. */
  lemma ScheduleTotals(inputs: BondInputs)
    requires ValidInputs(inputs) && WholePeriods(inputs)
    ensures |Schedule(inputs)| as real == Periods(inputs) <= 200.0
    ensures Schedule(inputs) != []
    ensures Schedule(inputs)[|Schedule(inputs)| - 1].cumulativeInterest
        == ToFixed(CouponPayment(inputs) * Periods(inputs), 4)
  {
    PeriodsBounded(inputs);
    WholeScheduleLength(inputs);
    LastRowTotal(inputs);
  }

  /** A bond priced at par always gets a yield to maturity: its coupon rate
      per period, at most 100%, is a root inside the fixed bracket. */
  lemma ParYtmReported(inputs: BondInputs)
    requires ValidInputs(inputs) && WholePeriods(inputs)
    ensures inputs.marketPrice == inputs.faceValue ==>
      Ytm(GapOf(inputs), inputs.couponFrequency, DefaultTolerance, DefaultMaxIterations).Some?
  {
    if inputs.marketPrice == inputs.faceValue {
      PeriodicRate(inputs);
      ParBondBracketed(GapOf(inputs), inputs.annualCouponRate / inputs.couponFrequency);
    }
  }

  /** The coupon per period is the face value times the coupon rate per
      period, which lies between 0 and 1. */
  lemma PeriodicRate(inputs: BondInputs)
    requires ValidInputs(inputs)
    ensures CouponPayment(inputs)
      == inputs.faceValue * (inputs.annualCouponRate / inputs.couponFrequency)
    ensures 0.0 <= inputs.annualCouponRate / inputs.couponFrequency <= 1.0
  {
  }

  /** One coupon per period over all periods is the annual coupon over all
      years. */
  lemma InterestOverTerm(inputs: BondInputs)
    requires IsFrequency(inputs.couponFrequency)
    ensures CouponPayment(inputs) * Periods(inputs)
      == inputs.faceValue * inputs.annualCouponRate * inputs.yearsToMaturity
  {
    CancelFrequency(inputs.faceValue * inputs.annualCouponRate, inputs.couponFrequency,
                    inputs.yearsToMaturity);
  }

  lemma CancelFrequency(c: real, q: real, years: real)
    requires q != 0.0
    ensures c / q * (years * q) == c * years
  {
  }

  lemma NonNegativeQuotient(a: real, b: real, c: real)
    requires a >= 0.0 && b >= 0.0 && c > 0.0
    ensures a * b / c >= 0.0
  {
  }
}

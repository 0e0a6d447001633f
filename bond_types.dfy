/** The records the bond calculator exchanges with its callers. */
module BondTypes {

  /** `number | null` */
  datatype Option<T> = None | Some(value: T)

  /** One calculation request. `couponFrequency` is 1 (annual) or 2
      (semi-annual); `annualCouponRate` is a fraction (0.05 for 5%). */
  datatype BondInputs = BondInputs(
    faceValue: real,
    annualCouponRate: real,
    marketPrice: real,
    yearsToMaturity: real,
    couponFrequency: real)

  /** One payment of the schedule. The calendar date is represented by the
      number of months after the schedule's start date that the source adds
      with setMonth. */
  datatype CashFlowRow = CashFlowRow(
    period: nat,
    monthsAfterStart: real,
    couponPayment: real,
    cumulativeInterest: real,
    remainingPrincipal: real)

  /** The result of one calculation. */
  datatype BondOutputs = BondOutputs(
    currentYield: real,
    ytm: Option<real>,
    totalInterestEarned: real,
    isPremium: bool,
    isDiscount: bool,
    cashFlowSchedule: seq<CashFlowRow>)

  /** The number of coupon periods, yearsToMaturity * couponFrequency; not
      necessarily a whole number. */
  function Periods(inputs: BondInputs): real
  {
    inputs.yearsToMaturity * inputs.couponFrequency
  }

  /** The frequency has the declared type `1 | 2`. */
  predicate IsFrequency(f: real)
  {
    f == 1.0 || f == 2.0
  }
}

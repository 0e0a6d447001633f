/** The request body's field bounds, checked before the calculator runs. */
module CalculateBondDto {
  import opened BondTypes

  const MaxAmount: real := 1000000000.0
  const MinYears: real := 0.1
  const MaxYears: real := 100.0

  /** A number, positive, at most one billion. */
  predicate FaceValueOk(x: real) { 0.0 < x <= MaxAmount }

  /** A number from 0 to 1: a fraction, not a percentage. */
  predicate CouponRateOk(x: real) { 0.0 <= x <= 1.0 }

  /** A number, positive, at most one billion. */
  predicate MarketPriceOk(x: real) { 0.0 < x <= MaxAmount }

  /** A number from 0.1 to 100 years. */
  predicate YearsOk(x: real) { MinYears <= x <= MaxYears }

  /** One of 1 (annual) and 2 (semi-annual). */
  predicate FrequencyOk(x: real) { IsFrequency(x) }

  /** The request passes validation: every field within its bounds. */
  predicate ValidInputs(inputs: BondInputs)
  {
    && FaceValueOk(inputs.faceValue)
    && CouponRateOk(inputs.annualCouponRate)
    && MarketPriceOk(inputs.marketPrice)
    && YearsOk(inputs.yearsToMaturity)
    && FrequencyOk(inputs.couponFrequency)
  }

  /** The validated fields of the request body, in declaration order. */
  datatype Field = FaceValue | AnnualCouponRate | MarketPrice | YearsToMaturity | CouponFrequency

  const AllFields: seq<Field> := [FaceValue, AnnualCouponRate, MarketPrice, YearsToMaturity, CouponFrequency]

  /** The bound that one field must meet. */
  predicate FieldOk(inputs: BondInputs, field: Field)
  {
    match field
    case FaceValue => FaceValueOk(inputs.faceValue)
    case AnnualCouponRate => CouponRateOk(inputs.annualCouponRate)
    case MarketPrice => MarketPriceOk(inputs.marketPrice)
    case YearsToMaturity => YearsOk(inputs.yearsToMaturity)
    case CouponFrequency => FrequencyOk(inputs.couponFrequency)
  }

  /** The fields of `fields` that fail their bound, in the same order. */
  function Failing(inputs: BondInputs, fields: seq<Field>): (bad: seq<Field>)
    ensures forall f :: f in bad <==> f in fields && !FieldOk(inputs, f)
  {
    if fields == [] then []
    else (if FieldOk(inputs, fields[0]) then [] else [fields[0]]) + Failing(inputs, fields[1..])
  }

  /** Every field is listed in AllFields. */
  lemma AllFieldsListed(f: Field)
    ensures f in AllFields
  {
    match f
    case FaceValue => assert AllFields[0] == f;
    case AnnualCouponRate => assert AllFields[1] == f;
    case MarketPrice => assert AllFields[2] == f;
    case YearsToMaturity => assert AllFields[3] == f;
    case CouponFrequency => assert AllFields[4] == f;
  }

  /** A request is valid exactly when each field meets its own bound. */
  lemma ValidInputsByField(inputs: BondInputs)
    ensures ValidInputs(inputs) <==> forall f :: FieldOk(inputs, f)
  {
    if !ValidInputs(inputs) {
      if !FaceValueOk(inputs.faceValue) { assert !FieldOk(inputs, FaceValue); }
      else if !CouponRateOk(inputs.annualCouponRate) { assert !FieldOk(inputs, AnnualCouponRate); }
      else if !MarketPriceOk(inputs.marketPrice) { assert !FieldOk(inputs, MarketPrice); }
      else if !YearsOk(inputs.yearsToMaturity) { assert !FieldOk(inputs, YearsToMaturity); }
      else { assert !FieldOk(inputs, CouponFrequency); }
    }
  }

  /** The fields that fail validation, in declaration order; a request with
      any is rejected with these field errors. */
  function InvalidFields(inputs: BondInputs): (names: seq<Field>)
    ensures forall f :: f in names <==> !FieldOk(inputs, f)
    ensures names == [] <==> ValidInputs(inputs)
  {
    forall f | true ensures f in AllFields { AllFieldsListed(f); }
    ValidInputsByField(inputs);
    assert Failing(inputs, AllFields) != [] ==>
      Failing(inputs, AllFields)[0] in Failing(inputs, AllFields);
    Failing(inputs, AllFields)
  }

  /** Validated inputs give between 0.1 and 200 coupon periods. */
  lemma PeriodsBounded(inputs: BondInputs)
    requires ValidInputs(inputs)
    ensures 0.1 <= Periods(inputs) <= 200.0
  {
  }
}

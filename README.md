# Fixed-coupon bond calculator, modelled in Dafny

This project models the calculation core of a fixed-coupon bond calculator. A request gives:

- a face value;
- an annual coupon rate, as a fraction;
- a market price;
- the years to maturity;
- a coupon frequency: once or twice a year.

The calculator answers with:

- the current yield;
- the yield to maturity, or null when none can be bracketed;
- the total interest earned;
- premium and discount flags;
- one cash-flow row per coupon period.

Arithmetic is on exact `real`s.

Modules:

- `Numerics` holds the stand-ins for the JavaScript number operations used:
  - `Math.pow` with a whole exponent;
  - `Math.abs`;
  - `toFixed`, as exact round-half-up on the magnitude with the sign restored and values of 10^21 and above left unchanged.
- `BondTypes` holds the request, the row and the result records.
- `CalculateBondDto` holds the request validation bounds: the `ValidInputs` predicate and the list of failing fields.
- `BondUtils` holds the three loops, each a method proved equal to a specification function, plus the properties proved about those functions:
  - `bondPrice` is the method `BondPrice`; its specification is `PresentValue`.
  - `calculateYTM` is the method `CalculateYTM`. Its specification is `Ytm`, through the bisection function `Bisect` over a `Search` state (low, high, mid, halvings done, converged).
  - `buildCashFlowSchedule` is the method `BuildCashFlowSchedule`; its specification is `Schedule`.
- `BondCalculator` holds `calculateBond`, which is pure. `CalculateBond` is a function whose contract states the output record's properties.

The closure `f(r) = bondPrice(r, …) - marketPrice` is the datatype `PriceGap`, applied through its member `At`.

For the cash-flow schedule the model follows the code exactly:

- The schedule has `floor(periods)` rows.
- The principal is zeroed only on a row whose period equals `periods` exactly. A fractional `periods` gives rows that never repay the principal (`FractionalPeriodsNeverRepay`). For example, 2.5 years once a year gives two rows, and both keep the face value.

## Model

| member | source | states |
|---|---|---|
| Numerics.Pow | backend/src/bond/bond.utils.ts:39-42 | a whole power of a positive base is positive, and of a base of at least 1 is at least 1 |
| Numerics.ToFixedError | backend/src/bond/bond.utils.ts:170-172 | toFixed(digits) moves a value by at most half a unit in the last kept digit and never changes its sign |
| BondUtils.BondPrice | backend/src/bond/bond.utils.ts:30-44 | the loop's price is the sum over t = 1..n of coupon/(1+r)^t plus faceValue/(1+r)^n, for r > -1 |
| BondUtils.PresentValueAntitone | backend/src/bond/bond.utils.ts:36-43 | with non-negative coupon and face value the price is non-increasing in the rate |
| BondUtils.ParBondPrice | backend/src/bond/bond.utils.ts:36-43 | a coupon equal to faceValue times the discount rate prices the bond at exactly its face value |
| BondUtils.Bisect | backend/src/bond/bond.utils.ts:75-88 | the loop keeps -0.9999 <= low <= mid <= high <= 1.0 with low < high, and only narrows the bracket |
| BondUtils.CalculateYTM | backend/src/bond/bond.utils.ts:50-101 | the method returns Ytm of its arguments, and returns null exactly when f(-0.9999) * f(1.0) > 0 |
| BondUtils.YtmNoneMeansNoRoot | backend/src/bond/bond.utils.ts:64-73 | a null yield means the bond cannot be solved: for non-negative coupon and face value, no rate in [-0.9999, 1.0] prices it at the market price |
| BondUtils.BisectSigns | backend/src/bond/bond.utils.ts:77-87 | low only moves to rates where f > 0 and high only to rates where f <= 0 |
| BondUtils.BisectKeepsRoot | backend/src/bond/bond.utils.ts:75-88 | once f(low) >= 0 >= f(high), every iteration keeps it so |
| BondUtils.BisectWidth | backend/src/bond/bond.utils.ts:75-88 | each iteration that does not exit halves high - low: after s halvings the width is the initial width over 2^s |
| BondUtils.BisectIterations | backend/src/bond/bond.utils.ts:75-88 | the loop takes at most maxIterations halvings, and fewer exactly when it breaks: a midpoint with abs(f(mid)) < tolerance stops it at once, and, when maxIterations > 0, a search that runs all its halvings ends on a midpoint with abs(f(mid)) >= tolerance |
| BondUtils.BracketOrientation | backend/src/bond/bond.utils.ts:60-73 | for non-negative coupon and face value, a bracket that passes the check has f(-0.9999) >= 0 >= f(1.0) |
| BondUtils.YtmLocatesRoot | backend/src/bond/bond.utils.ts:60-90 | with non-negative cash flows the bisection ends on a bracket holding a sign change of f. The bracket has width 1.9999 / 2^steps after at most maxIterations steps, abs(f(mid)) < tolerance on an early exit, and, when maxIterations > 0, only then |
| BondUtils.AnnualiseRange | backend/src/bond/bond.utils.ts:90-100 | an annualised rate of the bracket lies in [-0.9998 * frequency, frequency] and is exactly -0.9998 * frequency when the periodic rate is <= -0.9998 |
| BondUtils.YtmRange | backend/src/bond/bond.utils.ts:90-100 | a reported yield lies in [-0.9998 * frequency, frequency]; it is -0.9998 * frequency when the final midpoint is <= -0.9998, and the midpoint times frequency otherwise |
| BondUtils.YtmWithoutIterations | backend/src/bond/bond.utils.ts:60-100 | with maxIterations = 0 a bracketed search reports 0 |
| BondUtils.ParBondRoot | backend/src/bond/bond.utils.ts:64-65 | at par, the periodic coupon rate is an exact root of f |
| BondUtils.ParBondBracketed | backend/src/bond/bond.utils.ts:64-73 | at par, with a coupon rate per period in [0, 1], the bracket check passes, so a yield is reported |
| BondUtils.PresentValueStrictlyAntitone | backend/src/bond/bond.utils.ts:36-43 | with positive face value, non-negative coupon and at least one period the price falls strictly as the rate rises |
| BondUtils.ParRootInside | backend/src/bond/bond.utils.ts:64-65 | at par, every bracket over which f changes sign contains the coupon rate per period |
| BondUtils.ParBondSearch | backend/src/bond/bond.utils.ts:60-88 | at par the bisection keeps the coupon rate per period in its bracket, and ends with mid within 1.9999 / 2^steps of it |
| BondUtils.CouponPayment | backend/src/bond/bond.utils.ts:115 | the coupon per period is non-negative for a non-negative face value and rate |
| BondUtils.RowCountIsLoopCount | backend/src/bond/bond.utils.ts:121 | the rows are exactly the whole p with 1 <= p <= periods |
| BondUtils.CumulativeInterestIsMultiple | backend/src/bond/bond.utils.ts:119-122 | after p periods the running total is p times the coupon payment |
| BondUtils.BuildCashFlowSchedule | backend/src/bond/bond.utils.ts:107-138 | the loop's rows are the schedule specification, one row per period with its running total |
| BondUtils.ScheduleLength | backend/src/bond/bond.utils.ts:114-121 | the schedule has floor(periods) rows: none below one period, and n rows for n <= periods < n + 1 |
| BondUtils.ScheduleRowAt | backend/src/bond/bond.utils.ts:121-134 | row i has period i + 1, the coupon payment and cumulative interest (i+1) * coupon, each to four decimals, and is paid (i+1) * 12/frequency months after the start |
| BondUtils.PrincipalAt | backend/src/bond/bond.utils.ts:132-133 | a row's remaining principal is 0 exactly when its period equals periods, and otherwise the face value |
| BondUtils.PrincipalRepaidAtMaturity | backend/src/bond/bond.utils.ts:132-133 | with a whole number of periods of at least one, only the last row repays the principal |
| BondUtils.FractionalPeriodsNeverRepay | backend/src/bond/bond.utils.ts:132-133 | with a fractional number of periods every row keeps the face value as remaining principal |
| BondUtils.ScheduleAtMost200Rows | backend/src/bond/bond.utils.ts:114-121 | validated inputs give at most 200 rows |
| BondUtils.WholeScheduleLength | backend/src/bond/bond.utils.ts:114-121 | a whole, positive number of periods gives exactly that many rows |
| BondUtils.LastRowTotal | backend/src/bond/bond.utils.ts:119-131 | with whole periods the last row's cumulative interest is coupon times periods, to four decimals |
| BondUtils.TotalOfAllPeriods | backend/src/bond/bond.utils.ts:119-122 | the running total over all rows equals coupon times periods |
| BondCalculator.GapOf | backend/src/bond/bond.utils.ts:153-165 | the yield search receives the market price, the periodic coupon, the face value and the (whole) number of periods |
| BondCalculator.CalculateBond | backend/src/bond/bond.utils.ts:144-177 | premium and discount are exclusive, both false exactly at par; ytm is null exactly when calculateYTM is null, i.e. when the bracket has no sign change, and otherwise is within 0.0000005 of calculateYTM's value and in the annualised clamp range; at par a yield is always reported; current yield is within rounding of annual coupon over price; total interest is annual coupon times years to four decimals, equal to the last row's running total; the schedule is buildCashFlowSchedule's, with periods rows, at most 200 |
| BondCalculator.CurrentYieldRounded | backend/src/bond/bond.utils.ts:157-170 | the current yield to six decimals is non-negative and within 0.0000005 of annual coupon over market price |
| BondCalculator.YtmRounded | backend/src/bond/bond.utils.ts:159-171 | the rounded yield is null exactly when calculateYTM's is, and otherwise within 0.0000005 of calculateYTM's value and within the clamp range widened by the rounding |
| BondCalculator.ParYtmReported | backend/src/bond/bond.utils.ts:153-165 | when the market price equals the face value, the yield search reports a yield |
| BondCalculator.PeriodicRate | backend/src/bond/bond.utils.ts:153-154 | the coupon per period is the face value times the coupon rate per period, which lies in [0, 1] for validated inputs |
| BondCalculator.InterestOverTerm | backend/src/bond/bond.utils.ts:153-167 | periodic coupon times periods equals face value times rate times years |
| BondCalculator.ScheduleTotals | backend/src/bond/bond.utils.ts:167-175 | for validated whole-period inputs the schedule is non-empty, has periods rows and its last running total is the rounded total interest |
| CalculateBondDto.InvalidFields | backend/src/bond/dto/calculate-bond.dto.ts:3-26 | a field is reported exactly when it breaks its bound, and none is reported exactly when the request is valid |
| CalculateBondDto.Failing | backend/src/bond/dto/calculate-bond.dto.ts:4-25 | the failing fields of a list are exactly those listed that break their bound |
| CalculateBondDto.ValidInputsByField | backend/src/bond/dto/calculate-bond.dto.ts:4-25 | a request is valid exactly when each field meets its own bound: face value and market price in (0, 1e9], rate in [0, 1], years in [0.1, 100], frequency 1 or 2 |
| CalculateBondDto.PeriodsBounded | backend/src/bond/dto/calculate-bond.dto.ts:19-25 | validated inputs give between 0.1 and 200 coupon periods |

## Left out

- IEEE-754 doubles are not modelled. Arithmetic is exact, so float rounding error, NaN, Infinity and underflow of `Math.pow` at large exponents are outside the model.
- `toFixed` is modelled as exact decimal rounding of the exact value. The binary-to-decimal effects of doubles are not modelled (for example, a double just below a written tie rounds down).
- Payment dates are not modelled. Each row carries `monthsAfterStart = period * 12 / frequency` instead of the ISO date string. `Date.setMonth` month-end overflow and `toISOString` are calendar-library behaviour.
- The default `startDate = new Date()` is a clock read, and the model has no start date.
- BondUtils.BondPrice: takes the period count as a whole number. `Math.pow` with a fractional exponent has no counterpart over exact reals.
- BondUtils.CalculateYTM: takes the period count as a whole number, for the same reason.
- BondCalculator.CalculateBond: requires a whole number of periods (`WholePeriods`), for the same reason. For a fractional count the source prices with `Math.pow(1 + r, periods)` at line 42. The schedule part is still modelled for fractional counts, by `BondUtils.Schedule` and the lemmas about it.
- BondCalculator.GapOf: requires a whole number of periods, for the same reason. The source hands the fractional count itself to the yield search.
- BondCalculator.YtmRounded: requires a whole number of periods, since it speaks of `GapOf`.
- The NestJS serving layer is not modelled: bootstrap, CORS, the global validation pipe, the throttler guard, the one-line controller and service, and the health endpoint. The HTTP 400 response is represented only by the list of failing fields.
- The semantics of the class-validator library are not modelled (how `@IsNumber` treats NaN or strings). Only the numeric bounds are.
- The frontend is not modelled: components, hooks, the fetch client, timers and locale formatting.

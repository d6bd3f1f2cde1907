# Reducing-balance amortisation, modelled in Dafny

This project models the reducing-balance EMI calculator of a loan
amortisation service, together with the calculation request it consumes.

- **Calculator.** `ReducingBalanceCalculator.calculate` does four things:
  - It validates the request.
  - It derives a monthly rate from the annual percentage.
  - It computes the equated monthly installment (EMI) from the annuity
    formula `EMI = P × r × (1+r)^n / ((1+r)^n − 1)`.
  - It builds the installment schedule. Each installment splits the EMI
    into interest on the outstanding balance and principal. The last
    installment repays whatever balance is left, so that balance ends at
    exactly zero.

  It then adds up the interest column and returns the totals and an audit
  record. Any failure is returned as one `CalculationException`.
- **Request.** `CalculationRequest` contributes its bean-validation
  constraints, the `MONTHLY` frequency default and `isOptionEnabled`.

Java's `BigDecimal` is exact except where a scale and `HALF_UP` rounding are
named. It is modelled as `real`, with `Decimal.RoundHalfUp(x, k)` for
`setScale(k, HALF_UP)` and for `divide(d, k, HALF_UP)`.

The loop of `generateSchedule` is modelled by:
- `Generation.State(t, k)`: the exact loop variables after `k` iterations;
- `Generation.InstallmentAt(t, k)`: the installment that iteration `k + 1`
  appends, holding its stored values.

`java.time.LocalDate.plusMonths` is modelled by `Calendar.PlusMonths`. It
clamps the day of the month, and `calculate` fails when the last due date
leaves `LocalDate`'s year range.

Modules, one per file:
- `Wrappers`: `Option`, `Result` and `Outcome`.
- `Decimal`: half-up rounding and exact powers.
- `Calendar`: dates and `plusMonths`.
- `Methods`: the `AmortisationMethod` enum.
- `Requests`: `CalculationRequest`, its constraints and its options.
- `Schedules`: `Installment`, `EMISchedule` and the audit record.
- `Annuity`: the monthly rate and the EMI.
- `Generation`: the schedule loop.
- `GenerationProofs`: what the loop guarantees.
- `Calculator`: validation, `calculate` and dispatch.
- `Scenarios`: worked requests.

## Model

| member | source | states |
|---|---|---|
| Decimal.RoundHalfUp | src/main/java/com/lms/amortisation/service/calculator/ReducingBalanceCalculator.java:164-166 | the result has at most `scale` fractional digits and lies within half a unit of the last place of `x`, with a tie going away from zero. Together these fix `setScale(scale, HALF_UP)` uniquely |
| Calendar.PlusMonths | src/main/java/com/lms/amortisation/service/calculator/ReducingBalanceCalculator.java:185 | the result is a real date exactly `months` months later; it keeps the day of the month, or takes the last day of the target month when that month is shorter |
| Annuity.MonthlyRate | src/main/java/com/lms/amortisation/service/calculator/ReducingBalanceCalculator.java:102-106 | the monthly rate has 15 fractional digits, is never rounded to currency and lies within 5.05×10^-16 of annual/1200; it is non-negative for a non-negative annual rate and exactly zero for a zero rate |
| Annuity.MonthlyRateOfEightAndAHalf | src/main/java/com/lms/amortisation/service/calculator/ReducingBalanceCalculator.java:99-106 | an annual rate of 8.5 gives a monthly rate of 0.007083333333333 |
| Annuity.Emi | src/main/java/com/lms/amortisation/service/calculator/ReducingBalanceCalculator.java:118-137 | the EMI is a whole number of cents within half a cent of the exact annuity payment, ties going away from zero (strictly above payment − 0.005 for a non-negative payment); the payment is P/n at a zero rate and the formula with an exact (1+r)^n otherwise |
| Annuity.ExactBalanceClosedForm | src/main/java/com/lms/amortisation/service/calculator/ReducingBalanceCalculator.java:124-137 | with unrounded interest, the balance after k payments E satisfies B_k·r = P·r·(1+r)^k − E·((1+r)^k − 1) |
| Annuity.AnnuityRetiresLoan | src/main/java/com/lms/amortisation/service/calculator/ReducingBalanceCalculator.java:118-137 | the unrounded EMI of both branches brings the exact balance to zero after exactly `tenure` months |
| Annuity.SingleInstallmentEmi | src/main/java/com/lms/amortisation/service/calculator/ReducingBalanceCalculator.java:118-137 | over one month the EMI is the principal plus one month's interest on it, rounded to cents |
| Annuity.AnnuityCoversInterest | src/main/java/com/lms/amortisation/service/calculator/ReducingBalanceCalculator.java:124-137 | the exact annuity payment is at least one month's interest on the whole principal |
| Annuity.EmiCoversFirstInterest | src/main/java/com/lms/amortisation/service/calculator/ReducingBalanceCalculator.java:118-169 | the EMI is at least the first month's rounded interest, so the first principal component is never negative |
| Generation.GenerateSchedule | src/main/java/com/lms/amortisation/service/calculator/ReducingBalanceCalculator.java:157-206 | the schedule has exactly `tenure` installments, and position k holds the installment that iteration k+1 appends, numbered k+1 |
| Generation.State | src/main/java/com/lms/amortisation/service/calculator/ReducingBalanceCalculator.java:157-204 | the exact loop variables after k iterations; it has no contract of its own, and RepaidPlusOutstanding, PaidSoFar and LoanRetired state what the loop keeps |
| Generation.InstallmentAt | src/main/java/com/lms/amortisation/service/calculator/ReducingBalanceCalculator.java:162-200 | iteration k+1 appends the installment numbered k+1; its stored amounts are stated by CentsInstallment, BalancesChain and DueMonth |
| Generation.TotalInterest | src/main/java/com/lms/amortisation/service/calculator/ReducingBalanceCalculator.java:215-219 | a schedule whose installments charge no interest has a total interest of zero; TotalInterestIdentity gives the total for every generated schedule |
| Schedules.NoInterestSumsToZero | src/main/java/com/lms/amortisation/service/calculator/ReducingBalanceCalculator.java:215-219 | installments that charge no interest add up to no interest |
| GenerationProofs.PaymentsIsProduct | src/main/java/com/lms/amortisation/service/calculator/ReducingBalanceCalculator.java:72 | adding up k EMIs one at a time gives k × EMI |
| GenerationProofs.PaymentsInCents | src/main/java/com/lms/amortisation/service/calculator/ReducingBalanceCalculator.java:72 | a sum of EMIs in whole cents is in whole cents |
| GenerationProofs.PartsMakeEmi | src/main/java/com/lms/amortisation/service/calculator/ReducingBalanceCalculator.java:164-175 | in every installment, the last one included, the principal and interest components add up to the EMI |
| GenerationProofs.RepaidPlusOutstanding | src/main/java/com/lms/amortisation/service/calculator/ReducingBalanceCalculator.java:158-203 | after every iteration, the principal repaid so far plus the outstanding balance is the loan |
| GenerationProofs.PaidSoFar | src/main/java/com/lms/amortisation/service/calculator/ReducingBalanceCalculator.java:177-179 | after k iterations, the cumulative principal plus the cumulative interest is k EMIs |
| GenerationProofs.LoanRetired | src/main/java/com/lms/amortisation/service/calculator/ReducingBalanceCalculator.java:171-182 | after the last iteration the outstanding balance is exactly zero |
| GenerationProofs.RunningInterestIsSum | src/main/java/com/lms/amortisation/service/calculator/ReducingBalanceCalculator.java:179-194 | the running interest after k iterations equals the interest stored in the first k installments, added in order |
| GenerationProofs.StoredInterestIsIncrement | src/main/java/com/lms/amortisation/service/calculator/ReducingBalanceCalculator.java:179-194 | the interest an installment stores is exactly what its iteration adds to the running interest |
| GenerationProofs.ScheduleInterestIsRunningTotal | src/main/java/com/lms/amortisation/service/calculator/ReducingBalanceCalculator.java:215-219 | the schedule's interest column adds up to the final running interest |
| GenerationProofs.FinalInterestTotal | src/main/java/com/lms/amortisation/service/calculator/ReducingBalanceCalculator.java:172-182 | after the last iteration the running interest is tenure EMIs less the principal |
| GenerationProofs.TotalInterestIdentity | src/main/java/com/lms/amortisation/service/calculator/ReducingBalanceCalculator.java:215-219 | `calculateTotalInterest` of a generated schedule is tenure EMIs less the principal |
| GenerationProofs.TotalPaymentIsEmis | src/main/java/com/lms/amortisation/service/calculator/ReducingBalanceCalculator.java:71-72 | the principal plus the total interest is exactly tenure EMIs |
| GenerationProofs.BalancesChain | src/main/java/com/lms/amortisation/service/calculator/ReducingBalanceCalculator.java:182-203 | the first installment opens on the principal in cents, each closing balance is the next opening balance, and the last closing balance is zero |
| GenerationProofs.StateInCents | src/main/java/com/lms/amortisation/service/calculator/ReducingBalanceCalculator.java:158-182 | with the principal and EMI in whole cents, every loop variable stays in whole cents |
| GenerationProofs.CentsInstallment | src/main/java/com/lms/amortisation/service/calculator/ReducingBalanceCalculator.java:164-197 | for a whole-cent principal, each stored installment has these properties: principal + interest = EMI; closing = opening − principal; cumulative principal + closing = loan; a non-final installment charges the rounded month's interest on its opening balance; the last installment's principal is its opening balance |
| GenerationProofs.CentsRunningTotals | src/main/java/com/lms/amortisation/service/calculator/ReducingBalanceCalculator.java:178-197 | for a whole-cent principal, installment k's cumulative interest is the interest of installments 1..k+1 added up, its cumulative principal is their principal added up, and its cumulative principal plus its closing balance is the loan |
| GenerationProofs.CumulativePrincipalIsSum | src/main/java/com/lms/amortisation/service/calculator/ReducingBalanceCalculator.java:169-196 | for a whole-cent principal, installment k's cumulative principal is the principal column of installments 1..k+1 added up, the last installment included |
| GenerationProofs.RunningTotalsInCents | src/main/java/com/lms/amortisation/service/calculator/ReducingBalanceCalculator.java:164-179 | with the EMI in whole cents and any principal, the exact running totals of principal and interest are whole cents after every iteration before the last |
| GenerationProofs.NonFinalRunningTotals | src/main/java/com/lms/amortisation/service/calculator/ReducingBalanceCalculator.java:178-197 | with the EMI in whole cents and any principal, every installment before the last stores as cumulative interest and cumulative principal the interest and principal columns of installments 1..k+1 added up |
| GenerationProofs.StoredPrincipalIsExact | src/main/java/com/lms/amortisation/service/calculator/ReducingBalanceCalculator.java:164-193 | with the EMI in whole cents and any principal, a non-final installment's stored principal is exactly what the loop adds to the principal repaid: setting it to cents changes nothing |
| GenerationProofs.PrincipalPrefixSum | src/main/java/com/lms/amortisation/service/calculator/ReducingBalanceCalculator.java:178-193 | with the EMI in whole cents and any principal, the stored principal components of the installments before installment k + 1 (the last excluded) add up to the principal repaid after k iterations |
| GenerationProofs.PrincipalColumn | src/main/java/com/lms/amortisation/service/calculator/ReducingBalanceCalculator.java:164-193 | with the EMI in whole cents and any principal, the principal column is the loan less the balance b left before the last installment plus b set to cents: only the last stored principal is rounded |
| GenerationProofs.PrincipalRepaidWithinHalfCent | src/main/java/com/lms/amortisation/service/calculator/ReducingBalanceCalculator.java:164-193 | with the EMI in whole cents and any principal, the principal column adds up to the loan to within half a cent either way |
| GenerationProofs.PrincipalRepaidInFull | src/main/java/com/lms/amortisation/service/calculator/ReducingBalanceCalculator.java:164-193 | for a principal in whole cents the principal column adds up to exactly the loan |
| GenerationProofs.DueMonth | src/main/java/com/lms/amortisation/service/calculator/ReducingBalanceCalculator.java:185-190 | every installment k, the first included, falls due k+1 months after the start |
| GenerationProofs.DueDates | src/main/java/com/lms/amortisation/service/calculator/ReducingBalanceCalculator.java:185-190 | due dates strictly increase along the schedule |
| GenerationProofs.ZeroRateNoInterest | src/main/java/com/lms/amortisation/service/calculator/ReducingBalanceCalculator.java:164-169 | at a zero rate every non-final installment charges no interest and repays exactly the EMI |
| GenerationProofs.ZeroRateNoInterestSoFar | src/main/java/com/lms/amortisation/service/calculator/ReducingBalanceCalculator.java:164-179 | at a zero rate no interest accumulates before the last installment |
| GenerationProofs.ZeroRateLastInterest | src/main/java/com/lms/amortisation/service/calculator/ReducingBalanceCalculator.java:172-175 | at a zero rate the last installment's interest is tenure EMIs less the principal, that is, all of the EMI's rounding drift |
| GenerationProofs.ZeroRateInterestFree | src/main/java/com/lms/amortisation/service/calculator/ReducingBalanceCalculator.java:164-175 | at a zero rate, when the EMIs add up to exactly the principal, every installment's interest is zero |
| GenerationProofs.InterestFalls | src/main/java/com/lms/amortisation/service/calculator/ReducingBalanceCalculator.java:24-28 | at a non-negative rate, while the EMI covers the month's interest, the interest component does not rise from one non-final installment to the next |
| GenerationProofs.PrincipalRises | src/main/java/com/lms/amortisation/service/calculator/ReducingBalanceCalculator.java:24-28 | under the same conditions the principal component does not fall |
| GenerationProofs.CoverPersists | src/main/java/com/lms/amortisation/service/calculator/ReducingBalanceCalculator.java:164-187 | at a non-negative rate, once the EMI covers the first month's interest it covers every later month's, because the balance never grows |
| GenerationProofs.CoverFromFirst | src/main/java/com/lms/amortisation/service/calculator/ReducingBalanceCalculator.java:164-187 | an EMI at least the interest on the whole principal leaves every non-final installment a non-negative principal component |
| GenerationProofs.EmiCoversFirstMonth | src/main/java/com/lms/amortisation/service/calculator/ReducingBalanceCalculator.java:118-169 | the calculated EMI is at least the interest the loop charges in the first month |
| GenerationProofs.EmiCoversEveryInterest | src/main/java/com/lms/amortisation/service/calculator/ReducingBalanceCalculator.java:118-187 | for the calculated EMI on a non-negative principal at a non-negative rate, every non-final installment has a non-negative principal component |
| GenerationProofs.ScheduleMonotone | src/main/java/com/lms/amortisation/service/calculator/ReducingBalanceCalculator.java:24-28 | for the calculated EMI, along the whole schedule the interest component never rises and the principal component never falls between consecutive installments, the last excepted |
| Calculator.ValidatedScheduleMonotone | src/main/java/com/lms/amortisation/service/calculator/ReducingBalanceCalculator.java:24-28 | for every request that passes validation, the schedule's interest component never rises and its principal component never falls between consecutive installments, the last excepted |
| Calculator.ValidateRequest | src/main/java/com/lms/amortisation/service/calculator/ReducingBalanceCalculator.java:254-274 | a request passes exactly when the principal is positive, the rate non-negative, the tenure in 1..360 and the start date present. Each failure holds exactly when its own rule is broken and every earlier rule in source order held. A null tenure fails when it is unboxed |
| Calculator.TermsOf | src/main/java/com/lms/amortisation/service/calculator/ReducingBalanceCalculator.java:54-63 | a validated request gives the loop a tenure in 1..360, a non-negative monthly rate and an EMI in whole cents |
| Calculator.Calculate | src/main/java/com/lms/amortisation/service/calculator/ReducingBalanceCalculator.java:46-94 | the calculation succeeds exactly when validation passes and the last due date is representable. Every failure carries "Failed to calculate amortisation schedule" and wraps its cause. A success keeps the loan id, names REDUCING_BALANCE and has `tenure` installments |
| Calculator.Report | src/main/java/com/lms/amortisation/service/calculator/ReducingBalanceCalculator.java:66-88 | the result keeps the request's loan id and holds one installment per month of the tenure; ReportTotals states its amounts |
| Calculator.Supports | src/main/java/com/lms/amortisation/service/calculator/ReducingBalanceCalculator.java:276-279 | a null method name is never supported and REDUCING_BALANCE itself always is; SupportsIsFoldMatch gives the exact set |
| Calculator.CalculatedSchedule | src/main/java/com/lms/amortisation/service/calculator/ReducingBalanceCalculator.java:60-87 | a success reports the generated schedule for the request's terms and the EMI unchanged by setting it to 2 places; the audit record names REDUCING_BALANCE, the monthly rate and RBI-2024-v1 |
| Calculator.CalculatedInstallments | src/main/java/com/lms/amortisation/service/calculator/ReducingBalanceCalculator.java:157-203 | a success's installments are numbered 1..tenure, fall due i months after the start within LocalDate's range and carry the schedule's EMI; the balances chain from the principal to exactly zero |
| Calculator.ReportTotals | src/main/java/com/lms/amortisation/service/calculator/ReducingBalanceCalculator.java:71-84 | the total interest is the interest column in cents; the total payment is exactly tenure EMIs; the total interest is that payment less the principal, exactly for a whole-cent principal |
| Calculator.RoundedTotals | src/main/java/com/lms/amortisation/service/calculator/ReducingBalanceCalculator.java:82-84 | when principal and interest add up to whole cents, setting the total payment to 2 places changes nothing, and for a whole-cent principal neither does setting the total interest |
| Calculator.CalculatedTotals | src/main/java/com/lms/amortisation/service/calculator/ReducingBalanceCalculator.java:60-84 | a success's EMI is calculateEMI of the principal, monthly rate and tenure, and its totals are as in ReportTotals |
| Calculator.CalculatedInterestFree | src/main/java/com/lms/amortisation/service/calculator/ReducingBalanceCalculator.java:119-122 | a zero-rate success whose EMIs add up to exactly the principal charges no interest in any installment or in total |
| Calculator.ValidRequestPassesValidation | src/main/java/com/lms/amortisation/service/calculator/ReducingBalanceCalculator.java:254-274 | every request that meets the field constraints of CalculationRequest passes validateRequest |
| Calculator.RejectionBreaksConstraint | src/main/java/com/lms/amortisation/service/calculator/ReducingBalanceCalculator.java:254-274 | every request that validateRequest rejects breaks some field constraint |
| Calculator.ValidRequestCalculates | src/main/java/com/lms/amortisation/service/calculator/ReducingBalanceCalculator.java:46-94 | a request that meets the field constraints, starting at least 30 years before LocalDate's last year, always gets a schedule |
| Calculator.CalculatorName | src/main/java/com/lms/amortisation/service/calculator/ReducingBalanceCalculator.java:281-284 | the calculator's name is REDUCING_BALANCE, and the calculator supports it |
| Calculator.CharMatchIsFold | src/main/java/com/lms/amortisation/service/calculator/ReducingBalanceCalculator.java:276-279 | against an upper-case ASCII letter or `_`, equalsIgnoreCase's test on one character holds exactly when the character folds to it |
| Calculator.SupportsIsFoldMatch | src/main/java/com/lms/amortisation/service/calculator/ReducingBalanceCalculator.java:276-279 | `supports` accepts a string exactly when it has 16 characters that fold, one by one, to REDUCING_BALANCE |
| Calculator.SupportsOnlyReducingBalance | src/main/java/com/lms/amortisation/service/calculator/ReducingBalanceCalculator.java:276-279 | of the six method names only REDUCING_BALANCE is supported, and null never is |
| Methods.NameInjective | src/main/java/com/lms/amortisation/model/enums/AmortisationMethod.java:9-51 | distinct methods have distinct names |
| Requests.Build | src/main/java/com/lms/amortisation/model/dto/CalculationRequest.java:27-85 | the builder keeps every field it is given; a frequency never set becomes MONTHLY, and one set explicitly, null included, is kept |
| Requests.FrequencyDefault | src/main/java/com/lms/amortisation/model/dto/CalculationRequest.java:84-85 | the built request has no frequency exactly when the builder was explicitly given a null one |
| Requests.IsOptionEnabled | src/main/java/com/lms/amortisation/model/dto/CalculationRequest.java:107-113 | an option is enabled exactly when the map exists, holds the key, and maps it to the Boolean true |
| Requests.NullOptionsActLikeEmpty | src/main/java/com/lms/amortisation/model/dto/CalculationRequest.java:107-112 | a null options map enables nothing and behaves like an empty one; a non-Boolean value is never enabled |
| Requests.Violations | src/main/java/com/lms/amortisation/model/dto/CalculationRequest.java:36-79 | no constraint is violated exactly when these all hold: the loan id is non-blank; the principal is in [10000.00, 100000000.00]; the rate is in [0.0, 50.0]; the tenure is in [1, 360]; the product type, method and start date are present |
| Scenarios.MonthlyRequestValid | src/main/java/com/lms/amortisation/model/dto/CalculationRequest.java:36-79 | a monthly request built from a principal, rate, tenure and start date is valid exactly when the three amounts are within their bounds |
| Scenarios.MonthlyScenario | src/main/java/com/lms/amortisation/service/calculator/ReducingBalanceCalculator.java:46-94 | any in-bounds request succeeds: it has `tenure` installments at the request's monthly rate, the first due a month after the start, the last due `tenure` months after it and closing at zero |
| Scenarios.January2024DueDates | src/main/java/com/lms/amortisation/service/calculator/ReducingBalanceCalculator.java:185 | from 2024-01-01 the first due date is 2024-02-01 and the 240th is 2044-01-01 |
| Scenarios.ZeroRateTerms | src/main/java/com/lms/amortisation/service/calculator/ReducingBalanceCalculator.java:119-122 | 120,000 at 0% over 12 months is valid and gives an EMI of 10,000.00 |
| Scenarios.ZeroRateScenario | src/main/java/com/lms/amortisation/service/calculator/ReducingBalanceCalculator.java:164-175 | 120,000 at 0% over 12 months has an EMI of 10,000.00, zero total interest and zero interest in every installment |
| Scenarios.DriftTerms | src/main/java/com/lms/amortisation/service/calculator/ReducingBalanceCalculator.java:119-122 | 10,000 at 0% over 3 months gives an EMI of 3,333.33 |
| Scenarios.ZeroRateDriftScenario | src/main/java/com/lms/amortisation/service/calculator/ReducingBalanceCalculator.java:172-175 | 10,000 at 0% over 3 months ends with an interest of −0.01 in the last installment and in total |
| Scenarios.EmiTieRoundsUp | src/main/java/com/lms/amortisation/service/calculator/ReducingBalanceCalculator.java:119-121 | 10,000.01 at 0% over 2 months has an exact payment of 5,000.005, and the EMI rounds the tie up to 5,000.01 |
| Scenarios.HalfCentRoundings | src/main/java/com/lms/amortisation/service/calculator/ReducingBalanceCalculator.java:193-197 | HALF_UP to cents drops a quarter cent (5,000.0025 gives 5,000.00) and takes a negative half cent away from zero (−0.005 gives −0.01) |
| Scenarios.HalfCentPrincipalGap | src/main/java/com/lms/amortisation/service/calculator/ReducingBalanceCalculator.java:172-197 | with 10,000.005 at 0% over 2 months the EMI is 5,000.00, the interest column adds up to −0.005 and the last stored cumulative interest is −0.01 |
| Scenarios.BoundaryRejections | src/main/java/com/lms/amortisation/service/calculator/ReducingBalanceCalculator.java:254-269 | a tenure of 361, a principal of 0 and a rate of −0.5 are each rejected with their own message, wrapped in the calculation failure |
| Scenarios.CalculatorLaxerThanConstraints | src/main/java/com/lms/amortisation/model/dto/CalculationRequest.java:42-45 | a principal of 5,000 passes validateRequest although the field constraint rejects it |

Behaviour of the code worth noting:

- `validateRequest` checks only five things: the principal is positive, the rate is non-negative, the tenure is in 1..360 and the start date is present. It does not check the loan id, the principal bounds, a rate above 50 or the method. Those are only the field constraints (`Requests.Violations`). `Scenarios.CalculatorLaxerThanConstraints` exhibits the gap.
- A validation failure is not a separate error kind. Every failure becomes a `CalculationException` with the message "Failed to calculate amortisation schedule", and the validation message is its cause.
- At a zero rate, the interest of every installment is zero only when the EMI divides the principal exactly. Otherwise the last installment absorbs the rounding drift, and that drift can be negative (`Scenarios.ZeroRateDriftScenario`).

## Left out

- Logging, Spring wiring, the HTTP controller and the application bootstrap: they do not affect the computed values.
- `EMISchedule.calculatedAt`, `cached` and `requestId`: they are set from the wall clock or by the caching layer, never by the calculation.
- The audit trail is an `AuditTrail` record of the values `String.format` prints. The exact rendering of the text, including `BigDecimal.toString`, is not modelled.
- `ProductType` is kept as its constant's name, because it never influences the arithmetic.
- The `paymentStatus`, `paymentDate` and `amountPaid` fields of an installment: the calculation never sets them.
- A null request: `calculate` would dereference it while logging, before the `try` block.
- `CalculationException`'s error code: it is never set on this path.
- The other amortisation methods: they are enum constants without a calculator here.
- Calculator.SupportsIsFoldMatch: the case tables behind `equalsIgnoreCase` cover ASCII, Latin-1 and the four characters whose case maps to or from an ASCII letter (dotless ı, long ſ, dotted İ, Kelvin K). Those are exactly the characters that can match REDUCING_BALANCE.
- GenerationProofs.InterestFalls: on its own it assumes that the EMI covers the month's interest. GenerationProofs.EmiCoversEveryInterest discharges that premise for the calculated EMI, and ScheduleMonotone states the result for every consecutive pair of non-final installments. Nothing is promised about the last installment, which absorbs the rounding drift.
- GenerationProofs.PrincipalRises: it has the same premise as InterestFalls, discharged the same way.
- GenerationProofs.CentsInstallment: the exact per-installment identities need a principal in whole cents. For any other principal, setting the stored values to 2 places can break them by a cent. The totals, the chaining and the zero final balance are proved for every principal.
- GenerationProofs.CentsRunningTotals: it needs a principal in whole cents, and so only for the last installment. GenerationProofs.NonFinalRunningTotals states both running sums for every earlier installment with any principal. At the last installment the stored running interest can differ from the column: with 10,000.005 at 0% over 2 months the column adds up to −0.005 and the stored total is −0.01 (Scenarios.HalfCentPrincipalGap).
- GenerationProofs.CumulativePrincipalIsSum: it needs a principal in whole cents, and so only for the last installment, whose stored cumulative principal is the whole loan set to cents. GenerationProofs.NonFinalRunningTotals covers every earlier installment with any principal.
- Calculator.ReportTotals: the total interest equals the total payment less the principal exactly only for a whole-cent principal. Otherwise it equals that difference rounded to cents.
- Calculator.CalculatedInterestFree: it requires the EMIs to add up to exactly the principal, because the code does not give zero interest otherwise.
- Calculator.Calculate: BigDecimal's scale is a 32-bit int, so an extreme principal such as 1E+2147483647 makes the HALF_UP divisions of calculateEMI throw, and the calculation then fails with the wrapped exception. The model has unbounded reals and reports success there; it does not model the finite scale range.
- Calculator.ValidRequestCalculates: it requires the start year to be at most 30 years before LocalDate's last year, so that every due date can be represented.
- Scenarios.MonthlyScenario: it carries the same start-year condition as ValidRequestCalculates.
- Annuity.MonthlyRateOfEightAndAHalf: the EMI of 1,000,000 at 8.5% over 240 months is not computed. The exact (1+r)^240 has thousands of digits and is beyond the solver. The lemma states the monthly rate of that example, and `Annuity.Emi` bounds the EMI to within half a cent of the exact annuity payment.

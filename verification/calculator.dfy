/** ReducingBalanceCalculator: validation of a request, the calculation that
    turns it into an EMISchedule or a CalculationException, and the
    case-insensitive method-name match used to dispatch to it. */
module Calculator {
  import opened Wrappers
  import opened Decimal
  import opened Calendar
  import opened Methods
  import opened Requests
  import opened Schedules
  import opened Annuity
  import opened Generation
  import opened GenerationProofs

  const FailureMessage: string := "Failed to calculate amortisation schedule"
  const PrincipalMessage: string := "Principal must be greater than zero"
  const InterestRateMessage: string := "Interest rate must be non-negative"
  const TenureMessage: string := "Tenure must be greater than zero"
  const TenureLimitMessage: string := "Tenure cannot exceed 360 months"
  const StartDateMessage: string := "Start date is required"
  const TenureLimit: int := 360
  const RegulatoryVersion: string := "RBI-2024-v1"

  /** The exception a calculation failure wraps: one of validateRequest's
      CalculationExceptions, the exception thrown when a null tenure is
      unboxed, or the DateTimeException of a due date past LocalDate's range. */
  datatype Cause = Rejected(message: string) | NullTenure | DateOutOfRange

  /** CalculationException(message, cause); the error code is never set here. */
  datatype CalculationException = CalculationException(message: string, cause: Cause)

  /** The principal rule of validateRequest holds: present and positive. */
  predicate PrincipalChecked(req: CalculationRequest) {
    req.principal.Some? && req.principal.value > 0.0
  }

  /** The interest-rate rule of validateRequest holds: present and non-negative. */
  predicate RateChecked(req: CalculationRequest) {
    req.interestRate.Some? && req.interestRate.value >= 0.0
  }

  /** validateRequest: the first rule a request breaks, in source order. A
      null tenure passes the two null-safe checks before it and is then
      unboxed, which throws. */
  function ValidateRequest(req: CalculationRequest): (outcome: Outcome<Cause>)
    ensures outcome.Pass? <==>
      && PrincipalChecked(req) && RateChecked(req)
      && req.tenure.Some? && 0 < req.tenure.value as int <= TenureLimit
      && req.startDate.Some?
    ensures outcome.Fail? ==>
      outcome.error in {Rejected(PrincipalMessage), Rejected(InterestRateMessage), NullTenure,
                        Rejected(TenureMessage), Rejected(TenureLimitMessage), Rejected(StartDateMessage)}
    ensures outcome == Fail(Rejected(PrincipalMessage)) <==>
      req.principal.None? || req.principal.value <= 0.0
    ensures outcome == Fail(Rejected(InterestRateMessage)) <==>
      && PrincipalChecked(req)
      && (req.interestRate.None? || req.interestRate.value < 0.0)
    ensures outcome == Fail(NullTenure) <==>
      PrincipalChecked(req) && RateChecked(req) && req.tenure.None?
    ensures outcome == Fail(Rejected(TenureMessage)) <==>
      PrincipalChecked(req) && RateChecked(req) && req.tenure.Some? && req.tenure.value <= 0
    ensures outcome == Fail(Rejected(TenureLimitMessage)) <==>
      PrincipalChecked(req) && RateChecked(req) && req.tenure.Some? && req.tenure.value as int > TenureLimit
    ensures outcome == Fail(Rejected(StartDateMessage)) <==>
      && PrincipalChecked(req) && RateChecked(req)
      && req.tenure.Some? && 0 < req.tenure.value as int <= TenureLimit
      && req.startDate.None?
  {
    if req.principal.None? || req.principal.value <= 0.0 then Fail(Rejected(PrincipalMessage))
    else if req.interestRate.None? || req.interestRate.value < 0.0 then Fail(Rejected(InterestRateMessage))
    else if req.tenure.None? then Fail(NullTenure)
    else if req.tenure.value <= 0 then Fail(Rejected(TenureMessage))
    else if req.tenure.value as int > TenureLimit then Fail(Rejected(TenureLimitMessage))
    else if req.startDate.None? then Fail(Rejected(StartDateMessage))
    else Pass
  }

  /** The loop's inputs for a request that passed validation: the principal,
      the EMI, the monthly rate, the tenure and the start date. */
  function TermsOf(req: CalculationRequest): (t: Terms)
    requires ValidateRequest(req).Pass?
    ensures 1 <= t.tenure <= TenureLimit && t.rate >= 0.0
    ensures HasScale(t.emi, CurrencyScale)
  {
    var rate := MonthlyRate(req.interestRate.value);
    var tenure := req.tenure.value as int;
    Terms(req.principal.value, Emi(req.principal.value, rate, tenure), rate, tenure, req.startDate.value)
  }

  /** On every validated request the schedule's interest component never
      rises and its principal component never falls from one installment to
      the next, the last installment excepted. */
  lemma ValidatedScheduleMonotone(req: CalculationRequest)
    requires ValidateRequest(req).Pass?
    ensures var s := GenerateSchedule(TermsOf(req));
      forall k :: 0 <= k && k + 2 < |s| ==>
        s[k + 1].interest <= s[k].interest && s[k + 1].principal >= s[k].principal
  {
    var t := TermsOf(req);
    assert t.principal > 0.0 && t.emi == Emi(t.principal, t.rate, t.tenure);
    ScheduleMonotone(t);
  }

  /** The last due date of a validated request stays within LocalDate's range,
      so no plusMonths of the loop throws. */
  predicate DueDatesInRange(req: CalculationRequest)
    requires ValidateRequest(req).Pass?
  {
    InYearRange(PlusMonths(req.startDate.value, req.tenure.value as int))
  }

  /** The result built after the loop: EMI and totals set to 2 places, the
      audit record, and the method name. */
  function Summarise(req: CalculationRequest): (s: EMISchedule)
    requires ValidateRequest(req).Pass?
    ensures |s.schedule| == req.tenure.value as int
  {
    Report(req.loanId, req.interestRate.value, TermsOf(req))
  }

  function Report(loanId: Option<string>, annualRate: real, t: Terms): (s: EMISchedule)
    ensures |s.schedule| == t.tenure
    ensures s.loanId == loanId
  {
    var schedule := GenerateSchedule(t);
    var totalInterest := TotalInterest(schedule);
    var totalPayment := t.principal + totalInterest;
    var audit := AuditTrail(Name(ReducingBalance), Formula(ReducingBalance), t.principal,
                            annualRate, t.rate, t.tenure, t.emi, RegulatoryVersion);
    EMISchedule(loanId, RoundHalfUp(t.emi, CurrencyScale), RoundHalfUp(totalInterest, CurrencyScale),
                RoundHalfUp(totalPayment, CurrencyScale), schedule, audit, Name(ReducingBalance))
  }

  /** calculate: every failure, whether a validation rule or an exception
      raised while computing, comes back as one CalculationException with a
      fixed message that wraps the cause; success yields the whole schedule. */
  function Calculate(req: CalculationRequest): (result: Result<EMISchedule, CalculationException>)
    ensures result.Success? <==> ValidateRequest(req).Pass? && DueDatesInRange(req)
    ensures result.Failure? ==> result.error.message == FailureMessage
    ensures ValidateRequest(req).Fail? ==> result.error.cause == ValidateRequest(req).error
    ensures ValidateRequest(req).Pass? && !DueDatesInRange(req) ==> result.error.cause == DateOutOfRange
    ensures result.Success? ==>
      && result.value.loanId == req.loanId
      && result.value.calculationMethod == "REDUCING_BALANCE"
      && |result.value.schedule| == req.tenure.value as int
  {
    match ValidateRequest(req)
    case Fail(cause) => Failure(CalculationException(FailureMessage, cause))
    case Pass =>
      if !DueDatesInRange(req) then Failure(CalculationException(FailureMessage, DateOutOfRange))
      else Success(Summarise(req))
  }

  /** A successful calculation reports the loop's installments for the
      request's terms, with the EMI unchanged by setting it to 2 places. */
  lemma CalculatedSchedule(req: CalculationRequest)
    requires Calculate(req).Success?
    ensures Calculate(req).value.schedule == GenerateSchedule(TermsOf(req))
    ensures Calculate(req).value.emi == TermsOf(req).emi
    ensures Calculate(req).value.auditTrail.methodName == "REDUCING_BALANCE"
    ensures Calculate(req).value.auditTrail.monthlyRate == MonthlyRate(req.interestRate.value)
    ensures Calculate(req).value.auditTrail.regulatoryVersion == RegulatoryVersion
  {
    RoundOfScaled(TermsOf(req).emi, CurrencyScale);
  }

  /** A successful calculation's installments: numbered 1..tenure, each due
      i months after the start date (within LocalDate's range) and carrying
      the same EMI as the schedule; the balances chain from the principal down
      to exactly zero. */
  lemma CalculatedInstallments(req: CalculationRequest)
    requires Calculate(req).Success?
    ensures var s := Calculate(req).value;
      forall k :: 0 <= k < |s.schedule| ==>
        && s.schedule[k].installmentNumber == k + 1
        && s.schedule[k].dueDate == PlusMonths(req.startDate.value, k + 1)
        && InYearRange(s.schedule[k].dueDate)
        && s.schedule[k].emi == s.emi
    ensures var s := Calculate(req).value;
      && s.schedule[0].openingBalance == RoundHalfUp(req.principal.value, CurrencyScale)
      && (forall k :: 0 <= k < |s.schedule| - 1 ==> s.schedule[k].closingBalance == s.schedule[k + 1].openingBalance)
      && s.schedule[|s.schedule| - 1].closingBalance == 0.0
  {
    var t := TermsOf(req);
    RoundOfScaled(t.emi, CurrencyScale);
    BalancesChain(t);
    forall i | 1 <= i <= t.tenure
      ensures InYearRange(PlusMonths(t.start, i))
    {
      PlusMonthsInRange(t.start, i, t.tenure);
    }
  }

  /** The totals of a report: the total interest is the schedule's interest
      column added up and set to 2 places, the total payment is exactly tenure
      times the EMI, and the total interest is the total payment less the
      principal, exactly when the principal is in whole cents and otherwise
      set to 2 places. */
  lemma ReportTotals(loanId: Option<string>, annualRate: real, t: Terms)
    requires t.tenure >= 1 && HasScale(t.emi, CurrencyScale)
    ensures var s := Report(loanId, annualRate, t);
      && s.emi == t.emi
      && s.totalInterest == RoundHalfUp(SumInterest(s.schedule), CurrencyScale)
      && s.totalPayment == Payments(t.tenure, s.emi)
      && s.totalInterest == RoundHalfUp(s.totalPayment - t.principal, CurrencyScale)
    ensures HasScale(t.principal, CurrencyScale) ==>
      var s := Report(loanId, annualRate, t);
      s.totalInterest == s.totalPayment - t.principal
  {
    var interest := TotalInterest(GenerateSchedule(t));
    var paid := Payments(t.tenure, t.emi);
    ReportFields(loanId, annualRate, t);
    RoundOfScaled(t.emi, CurrencyScale);
    TotalPaymentIsEmis(t);
    PaymentsInCents(t.tenure, t.emi);
    RoundedTotals(t.principal, interest, paid);
    var s := Report(loanId, annualRate, t);
    assert s.totalPayment == paid;
    assert s.totalPayment - t.principal == interest;
  }

  /** The amounts Report stores, each set to 2 places. */
  lemma ReportFields(loanId: Option<string>, annualRate: real, t: Terms)
    ensures var s := Report(loanId, annualRate, t);
      var interest := TotalInterest(GenerateSchedule(t));
      && s.schedule == GenerateSchedule(t)
      && s.emi == RoundHalfUp(t.emi, CurrencyScale)
      && s.totalInterest == RoundHalfUp(interest, CurrencyScale)
      && s.totalPayment == RoundHalfUp(t.principal + interest, CurrencyScale)
  {
  }

  /** Setting the totals to 2 places when the principal and the interest add
      up to an amount in whole cents. */
  lemma RoundedTotals(principal: real, interest: real, paid: real)
    requires principal + interest == paid && HasScale(paid, CurrencyScale)
    ensures RoundHalfUp(principal + interest, CurrencyScale) == paid
    ensures HasScale(principal, CurrencyScale) ==> RoundHalfUp(interest, CurrencyScale) == paid - principal
  {
    RoundOfScaled(paid, CurrencyScale);
    if HasScale(principal, CurrencyScale) {
      ScaledAddSub(paid, principal, CurrencyScale);
      RoundOfScaled(paid - principal, CurrencyScale);
    }
  }

  /** A successful calculation's EMI is calculateEMI of the principal, the
      monthly rate and the tenure, and its totals are as ReportTotals states. */
  lemma CalculatedTotals(req: CalculationRequest)
    requires Calculate(req).Success?
    ensures var s := Calculate(req).value;
      && s.emi == Emi(req.principal.value, MonthlyRate(req.interestRate.value), req.tenure.value as int)
      && s.totalInterest == RoundHalfUp(SumInterest(s.schedule), CurrencyScale)
      && s.totalPayment == Payments(req.tenure.value as int, s.emi)
      && s.totalInterest == RoundHalfUp(s.totalPayment - req.principal.value, CurrencyScale)
    ensures HasScale(req.principal.value, CurrencyScale) ==>
      var s := Calculate(req).value;
      s.totalInterest == s.totalPayment - req.principal.value
  {
    ReportTotals(req.loanId, req.interestRate.value, TermsOf(req));
  }

  /** At a zero rate, when tenure EMIs add up to exactly the principal, the
      calculated schedule charges no interest in any installment and in total. */
  lemma CalculatedInterestFree(req: CalculationRequest)
    requires Calculate(req).Success? && req.interestRate.value == 0.0
    requires Payments(req.tenure.value as int, Calculate(req).value.emi) == req.principal.value
    ensures Calculate(req).value.totalInterest == 0.0
    ensures forall k :: 0 <= k < |Calculate(req).value.schedule| ==>
      Calculate(req).value.schedule[k].interest == 0.0
  {
    var t := TermsOf(req);
    CalculatedSchedule(req);
    CalculatedTotals(req);
    forall k | 0 <= k < t.tenure
      ensures InstallmentAt(t, k).interest == 0.0
    {
      ZeroRateInterestFree(t, k);
    }
  }

  /** Every request within the field constraints of CalculationRequest passes
      validateRequest: the annotations are at least as strict as the
      calculator's own checks. */
  lemma ValidRequestPassesValidation(req: CalculationRequest)
    requires ValidRequest(req)
    ensures ValidateRequest(req) == Pass
  {
  }

  /** Equivalently, a request the calculator rejects always breaks a field constraint. */
  lemma RejectionBreaksConstraint(req: CalculationRequest)
    requires ValidateRequest(req).Fail?
    ensures Violations(req) != {}
  {
  }

  /** A request within the field constraints whose start year leaves room for
      the 360-month limit always produces a schedule. */
  lemma ValidRequestCalculates(req: CalculationRequest)
    requires ValidRequest(req)
    requires req.startDate.value.year <= MaxYear - 30
    ensures Calculate(req).Success?
  {
    ValidRequestPassesValidation(req);
    var r := PlusMonths(req.startDate.value, req.tenure.value as int);
    assert MonthIndex(r) <= MonthIndex(req.startDate.value) + 360;
  }

  // ---- Dispatch: supports and getCalculatorName ----

  /** Character.toUpperCase on ASCII and Latin-1 letters and on the two
      characters whose upper case is an ASCII letter (dotless i, long s). */
  function UpperCase(c: char): char {
    if 'a' <= c <= 'z' then (c as int - 32) as char
    else if 'à' <= c <= 'þ' && c != '÷' then (c as int - 32) as char
    else if c == 'ÿ' then 'Ÿ'
    else if c == 'ı' then 'I'
    else if c == 'ſ' then 'S'
    else c
  }

  /** Character.toLowerCase on ASCII and Latin-1 letters and on the two
      characters whose lower case is an ASCII letter (dotted capital I, Kelvin sign). */
  function LowerCase(c: char): char {
    if 'A' <= c <= 'Z' then (c as int + 32) as char
    else if 'À' <= c <= 'Þ' && c != '×' then (c as int + 32) as char
    else if c == 'Ÿ' then 'ÿ'
    else if c == '\U{130}' then 'i'
    else if c == '\U{212A}' then 'k'
    else c
  }

  /** String.equalsIgnoreCase's test on one pair of characters: equal, equal
      in upper case, or equal in the lower case of their upper case. */
  predicate CharsEqualIgnoreCase(a: char, b: char) {
    a == b || UpperCase(a) == UpperCase(b) || LowerCase(UpperCase(a)) == LowerCase(UpperCase(b))
  }

  /** String.equalsIgnoreCase: false for null, otherwise equal lengths and
      every pair of characters equal ignoring case. */
  predicate EqualsIgnoreCase(s: string, other: Option<string>) {
    other.Some? && |s| == |other.value|
    && forall i :: 0 <= i < |s| ==> CharsEqualIgnoreCase(s[i], other.value[i])
  }

  /** supports: the method name matches REDUCING_BALANCE ignoring case. */
  function Supports(methodName: Option<string>): (b: bool)
    ensures b ==> methodName.Some?
    ensures methodName == Some(Name(ReducingBalance)) ==> b
  {
    EqualsIgnoreCase(Name(ReducingBalance), methodName)
  }

  /** getCalculatorName: the enum constant's name, which this calculator supports. */
  function CalculatorName(): (name: string)
    ensures Supports(Some(name))
    ensures name == Name(ReducingBalance)
  {
    Name(ReducingBalance)
  }

  /** An independent statement of the case-insensitive match against an
      upper-case ASCII identifier: the character that each input character
      stands for. */
  function Fold(c: char): char {
    if 'a' <= c <= 'z' then (c as int - 32) as char
    else if c == 'ı' || c == '\U{130}' then 'I'
    else if c == 'ſ' then 'S'
    else if c == '\U{212A}' then 'K'
    else c
  }

  /** Against an upper-case ASCII letter or an underscore, the
      equalsIgnoreCase test on characters is exactly folding. */
  lemma CharMatchIsFold(target: char, c: char)
    requires 'A' <= target <= 'Z' || target == '_'
    ensures CharsEqualIgnoreCase(target, c) <==> Fold(c) == target
  {
  }

  /** supports accepts exactly the strings that fold to REDUCING_BALANCE. */
  lemma SupportsIsFoldMatch(s: string)
    ensures Supports(Some(s)) <==>
      (|s| == |Name(ReducingBalance)| && forall i :: 0 <= i < |s| ==> Fold(s[i]) == Name(ReducingBalance)[i])
  {
    var target := Name(ReducingBalance);
    forall i | 0 <= i < |s| && i < |target|
      ensures CharsEqualIgnoreCase(target[i], s[i]) <==> Fold(s[i]) == target[i]
    {
      CharMatchIsFold(target[i], s[i]);
    }
  }

  /** Of the six method names only REDUCING_BALANCE is supported, and a null
      name never is. */
  lemma SupportsOnlyReducingBalance(m: AmortisationMethod)
    ensures Supports(Some(Name(m))) <==> m == ReducingBalance
    ensures !Supports(None)
  {
  }
}

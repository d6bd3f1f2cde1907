/** Worked requests: an 8.5% and a zero-rate example, the zero-rate
    rounding drift that lands in the last installment, the boundary
    rejections, and a request the calculator accepts although the request's
    field constraints reject it. */
module Scenarios {
  import opened Wrappers
  import opened Decimal
  import opened Calendar
  import opened Methods
  import opened Requests
  import opened Schedules
  import opened Annuity
  import opened Generation
  import opened GenerationProofs
  import opened Calculator

  /** A monthly request as a client would build it, with no options. */
  function MonthlyRequest(principal: real, annualRate: real, tenure: Int32, start: Date): (req: CalculationRequest)
    ensures req.frequency == Some(DefaultFrequency)
    ensures req.principal == Some(principal) && req.interestRate == Some(annualRate)
    ensures req.tenure == Some(tenure) && req.startDate == Some(start)
  {
    Build(Some("LN-0001"), Some(principal), Some(annualRate), Some(tenure), Some("HOME_LOAN"),
          Some(ReducingBalance), Some(start), None, None, Some("officer"))
  }

  /** A monthly request is valid exactly when its amounts are within the
      field constraints. */
  lemma MonthlyRequestValid(principal: real, annualRate: real, tenure: Int32, start: Date)
    ensures ValidRequest(MonthlyRequest(principal, annualRate, tenure, start)) <==>
      && MinPrincipal <= principal <= MaxPrincipal
      && MinInterestRate <= annualRate <= MaxInterestRate
      && MinTenure <= tenure as int <= MaxTenure
  {
    assert !IsBlank("LN-0001") by {
      assert "LN-0001"[0] == 'L';
    }
  }

  /** Any valid principal, rate and tenure from a start date at least 30
      years inside LocalDate's range is calculated: one installment per month
      at the request's monthly rate, the first due a month after the start and
      the last the tenure's months after it, the last closing at exactly
      zero. */
  lemma MonthlyScenario(principal: real, annualRate: real, tenure: Int32, start: Date)
    requires MinPrincipal <= principal <= MaxPrincipal
    requires MinInterestRate <= annualRate <= MaxInterestRate
    requires MinTenure <= tenure as int <= MaxTenure
    requires start.year <= MaxYear - 30
    ensures var req := MonthlyRequest(principal, annualRate, tenure, start);
      && Calculate(req).Success?
      && |Calculate(req).value.schedule| == tenure as int
      && Calculate(req).value.auditTrail.monthlyRate == MonthlyRate(annualRate)
      && Calculate(req).value.schedule[0].dueDate == PlusMonths(start, 1)
      && Calculate(req).value.schedule[tenure - 1].dueDate == PlusMonths(start, tenure as int)
      && Calculate(req).value.schedule[tenure - 1].closingBalance == 0.0
  {
    var req := MonthlyRequest(principal, annualRate, tenure, start);
    MonthlyRequestValid(principal, annualRate, tenure, start);
    ValidRequestCalculates(req);
    CalculatedSchedule(req);
    CalculatedInstallments(req);
  }

  /** A worked example (1,000,000 at 8.5% over 240 months; see
      Annuity.MonthlyRateOfEightAndAHalf) starts on 2024-01-01: by
      MonthlyScenario its first installment falls due on 2024-02-01 and its
      240th on 2044-01-01. */
  lemma January2024DueDates()
    ensures PlusMonths(CivilDate(2024, 1, 1), 1) == CivilDate(2024, 2, 1)
    ensures PlusMonths(CivilDate(2024, 1, 1), 240) == CivilDate(2044, 1, 1)
  {
  }

  /** The request of 120,000 at 0% for 12 months is valid and its EMI is
      exactly 10,000.00. */
  lemma ZeroRateTerms()
    ensures var req := MonthlyRequest(120000.0, 0.0, 12, CivilDate(2024, 1, 15));
      && ValidRequest(req) && ValidateRequest(req).Pass? && TermsOf(req).emi == 10000.0
  {
    var req := MonthlyRequest(120000.0, 0.0, 12, CivilDate(2024, 1, 15));
    MonthlyRequestValid(req.principal.value, req.interestRate.value, req.tenure.value, req.startDate.value);
    ValidRequestPassesValidation(req);
    assert AnnuityPayment(120000.0, 0.0, 12) == 10000.0;
    RoundOfScaled(10000.0, CurrencyScale);
  }

  /** 120,000 at 0% for 12 months: the EMI is exactly 10,000.00, and the total
      interest and every installment's interest are zero. */
  lemma ZeroRateScenario()
    ensures var req := MonthlyRequest(120000.0, 0.0, 12, CivilDate(2024, 1, 15));
      && Calculate(req).Success?
      && Calculate(req).value.emi == 10000.0
      && Calculate(req).value.totalInterest == 0.0
      && forall k :: 0 <= k < 12 ==> Calculate(req).value.schedule[k].interest == 0.0
  {
    var req := MonthlyRequest(120000.0, 0.0, 12, CivilDate(2024, 1, 15));
    ZeroRateTerms();
    ValidRequestCalculates(req);
    CalculatedSchedule(req);
    PaymentsIsProduct(12, 10000.0);
    CalculatedInterestFree(req);
  }

  /** The request of 10,000 at 0% for 3 months is valid and its EMI is
      3,333.33: 3,333.33... rounded half-up to cents. */
  lemma DriftTerms()
    ensures var req := MonthlyRequest(10000.0, 0.0, 3, CivilDate(2024, 1, 15));
      && ValidRequest(req) && ValidateRequest(req).Pass? && TermsOf(req).emi == 3333.33
  {
    var req := MonthlyRequest(10000.0, 0.0, 3, CivilDate(2024, 1, 15));
    MonthlyRequestValid(req.principal.value, req.interestRate.value, req.tenure.value, req.startDate.value);
    ValidRequestPassesValidation(req);
    assert AnnuityPayment(10000.0, 0.0, 3) == 10000.0 / 3.0;
    assert Units(10000.0 / 3.0, CurrencyScale) == 1000000.0 / 3.0;
  }

  /** 10,000 at 0% for 3 months: three EMIs of 3,333.33 fall a cent short of
      the principal, so the last installment's interest is -0.01, and so is
      the total interest, although no interest accrues at a zero rate. */
  lemma ZeroRateDriftScenario()
    ensures var req := MonthlyRequest(10000.0, 0.0, 3, CivilDate(2024, 1, 15));
      && Calculate(req).Success?
      && Calculate(req).value.emi == 3333.33
      && Calculate(req).value.schedule[2].interest == -0.01
      && Calculate(req).value.totalInterest == -0.01
  {
    var req := MonthlyRequest(10000.0, 0.0, 3, CivilDate(2024, 1, 15));
    DriftTerms();
    ValidRequestCalculates(req);
    var t := TermsOf(req);
    CalculatedSchedule(req);
    CalculatedTotals(req);
    assert HasScale(10000.0, CurrencyScale);
    PaymentsIsProduct(3, 3333.33);
    ZeroRateLastInterest(t);
  }

  /** 10,000.005 at 0% for 2 months: the EMI is 5,000.00 and the last
      installment's interest is -0.005, so the interest column adds up to
      -0.005 while the last stored cumulative interest, set to cents, is
      -0.01. Without a whole-cent principal the last running total is not the
      column's sum. */
  lemma HalfCentPrincipalGap(start: Date)
    ensures Emi(10000.005, 0.0, 2) == 5000.0
    ensures var t := Terms(10000.005, 5000.0, 0.0, 2, start);
      && SumInterest(GenerateSchedule(t)) == -0.005
      && GenerateSchedule(t)[1].cumulativeInterest == -0.01
  {
    HalfCentRoundings();
    assert AnnuityPayment(10000.005, 0.0, 2) == 5000.0025;
    var t := Terms(10000.005, 5000.0, 0.0, 2, start);
    var rows := GenerateSchedule(t);
    assert MonthInterest(10000.005, 0.0) == 0.0;
    assert State(t, 1).outstanding == 5000.005;
    assert State(t, 2).cumInterest == -0.005;
    assert rows[1].cumulativeInterest == RoundHalfUp(-0.005, CurrencyScale);
    assert rows[..2][..1] == rows[..1];
    assert SumInterest(rows) == SumInterest(rows[..1]) + rows[1].interest;
    assert rows[..1][..0] == rows[..0];
  }

  /** 10,000.01 at 0% for 2 months: the exact payment 5,000.005 is a tie, and
      the EMI rounds it up to 5,000.01. */
  lemma EmiTieRoundsUp()
    ensures Emi(10000.01, 0.0, 2) == 5000.01
  {
    assert AnnuityPayment(10000.01, 0.0, 2) == 5000.005;
    assert Units(5000.005, CurrencyScale) == 500000.5;
  }

  /** The two roundings of HalfCentPrincipalGap: a quarter cent drops and a
      negative half cent goes away from zero. */
  lemma HalfCentRoundings()
    ensures RoundHalfUp(5000.0025, CurrencyScale) == 5000.0
    ensures RoundHalfUp(-0.005, CurrencyScale) == -0.01
  {
    assert Units(5000.0025, CurrencyScale) == 500000.25;
    assert Units(-0.005, CurrencyScale) == -0.5;
  }

  /** Tenure 361, principal 0 and a negative rate are each rejected before any
      arithmetic, with the matching message wrapped in the calculation failure. */
  lemma BoundaryRejections()
    ensures Calculate(MonthlyRequest(500000.0, 9.0, 361, CivilDate(2024, 1, 1)))
         == Failure(CalculationException(FailureMessage, Rejected(TenureLimitMessage)))
    ensures Calculate(MonthlyRequest(0.0, 9.0, 120, CivilDate(2024, 1, 1)))
         == Failure(CalculationException(FailureMessage, Rejected(PrincipalMessage)))
    ensures Calculate(MonthlyRequest(500000.0, -0.5, 120, CivilDate(2024, 1, 1)))
         == Failure(CalculationException(FailureMessage, Rejected(InterestRateMessage)))
  {
  }

  /** The calculator accepts a principal of 5,000, which the request's
      @DecimalMin of 10,000.00 rejects: its own checks are laxer than the
      field constraints. */
  lemma CalculatorLaxerThanConstraints()
    ensures var req := MonthlyRequest(5000.0, 9.0, 12, CivilDate(2024, 1, 1));
      && ValidateRequest(req) == Pass
      && PrincipalBelowMinimum in Violations(req)
  {
  }
}

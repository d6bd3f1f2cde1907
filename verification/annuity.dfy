/** The rate and payment arithmetic of the reducing-balance method: the
    monthly rate derived from the annual percentage, and the equated monthly
    installment (EMI) from the annuity formula
    EMI = P * r * (1+r)^n / ((1+r)^n - 1). */
module Annuity {
  import opened Decimal

  /** DECIMAL_PRECISION: fractional digits kept in the monthly rate. */
  const DecimalPrecision: Scale := 15
  /** Fractional digits of every currency amount. */
  const CurrencyScale: Scale := 2

  /** calculateMonthlyRate: the annual percentage divided by 12 and then by 100,
      each division rounded half-up to 15 places. The result stays within about
      half of 10^-15 of the exact annual / 1200 and is never rounded to
      currency scale. */
  function MonthlyRate(annualRate: real): (rate: real)
    ensures HasScale(rate, DecimalPrecision)
    ensures annualRate >= 0.0 ==> rate >= 0.0
    ensures annualRate == 0.0 ==> rate == 0.0
    ensures -0.000000000000000505 <= rate - annualRate / 1200.0 <= 0.000000000000000505
  {
    var perMonth := RoundHalfUp(annualRate / 12.0, DecimalPrecision);
    var rate := RoundHalfUp(perMonth / 100.0, DecimalPrecision);
    RoundNonNegative(annualRate / 12.0, DecimalPrecision);
    RoundNonNegative(perMonth / 100.0, DecimalPrecision);
    RoundZero(DecimalPrecision);
    rate
  }

  /** The payment that retires the loan exactly when interest is never
      rounded: P / n at a zero monthly rate, and otherwise the annuity formula
      with (1+r)^n computed exactly. */
  function AnnuityPayment(principal: real, rate: real, tenure: nat): real
    requires rate >= 0.0 && tenure >= 1
  {
    if rate == 0.0 then principal / tenure as real
    else
      var onePlusRatePowerN := Pow(1.0 + rate, tenure);
      (principal * rate * onePlusRatePowerN) / (onePlusRatePowerN - 1.0)
  }

  /** calculateEMI: the exact annuity payment with a single half-up rounding to
      2 places at the final division. The EMI is a whole number of cents within
      half a cent of the payment that retires the loan exactly. */
  function Emi(principal: real, rate: real, tenure: nat): (emi: real)
    requires rate >= 0.0 && tenure >= 1
    ensures HasScale(emi, CurrencyScale)
    ensures -0.005 <= emi - AnnuityPayment(principal, rate, tenure) <= 0.005
    ensures AnnuityPayment(principal, rate, tenure) >= 0.0 ==>
      -0.005 < emi - AnnuityPayment(principal, rate, tenure) <= 0.005
    ensures AnnuityPayment(principal, rate, tenure) < 0.0 ==>
      -0.005 <= emi - AnnuityPayment(principal, rate, tenure) < 0.005
  {
    RoundHalfUp(AnnuityPayment(principal, rate, tenure), CurrencyScale)
  }

  /** Outstanding balance after `months` payments of `payment` when each
      month's interest is balance * rate, never rounded. */
  function ExactBalance(principal: real, rate: real, payment: real, months: nat): real {
    if months == 0 then principal
    else ExactBalance(principal, rate, payment, months - 1) * (1.0 + rate) - payment
  }

  /** Closed form of the exact balance, multiplied through by the rate:
      B_k * r == P * r * (1+r)^k - E * ((1+r)^k - 1). */
  lemma {:induction false} ExactBalanceClosedForm(principal: real, rate: real, payment: real, months: nat)
    ensures ExactBalance(principal, rate, payment, months) * rate
         == principal * rate * Pow(1.0 + rate, months) - payment * (Pow(1.0 + rate, months) - 1.0)
  {
    if months > 0 {
      var k := months - 1;
      ExactBalanceClosedForm(principal, rate, payment, k);
      ClosedFormStep(ExactBalance(principal, rate, payment, k), principal, rate, payment, Pow(1.0 + rate, k));
    }
  }

  /** One month of ExactBalanceClosedForm, as an identity between polynomials. */
  lemma ClosedFormStep(b: real, p: real, r: real, e: real, q: real)
    requires b * r == p * r * q - e * (q - 1.0)
    ensures (b * (1.0 + r) - e) * r == p * r * ((1.0 + r) * q) - e * ((1.0 + r) * q - 1.0)
  {
    assert (b * (1.0 + r) - e) * r == (1.0 + r) * (b * r) - e * r;
  }

  /** At a zero rate the balance falls by the payment each month. */
  lemma {:induction false} ExactBalanceAtZeroRate(principal: real, payment: real, months: nat)
    ensures ExactBalance(principal, 0.0, payment, months) == principal - months as real * payment
  {
    if months > 0 {
      ExactBalanceAtZeroRate(principal, payment, months - 1);
    }
  }

  /** At a positive rate the annuity payment E solves E * ((1+r)^n - 1) == P * r * (1+r)^n. */
  lemma PaymentEquation(principal: real, rate: real, tenure: nat)
    requires rate > 0.0 && tenure >= 1
    ensures Pow(1.0 + rate, tenure) > 1.0
    ensures AnnuityPayment(principal, rate, tenure) * (Pow(1.0 + rate, tenure) - 1.0)
         == principal * rate * Pow(1.0 + rate, tenure)
  {
  }

  /** The exact annuity payment retires the loan in exactly `tenure` months:
      the unrounded EMI formula is the payment whose exact balance reaches zero. */
  lemma AnnuityRetiresLoan(principal: real, rate: real, tenure: nat)
    requires rate >= 0.0 && tenure >= 1
    ensures ExactBalance(principal, rate, AnnuityPayment(principal, rate, tenure), tenure) == 0.0
  {
    var e := AnnuityPayment(principal, rate, tenure);
    if rate == 0.0 {
      ExactBalanceAtZeroRate(principal, e, tenure);
      assert tenure as real * (principal / tenure as real) == principal;
    } else {
      PaymentEquation(principal, rate, tenure);
      ExactBalanceClosedForm(principal, rate, e, tenure);
      CancelFactor(ExactBalance(principal, rate, e, tenure), 0.0, rate);
    }
  }

  /** a == b when a * r == b * r for a non-zero r. */
  lemma CancelFactor(a: real, b: real, r: real)
    requires r != 0.0 && a * r == b * r
    ensures a == b
  {
    assert (a - b) * r == 0.0;
  }

  /** With a single installment the EMI is the principal plus one month's
      interest on it, rounded to currency. */
  lemma SingleInstallmentEmi(principal: real, rate: real)
    requires rate >= 0.0
    ensures Emi(principal, rate, 1) == RoundHalfUp(principal * (1.0 + rate), CurrencyScale)
  {
    if rate > 0.0 {
      PaymentEquation(principal, rate, 1);
      assert Pow(1.0 + rate, 1) == 1.0 + rate by {
        assert Pow(1.0 + rate, 0) == 1.0;
      }
      var e := AnnuityPayment(principal, rate, 1);
      OnePeriodEquation(e, Pow(1.0 + rate, 1), rate, principal);
      CancelFactor(e, principal * (1.0 + rate), rate);
    }
  }

  /** The payment equation over one period, where (1+r)^1 is 1 + r. */
  lemma OnePeriodEquation(e: real, q: real, r: real, p: real)
    requires q == 1.0 + r && e * (q - 1.0) == p * r * q
    ensures e * r == p * (1.0 + r) * r
  {
    assert q - 1.0 == r;
  }

  /** For a non-negative principal and rate the exact annuity payment is at
      least one month's interest on the whole principal. */
  lemma AnnuityCoversInterest(principal: real, rate: real, tenure: nat)
    requires principal >= 0.0 && rate >= 0.0 && tenure >= 1
    ensures AnnuityPayment(principal, rate, tenure) >= principal * rate
  {
    if rate == 0.0 {
      assert principal / tenure as real >= 0.0;
    } else {
      PaymentEquation(principal, rate, tenure);
      var q := Pow(1.0 + rate, tenure);
      var interest := principal * rate;
      assert interest >= 0.0;
      AtLeastFromEquation(AnnuityPayment(principal, rate, tenure), interest, q - 1.0);
    }
  }

  /** a >= i when a * d == i * (d + 1) for a positive d and a non-negative i. */
  lemma AtLeastFromEquation(a: real, i: real, d: real)
    requires d > 0.0 && i >= 0.0 && a * d == i * (d + 1.0)
    ensures a >= i
  {
    assert (a - i) * d == i;
  }

  /** The EMI covers the first month's interest, so the first principal
      component is never negative. */
  lemma EmiCoversFirstInterest(principal: real, rate: real, tenure: nat)
    requires principal >= 0.0 && rate >= 0.0 && tenure >= 1
    ensures Emi(principal, rate, tenure) >= RoundHalfUp(principal * rate, CurrencyScale)
  {
    AnnuityCoversInterest(principal, rate, tenure);
    RoundMonotone(principal * rate, AnnuityPayment(principal, rate, tenure), CurrencyScale);
  }

  /** An 8.5% annual rate gives a monthly rate of 0.007083333333333. */
  lemma MonthlyRateOfEightAndAHalf()
    ensures MonthlyRate(8.5) == 0.007083333333333
  {
    var perMonth := RoundHalfUp(8.5 / 12.0, DecimalPrecision);
    assert Units(perMonth, DecimalPrecision).Floor == 708333333333333;
    assert perMonth == 0.708333333333333;
    assert Units(RoundHalfUp(perMonth / 100.0, DecimalPrecision), DecimalPrecision).Floor == 7083333333333;
  }
}

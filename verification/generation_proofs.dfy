/** What generateSchedule and calculateTotalInterest guarantee: the balances
    chain from one installment to the next and end at zero, every EMI is split
    exactly into principal and interest, and the interest adds up to the total
    paid less the principal. */
module GenerationProofs {
  import opened Decimal
  import opened Calendar
  import opened Annuity
  import opened Schedules
  import opened Generation

  /** `count` payments of `e`, added one at a time. */
  function Payments(count: nat, e: real): real {
    if count == 0 then 0.0 else Payments(count - 1, e) + e
  }

  /** Adding up `count` payments of `e` gives count times e. */
  lemma {:induction false} PaymentsIsProduct(count: nat, e: real)
    ensures Payments(count, e) == count as real * e
  {
    if count > 0 {
      PaymentsIsProduct(count - 1, e);
      assert count as real * e == (count - 1) as real * e + e;
    }
  }

  /** Payments in whole cents add up to whole cents. */
  lemma {:induction false} PaymentsInCents(count: nat, e: real)
    requires HasScale(e, CurrencyScale)
    ensures HasScale(Payments(count, e), CurrencyScale)
  {
    if count == 0 {
      assert Units(0.0, CurrencyScale) == 0.0;
    } else {
      PaymentsInCents(count - 1, e);
      ScaledAddSub(Payments(count - 1, e), e, CurrencyScale);
    }
  }

  /** Every installment's principal and interest components add up to the EMI. */
  lemma PartsMakeEmi(t: Terms, number: nat, balance: real)
    ensures PrincipalPart(t, number, balance) + InterestPart(t, number, balance) == t.emi
  {
  }

  /** The principal repaid so far and the outstanding balance always make up the loan. */
  lemma {:induction false} RepaidPlusOutstanding(t: Terms, k: nat)
    requires k <= t.tenure
    ensures State(t, k).cumPrincipal + State(t, k).outstanding == t.principal
  {
    if k > 0 {
      RepaidPlusOutstanding(t, k - 1);
    }
  }

  /** After k installments, principal and interest paid add up to k EMIs. */
  lemma {:induction false} PaidSoFar(t: Terms, k: nat)
    requires k <= t.tenure
    ensures State(t, k).cumPrincipal + State(t, k).cumInterest == Payments(k, t.emi)
  {
    if k > 0 {
      PaidSoFar(t, k - 1);
      PartsMakeEmi(t, k, State(t, k - 1).outstanding);
    }
  }

  /** The last installment leaves nothing outstanding. */
  lemma LoanRetired(t: Terms)
    requires t.tenure >= 1
    ensures State(t, t.tenure).outstanding == 0.0
  {
  }

  /** The running interest total after k iterations is the interest of the
      first k installments, added in order. */
  lemma {:induction false} RunningInterestIsSum(t: Terms, k: nat)
    requires k <= t.tenure
    ensures SumInterest(GenerateSchedule(t)[..k]) == State(t, k).cumInterest
  {
    if k > 0 {
      var rows := GenerateSchedule(t);
      var prefix := rows[..k];
      assert prefix[..k - 1] == rows[..k - 1];
      assert prefix[k - 1] == InstallmentAt(t, k - 1);
      assert SumInterest(prefix) == SumInterest(rows[..k - 1]) + InstallmentAt(t, k - 1).interest;
      RunningInterestIsSum(t, k - 1);
      StoredInterestIsIncrement(t, k - 1);
    }
  }

  /** The stored interest of an installment is exactly what iteration k + 1
      adds to the running interest total. */
  lemma StoredInterestIsIncrement(t: Terms, k: nat)
    requires k < t.tenure
    ensures InstallmentAt(t, k).interest == State(t, k + 1).cumInterest - State(t, k).cumInterest
  {
  }

  /** The schedule's interest column adds up to the final running interest total. */
  lemma ScheduleInterestIsRunningTotal(t: Terms)
    ensures SumInterest(GenerateSchedule(t)) == State(t, t.tenure).cumInterest
  {
    var rows := GenerateSchedule(t);
    assert rows[..t.tenure] == rows;
    RunningInterestIsSum(t, t.tenure);
  }

  /** After the last installment, the interest paid is the EMIs paid less the principal. */
  lemma FinalInterestTotal(t: Terms)
    requires t.tenure >= 1
    ensures State(t, t.tenure).cumInterest == Payments(t.tenure, t.emi) - t.principal
  {
    PaidSoFar(t, t.tenure);
    RepaidPlusOutstanding(t, t.tenure);
    LoanRetired(t);
  }

  /** calculateTotalInterest of a generated schedule: tenure EMIs less the principal. */
  lemma TotalInterestIdentity(t: Terms)
    requires t.tenure >= 1
    ensures TotalInterest(GenerateSchedule(t)) == Payments(t.tenure, t.emi) - t.principal
  {
    ScheduleInterestIsRunningTotal(t);
    FinalInterestTotal(t);
  }

  /** The principal plus calculateTotalInterest is exactly tenure EMIs. */
  lemma TotalPaymentIsEmis(t: Terms)
    requires t.tenure >= 1
    ensures t.principal + TotalInterest(GenerateSchedule(t)) == Payments(t.tenure, t.emi)
  {
    ScheduleInterestIsRunningTotal(t);
    FinalInterestTotal(t);
  }

  /** Consecutive installments agree on the balance between them, the first
      opens on the principal and the last closes at zero. */
  lemma BalancesChain(t: Terms)
    requires t.tenure >= 1
    ensures GenerateSchedule(t)[0].openingBalance == RoundHalfUp(t.principal, CurrencyScale)
    ensures forall k :: 0 <= k < t.tenure - 1 ==>
      GenerateSchedule(t)[k].closingBalance == GenerateSchedule(t)[k + 1].openingBalance
    ensures GenerateSchedule(t)[t.tenure - 1].closingBalance == 0.0
  {
    LoanRetired(t);
    RoundZero(CurrencyScale);
  }

  /** With the principal and the EMI in whole cents (as the calculator's EMI
      always is), every loop variable stays in whole cents. */
  lemma {:induction false} StateInCents(t: Terms, k: nat)
    requires k <= t.tenure
    requires HasScale(t.principal, CurrencyScale) && HasScale(t.emi, CurrencyScale)
    ensures HasScale(State(t, k).outstanding, CurrencyScale)
    ensures HasScale(State(t, k).cumPrincipal, CurrencyScale)
    ensures HasScale(State(t, k).cumInterest, CurrencyScale)
  {
    if k == 0 {
      assert HasScale(0.0, CurrencyScale);
    } else {
      StateInCents(t, k - 1);
      var s := State(t, k - 1);
      var m := MonthInterest(s.outstanding, t.rate);
      ScaledAddSub(t.emi, m, CurrencyScale);
      var p := PrincipalPart(t, k, s.outstanding);
      var i := InterestPart(t, k, s.outstanding);
      assert HasScale(p, CurrencyScale);
      ScaledAddSub(t.emi, p, CurrencyScale);
      assert HasScale(i, CurrencyScale);
      ScaledAddSub(s.outstanding, p, CurrencyScale);
      ScaledAddSub(s.cumPrincipal, p, CurrencyScale);
      ScaledAddSub(s.cumInterest, i, CurrencyScale);
    }
  }

  /** With the principal and the EMI in whole cents, rounding the stored values
      changes nothing: each stored installment splits the EMI exactly, its
      closing balance is its opening balance less its principal, and the
      principal repaid so far plus the closing balance is the loan. Every
      installment but the last charges the month's rounded interest on its
      opening balance; the last repays its opening balance. */
  lemma CentsInstallment(t: Terms, k: nat)
    requires k < t.tenure
    requires HasScale(t.principal, CurrencyScale) && HasScale(t.emi, CurrencyScale)
    ensures InstallmentAt(t, k).principal + InstallmentAt(t, k).interest == t.emi
    ensures InstallmentAt(t, k).closingBalance == InstallmentAt(t, k).openingBalance - InstallmentAt(t, k).principal
    ensures InstallmentAt(t, k).cumulativePrincipal + InstallmentAt(t, k).closingBalance == t.principal
    ensures k < t.tenure - 1 ==>
      InstallmentAt(t, k).interest == MonthInterest(InstallmentAt(t, k).openingBalance, t.rate)
    ensures k == t.tenure - 1 ==> InstallmentAt(t, k).principal == InstallmentAt(t, k).openingBalance
  {
    var before := State(t, k);
    var after := State(t, k + 1);
    StateInCents(t, k);
    StateInCents(t, k + 1);
    RepaidPlusOutstanding(t, k + 1);
    var p := PrincipalPart(t, k + 1, before.outstanding);
    ScaledAddSub(before.outstanding, after.outstanding, CurrencyScale);
    assert p == before.outstanding - after.outstanding;
    RoundOfScaled(before.outstanding, CurrencyScale);
    RoundOfScaled(p, CurrencyScale);
    RoundOfScaled(after.outstanding, CurrencyScale);
    RoundOfScaled(after.cumPrincipal, CurrencyScale);
    PartsMakeEmi(t, k + 1, before.outstanding);
  }

  /** The stored running totals of a schedule in whole cents: the cumulative
      interest of installment k is the interest of installments 1..k added up,
      the cumulative principal is the principal of installments 1..k added
      up, and the cumulative principal plus the closing balance is the loan. */
  lemma CentsRunningTotals(t: Terms, k: nat)
    requires k < t.tenure
    requires HasScale(t.principal, CurrencyScale) && HasScale(t.emi, CurrencyScale)
    ensures GenerateSchedule(t)[k].cumulativeInterest == SumInterest(GenerateSchedule(t)[..k + 1])
    ensures GenerateSchedule(t)[k].cumulativePrincipal == SumPrincipal(GenerateSchedule(t)[..k + 1])
    ensures GenerateSchedule(t)[k].cumulativePrincipal + GenerateSchedule(t)[k].closingBalance == t.principal
  {
    StateInCents(t, k + 1);
    RoundOfScaled(State(t, k + 1).cumInterest, CurrencyScale);
    RunningInterestIsSum(t, k + 1);
    CentsInstallment(t, k);
    CumulativePrincipalIsSum(t, k);
  }

  /** For a schedule in whole cents, the stored cumulative principal of
      installment k is the principal column of installments 1..k added up. */
  lemma CumulativePrincipalIsSum(t: Terms, k: nat)
    requires k < t.tenure
    requires HasScale(t.principal, CurrencyScale) && HasScale(t.emi, CurrencyScale)
    ensures GenerateSchedule(t)[k].cumulativePrincipal == SumPrincipal(GenerateSchedule(t)[..k + 1])
  {
    var rows := GenerateSchedule(t);
    StateInCents(t, k + 1);
    RoundOfScaled(State(t, k + 1).cumPrincipal, CurrencyScale);
    if k + 1 < t.tenure {
      PrincipalPrefixSum(t, k + 1);
    } else {
      assert rows[..k + 1] == rows;
      PrincipalRepaidInFull(t);
      RepaidPlusOutstanding(t, t.tenure);
      LoanRetired(t);
    }
  }

  /** With the EMI in whole cents and any principal, the running totals stay
      in whole cents up to the iteration before the last: every non-final
      iteration adds the EMI less a rounded interest, and a rounded interest. */
  lemma {:induction false} RunningTotalsInCents(t: Terms, k: nat)
    requires k < t.tenure
    requires HasScale(t.emi, CurrencyScale)
    ensures HasScale(State(t, k).cumPrincipal, CurrencyScale)
    ensures HasScale(State(t, k).cumInterest, CurrencyScale)
  {
    if k == 0 {
      assert HasScale(0.0, CurrencyScale);
    } else {
      RunningTotalsInCents(t, k - 1);
      var s := State(t, k - 1);
      var m := MonthInterest(s.outstanding, t.rate);
      ScaledAddSub(t.emi, m, CurrencyScale);
      var p := PrincipalPart(t, k, s.outstanding);
      assert HasScale(p, CurrencyScale);
      assert InterestPart(t, k, s.outstanding) == m;
      ScaledAddSub(s.cumPrincipal, p, CurrencyScale);
      ScaledAddSub(s.cumInterest, m, CurrencyScale);
    }
  }

  /** With the EMI in whole cents and any principal, each installment before
      the last stores as its cumulative interest and cumulative principal the
      interest and principal columns of installments 1..k+1 added up. */
  lemma NonFinalRunningTotals(t: Terms, k: nat)
    requires k + 1 < t.tenure
    requires HasScale(t.emi, CurrencyScale)
    ensures GenerateSchedule(t)[k].cumulativeInterest == SumInterest(GenerateSchedule(t)[..k + 1])
    ensures GenerateSchedule(t)[k].cumulativePrincipal == SumPrincipal(GenerateSchedule(t)[..k + 1])
  {
    RunningTotalsInCents(t, k + 1);
    RoundOfScaled(State(t, k + 1).cumInterest, CurrencyScale);
    RoundOfScaled(State(t, k + 1).cumPrincipal, CurrencyScale);
    RunningInterestIsSum(t, k + 1);
    PrincipalPrefixSum(t, k + 1);
  }

  /** Before the last installment the stored principal component needs no
      rounding: it is the EMI less the month's rounded interest, both in whole
      cents, so it is exactly what the iteration adds to the principal repaid. */
  lemma StoredPrincipalIsExact(t: Terms, k: nat)
    requires k + 1 < t.tenure
    requires HasScale(t.emi, CurrencyScale)
    ensures InstallmentAt(t, k).principal == State(t, k + 1).cumPrincipal - State(t, k).cumPrincipal
  {
    var p := PrincipalPart(t, k + 1, State(t, k).outstanding);
    ScaledAddSub(t.emi, MonthInterest(State(t, k).outstanding, t.rate), CurrencyScale);
    RoundOfScaled(p, CurrencyScale);
  }

  /** With the EMI in whole cents, the stored principal components of the
      installments before installment k + 1, the last excluded, add up to the
      principal repaid after k iterations. */
  lemma {:induction false} PrincipalPrefixSum(t: Terms, k: nat)
    requires k < t.tenure
    requires HasScale(t.emi, CurrencyScale)
    ensures SumPrincipal(GenerateSchedule(t)[..k]) == State(t, k).cumPrincipal
  {
    if k > 0 {
      var rows := GenerateSchedule(t);
      var prefix := rows[..k];
      assert prefix[..k - 1] == rows[..k - 1];
      assert prefix[k - 1] == InstallmentAt(t, k - 1);
      assert SumPrincipal(prefix) == SumPrincipal(rows[..k - 1]) + InstallmentAt(t, k - 1).principal;
      PrincipalPrefixSum(t, k - 1);
      StoredPrincipalIsExact(t, k - 1);
    }
  }

  /** With the EMI in whole cents, the schedule's principal column is the loan
      less the balance b left before the last installment plus b set to 2
      places: only the last installment's principal is rounded when stored. */
  lemma PrincipalColumn(t: Terms)
    requires t.tenure >= 1
    requires HasScale(t.emi, CurrencyScale)
    ensures var b := State(t, t.tenure - 1).outstanding;
      SumPrincipal(GenerateSchedule(t)) == t.principal - b + RoundHalfUp(b, CurrencyScale)
  {
    var n := t.tenure;
    var rows := GenerateSchedule(t);
    assert SumPrincipal(rows) == SumPrincipal(rows[..n - 1]) + InstallmentAt(t, n - 1).principal;
    PrincipalPrefixSum(t, n - 1);
    RepaidPlusOutstanding(t, n - 1);
  }

  /** With the EMI in whole cents, the schedule's principal column adds up to
      the loan to within half a cent, whatever the loan's decimals. */
  lemma PrincipalRepaidWithinHalfCent(t: Terms)
    requires t.tenure >= 1
    requires HasScale(t.emi, CurrencyScale)
    ensures -0.005 <= SumPrincipal(GenerateSchedule(t)) - t.principal <= 0.005
  {
    PrincipalColumn(t);
  }

  /** With the principal and the EMI in whole cents, the schedule's principal
      column adds up to exactly the loan. */
  lemma PrincipalRepaidInFull(t: Terms)
    requires t.tenure >= 1
    requires HasScale(t.principal, CurrencyScale) && HasScale(t.emi, CurrencyScale)
    ensures SumPrincipal(GenerateSchedule(t)) == t.principal
  {
    PrincipalColumn(t);
    StateInCents(t, t.tenure - 1);
    RoundOfScaled(State(t, t.tenure - 1).outstanding, CurrencyScale);
  }

  /** Installment k, the first included, falls due k + 1 months after the
      start, clamped to the month's last day. */
  lemma DueMonth(t: Terms, k: nat)
    requires k < t.tenure
    ensures MonthIndex(GenerateSchedule(t)[k].dueDate) == MonthIndex(t.start) + k + 1
  {
  }

  /** Due dates strictly increase along the schedule. */
  lemma DueDates(t: Terms, j: nat, k: nat)
    requires j < k < t.tenure
    ensures Before(GenerateSchedule(t)[j].dueDate, GenerateSchedule(t)[k].dueDate)
  {
    PlusMonthsIncreasing(t.start, j + 1, k + 1);
  }

  /** At a zero rate every installment but the last charges no interest and
      repays exactly the EMI. */
  lemma ZeroRateNoInterest(t: Terms, k: nat)
    requires t.rate == 0.0 && k < t.tenure - 1
    requires HasScale(t.emi, CurrencyScale)
    ensures InstallmentAt(t, k).interest == 0.0
    ensures InstallmentAt(t, k).principal == t.emi
  {
    RoundZero(CurrencyScale);
    RoundOfScaled(t.emi, CurrencyScale);
  }

  /** At a zero rate no interest accrues before the last installment. */
  lemma {:induction false} ZeroRateNoInterestSoFar(t: Terms, k: nat)
    requires t.rate == 0.0 && k < t.tenure
    ensures State(t, k).cumInterest == 0.0
  {
    if k > 0 {
      ZeroRateNoInterestSoFar(t, k - 1);
      RoundZero(CurrencyScale);
    }
  }

  /** At a zero rate the whole rounding drift of the EMI lands in the last
      installment's interest: tenure EMIs less the principal, which is not zero
      when the principal is not a multiple of tenure cents. */
  lemma ZeroRateLastInterest(t: Terms)
    requires t.rate == 0.0 && t.tenure >= 1
    ensures InstallmentAt(t, t.tenure - 1).interest == Payments(t.tenure, t.emi) - t.principal
  {
    ZeroRateNoInterestSoFar(t, t.tenure - 1);
    FinalInterestTotal(t);
  }

  /** At a zero rate with an EMI that divides the principal exactly, no
      installment charges any interest, the last one included. */
  lemma ZeroRateInterestFree(t: Terms, k: nat)
    requires t.rate == 0.0 && k < t.tenure
    requires HasScale(t.emi, CurrencyScale) && Payments(t.tenure, t.emi) == t.principal
    ensures InstallmentAt(t, k).interest == 0.0
  {
    if k < t.tenure - 1 {
      ZeroRateNoInterest(t, k);
    } else {
      ZeroRateLastInterest(t);
    }
  }

  /** Once the EMI covers the first month's interest at a non-negative rate,
      it covers every later month's too: the balance never grows, so neither
      does the interest on it. */
  lemma {:induction false} CoverPersists(t: Terms, k: nat)
    requires t.rate >= 0.0 && k + 1 < t.tenure
    requires PrincipalPart(t, 1, State(t, 0).outstanding) >= 0.0
    ensures PrincipalPart(t, k + 1, State(t, k).outstanding) >= 0.0
  {
    if k > 0 {
      CoverPersists(t, k - 1);
      BalanceFalls(t, k - 1);
      MonthInterestMonotone(State(t, k).outstanding, State(t, k - 1).outstanding, t.rate);
    }
  }

  /** An EMI that covers the interest on the whole principal covers every
      later month's interest too. */
  lemma CoverFromFirst(t: Terms, k: nat)
    requires t.rate >= 0.0 && k + 1 < t.tenure
    requires t.emi >= MonthInterest(t.principal, t.rate)
    ensures PrincipalPart(t, k + 1, State(t, k).outstanding) >= 0.0
  {
    MonthInterestMonotone(State(t, 0).outstanding, t.principal, t.rate);
    CoverPersists(t, k);
  }

  /** For the calculator's EMI on a non-negative principal at a non-negative
      rate, the EMI covers every month's interest: each installment before the
      last has a non-negative principal component. */
  lemma EmiCoversEveryInterest(t: Terms, k: nat)
    requires t.principal >= 0.0 && t.rate >= 0.0 && t.tenure >= 1
    requires t.emi == Emi(t.principal, t.rate, t.tenure)
    requires k + 1 < t.tenure
    ensures PrincipalPart(t, k + 1, State(t, k).outstanding) >= 0.0
  {
    EmiCoversFirstMonth(t.principal, t.rate, t.tenure);
    CoverFromFirst(t, k);
  }

  /** The calculator's EMI covers the first month's interest. */
  lemma EmiCoversFirstMonth(principal: real, rate: real, tenure: nat)
    requires principal >= 0.0 && rate >= 0.0 && tenure >= 1
    ensures Emi(principal, rate, tenure) >= MonthInterest(principal, rate)
  {
    EmiCoversFirstInterest(principal, rate, tenure);
  }

  /** Along every schedule built with the calculator's EMI, the interest
      component never rises and the principal component never falls from one
      installment to the next, up to the last installment, which absorbs the
      rounding drift. */
  lemma ScheduleMonotone(t: Terms)
    requires t.principal >= 0.0 && t.rate >= 0.0 && t.tenure >= 1
    requires t.emi == Emi(t.principal, t.rate, t.tenure)
    ensures forall k :: 0 <= k && k + 2 < t.tenure ==>
      && GenerateSchedule(t)[k + 1].interest <= GenerateSchedule(t)[k].interest
      && GenerateSchedule(t)[k + 1].principal >= GenerateSchedule(t)[k].principal
  {
    forall k | 0 <= k && k + 2 < t.tenure
      ensures InstallmentAt(t, k + 1).interest <= InstallmentAt(t, k).interest
      ensures InstallmentAt(t, k + 1).principal >= InstallmentAt(t, k).principal
    {
      EmiCoversEveryInterest(t, k);
      InterestFalls(t, k);
      PrincipalRises(t, k);
    }
  }

  /** For any two consecutive installments before the last, at a non-negative
      rate and while the EMI covers the month's interest, the interest
      component does not rise from one to the next. */
  lemma InterestFalls(t: Terms, k: nat)
    requires t.rate >= 0.0 && k + 2 < t.tenure
    requires PrincipalPart(t, k + 1, State(t, k).outstanding) >= 0.0
    ensures InstallmentAt(t, k + 1).interest <= InstallmentAt(t, k).interest
  {
    StoredInterest(t, k);
    StoredInterest(t, k + 1);
    BalanceFalls(t, k);
    MonthInterestMonotone(State(t, k + 1).outstanding, State(t, k).outstanding, t.rate);
  }

  /** Under the same conditions the principal component does not fall. */
  lemma PrincipalRises(t: Terms, k: nat)
    requires t.rate >= 0.0 && k + 2 < t.tenure
    requires PrincipalPart(t, k + 1, State(t, k).outstanding) >= 0.0
    ensures InstallmentAt(t, k + 1).principal >= InstallmentAt(t, k).principal
  {
    InterestFalls(t, k);
    StoredPrincipal(t, k);
    StoredPrincipal(t, k + 1);
    var i0, i1 := InstallmentAt(t, k), InstallmentAt(t, k + 1);
    ShareRises(t.emi, i0.interest, i1.interest, i0.principal, i1.principal);
  }

  /** The EMI's share left after a smaller interest, set to 2 places, is no smaller. */
  lemma ShareRises(emi: real, larger: real, smaller: real, p0: real, p1: real)
    requires smaller <= larger
    requires p0 == RoundHalfUp(emi - larger, CurrencyScale)
    requires p1 == RoundHalfUp(emi - smaller, CurrencyScale)
    ensures p0 <= p1
  {
    RoundMonotone(emi - larger, emi - smaller, CurrencyScale);
  }

  /** Before the last installment, the stored interest is the month's interest
      on the opening balance. */
  lemma StoredInterest(t: Terms, k: nat)
    requires k + 1 < t.tenure
    ensures InstallmentAt(t, k).interest == MonthInterest(State(t, k).outstanding, t.rate)
  {
  }

  /** Before the last installment, the stored principal is what the EMI leaves
      after the stored interest, set to 2 places. */
  lemma StoredPrincipal(t: Terms, k: nat)
    requires k + 1 < t.tenure
    ensures InstallmentAt(t, k).principal == RoundHalfUp(t.emi - InstallmentAt(t, k).interest, CurrencyScale)
  {
  }

  /** An iteration whose principal component is not negative does not raise
      the outstanding balance. */
  lemma BalanceFalls(t: Terms, k: nat)
    requires k < t.tenure
    requires PrincipalPart(t, k + 1, State(t, k).outstanding) >= 0.0
    ensures State(t, k + 1).outstanding <= State(t, k).outstanding
  {
  }

  /** A smaller balance never attracts more interest at a non-negative rate. */
  lemma MonthInterestMonotone(x: real, y: real, rate: real)
    requires x <= y && rate >= 0.0
    ensures MonthInterest(x, rate) <= MonthInterest(y, rate)
  {
    assert (y - x) * rate >= 0.0;
    RoundMonotone(x * rate, y * rate, CurrencyScale);
  }
}

/** generateSchedule and calculateTotalInterest: the installment-by-installment
    split of the EMI into interest and principal on a reducing balance, with
    the rounding drift absorbed by the last installment.

    The loop of generateSchedule is modelled by its state after k iterations
    (`State(t, k)`: the outstanding balance and the two running totals, all
    exact) and by the installment iteration k + 1 appends (`InstallmentAt`). */
module Generation {
  import opened Decimal
  import opened Calendar
  import opened Annuity
  import opened Schedules

  /** The fixed inputs of the loop: principal, EMI, monthly rate, tenure and start date. */
  datatype Terms = Terms(principal: real, emi: real, rate: real, tenure: nat, start: Date)

  /** Interest charged on an outstanding balance for one month, rounded half-up to cents. */
  function MonthInterest(balance: real, rate: real): real {
    RoundHalfUp(balance * rate, CurrencyScale)
  }

  /** The principal component of installment `number`: what the EMI leaves
      after the month's interest, except that the last installment repays the
      whole outstanding balance. */
  function PrincipalPart(t: Terms, number: nat, balance: real): real {
    if number == t.tenure then balance else t.emi - MonthInterest(balance, t.rate)
  }

  /** The interest component of installment `number`: the month's interest,
      except that the last installment's interest is whatever the EMI leaves
      after repaying the balance, which absorbs all earlier rounding drift. */
  function InterestPart(t: Terms, number: nat, balance: real): real {
    if number == t.tenure then t.emi - PrincipalPart(t, number, balance) else MonthInterest(balance, t.rate)
  }

  /** The loop variables: outstandingBalance, cumulativePrincipal, cumulativeInterest. */
  datatype LoopState = LoopState(outstanding: real, cumPrincipal: real, cumInterest: real)

  /** The exact loop state after `k` iterations. */
  function State(t: Terms, k: nat): LoopState
    requires k <= t.tenure
  {
    if k == 0 then LoopState(t.principal, 0.0, 0.0)
    else
      var s := State(t, k - 1);
      var principalComponent := PrincipalPart(t, k, s.outstanding);
      LoopState(
        s.outstanding - principalComponent,
        s.cumPrincipal + principalComponent,
        s.cumInterest + InterestPart(t, k, s.outstanding))
  }

  /** The installment appended by iteration k + 1, with the values as stored:
      balances, principal and running totals set to 2 places, interest as computed. */
  function InstallmentAt(t: Terms, k: nat): (inst: Installment)
    requires k < t.tenure
    ensures inst.installmentNumber == k + 1
  {
    var before := State(t, k);
    var after := State(t, k + 1);
    Installment(
      k + 1, PlusMonths(t.start, k + 1),
      RoundHalfUp(before.outstanding, CurrencyScale), t.emi,
      RoundHalfUp(PrincipalPart(t, k + 1, before.outstanding), CurrencyScale),
      InterestPart(t, k + 1, before.outstanding),
      RoundHalfUp(after.outstanding, CurrencyScale),
      RoundHalfUp(after.cumPrincipal, CurrencyScale),
      RoundHalfUp(after.cumInterest, CurrencyScale))
  }

  /** generateSchedule: the installments of iterations 1..tenure, in order. */
  function GenerateSchedule(t: Terms): (rows: seq<Installment>)
    ensures |rows| == t.tenure
    ensures forall k :: 0 <= k < |rows| ==> rows[k] == InstallmentAt(t, k)
  {
    seq(t.tenure, k requires 0 <= k < t.tenure => InstallmentAt(t, k))
  }

  /** calculateTotalInterest: the interest components added up in schedule
      order, starting from zero. */
  function TotalInterest(rows: seq<Installment>): (total: real)
    ensures (forall k :: 0 <= k < |rows| ==> rows[k].interest == 0.0) ==> total == 0.0
  {
    NoInterestSumsToZero(rows);
    SumInterest(rows)
  }
}

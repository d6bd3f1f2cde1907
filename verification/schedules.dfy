/** The calculation's output values: one installment per period and the
    schedule that collects them. */
module Schedules {
  import opened Wrappers
  import opened Calendar

  /** One period of the schedule, holding the values as stored: the balances,
      the principal component and the running totals are set to 2 decimal
      places; the interest component is stored as computed. */
  datatype Installment = Installment(
    installmentNumber: nat,
    dueDate: CivilDate,
    openingBalance: real,
    emi: real,
    principal: real,
    interest: real,
    closingBalance: real,
    cumulativePrincipal: real,
    cumulativeInterest: real)

  /** The compliance record: method, formula, inputs and result. Its rendering
      as text is not modelled. */
  datatype AuditTrail = AuditTrail(
    methodName: string,
    formula: string,
    principal: real,
    annualRate: real,
    monthlyRate: real,
    tenure: int,
    emi: real,
    regulatoryVersion: string)

  /** The calculation result. */
  datatype EMISchedule = EMISchedule(
    loanId: Option<string>,
    emi: real,
    totalInterest: real,
    totalPayment: real,
    schedule: seq<Installment>,
    auditTrail: AuditTrail,
    calculationMethod: string)

  /** Sum of the interest components, added from the first installment on. */
  function SumInterest(rows: seq<Installment>): real {
    if |rows| == 0 then 0.0 else SumInterest(rows[..|rows| - 1]) + rows[|rows| - 1].interest
  }

  /** Installments that charge no interest add up to no interest. */
  lemma {:induction false} NoInterestSumsToZero(rows: seq<Installment>)
    ensures (forall k :: 0 <= k < |rows| ==> rows[k].interest == 0.0) ==> SumInterest(rows) == 0.0
  {
    if |rows| > 0 {
      var prefix := rows[..|rows| - 1];
      NoInterestSumsToZero(prefix);
      assert forall k :: 0 <= k < |prefix| ==> prefix[k] == rows[k];
    }
  }

  /** Sum of the principal components, added from the first installment on. */
  function SumPrincipal(rows: seq<Installment>): real {
    if |rows| == 0 then 0.0 else SumPrincipal(rows[..|rows| - 1]) + rows[|rows| - 1].principal
  }
}

/** The closed set of amortisation methods a request can name. Only the
    reducing-balance method has a calculator in this model. */
module Methods {

  datatype AmortisationMethod =
    | ReducingBalance
    | FlatRate
    | BulletPayment
    | DailyReducing
    | StepUp
    | StepDown

  /** The enum constant's identifier (`Enum.name()`). */
  function Name(m: AmortisationMethod): string {
    match m
    case ReducingBalance => "REDUCING_BALANCE"
    case FlatRate => "FLAT_RATE"
    case BulletPayment => "BULLET_PAYMENT"
    case DailyReducing => "DAILY_REDUCING"
    case StepUp => "STEP_UP"
    case StepDown => "STEP_DOWN"
  }

  /** The formula text each method documents. */
  function Formula(m: AmortisationMethod): string {
    match m
    case ReducingBalance => "EMI = P \U{D7} r \U{D7} (1+r)^n / ((1+r)^n - 1)"
    case FlatRate => "EMI = (P + (P \U{D7} r \U{D7} n)) / n"
    case BulletPayment => "Interest periodic, Principal at end"
    case DailyReducing => "Interest = Outstanding \U{D7} Daily Rate \U{D7} Days"
    case StepUp => "EMI increases at predefined intervals"
    case StepDown => "EMI decreases at predefined intervals"
  }

  /** Distinct methods have distinct identifiers, so a name selects one method. */
  lemma NameInjective(m1: AmortisationMethod, m2: AmortisationMethod)
    requires Name(m1) == Name(m2)
    ensures m1 == m2
  {
  }
}

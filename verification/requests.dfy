/** The calculation request: its fields, the builder default for the payment
    frequency, the option lookup, and the bean-validation constraints declared
    on its fields. */
module Requests {
  import opened Wrappers
  import opened Calendar
  import opened Methods

  /** Java's 32-bit `int`/`Integer` range. */
  newtype Int32 = x: int | -0x8000_0000 <= x < 0x8000_0000

  /** A value stored in the `Map<String, Object>` of options: a Boolean, a
      null, or any other object (described by its type name only). */
  datatype OptionValue = BoolValue(flag: bool) | NullValue | OtherValue(typeName: string)

  /** Every reference-typed field may be null (None). The product type is kept
      as its enum constant's name: it never influences the calculation. */
  datatype CalculationRequest = CalculationRequest(
    loanId: Option<string>,
    principal: Option<real>,
    interestRate: Option<real>,
    tenure: Option<Int32>,
    productType: Option<string>,
    amortisationMethod: Option<AmortisationMethod>,
    startDate: Option<Date>,
    frequency: Option<string>,
    options: Option<map<string, OptionValue>>,
    requestedBy: Option<string>)

  const DefaultFrequency: string := "MONTHLY"

  /** CalculationRequest.builder()...build(): a field left unset on the builder
      is null, except the frequency, which defaults to MONTHLY. For the
      frequency, None means the builder's `frequency(...)` was never called,
      and Some(f) means it was called with `f`, which may itself be null. */
  function Build(
    loanId: Option<string>, principal: Option<real>, interestRate: Option<real>,
    tenure: Option<Int32>, productType: Option<string>,
    amortisationMethod: Option<AmortisationMethod>, startDate: Option<Date>,
    frequency: Option<Option<string>>, options: Option<map<string, OptionValue>>,
    requestedBy: Option<string>): (r: CalculationRequest)
    ensures frequency.None? ==> r.frequency == Some(DefaultFrequency)
    ensures frequency.Some? ==> r.frequency == frequency.value
    ensures r.loanId == loanId && r.principal == principal && r.interestRate == interestRate
    ensures r.tenure == tenure && r.productType == productType
    ensures r.amortisationMethod == amortisationMethod && r.startDate == startDate
    ensures r.options == options && r.requestedBy == requestedBy
  {
    CalculationRequest(loanId, principal, interestRate, tenure, productType,
      amortisationMethod, startDate,
      match frequency case Some(f) => f case None => Some(DefaultFrequency),
      options, requestedBy)
  }

  /** The frequency is null only when the builder was explicitly given null:
      leaving it unset yields MONTHLY, and a supplied value is kept. */
  lemma FrequencyDefault(
    loanId: Option<string>, principal: Option<real>, interestRate: Option<real>,
    tenure: Option<Int32>, productType: Option<string>,
    amortisationMethod: Option<AmortisationMethod>, startDate: Option<Date>,
    frequency: Option<Option<string>>, options: Option<map<string, OptionValue>>,
    requestedBy: Option<string>)
    ensures var r := Build(loanId, principal, interestRate, tenure, productType,
                           amortisationMethod, startDate, frequency, options, requestedBy);
      r.frequency.None? <==> frequency == Some(None)
  {
  }

  /** isOptionEnabled: an option is on exactly when the map exists, holds the
      key, and maps it to Boolean.TRUE. */
  function IsOptionEnabled(req: CalculationRequest, optionKey: string): (enabled: bool)
    ensures enabled <==> (req.options.Some? && optionKey in req.options.value
                          && req.options.value[optionKey] == BoolValue(true))
  {
    match req.options
    case None => false
    case Some(m) =>
      var value := if optionKey in m then m[optionKey] else NullValue;
      value.BoolValue? && value.flag
  }

  /** A null options map behaves exactly like an empty one, and an option can
      only be on if it was stored as a Boolean. */
  lemma NullOptionsActLikeEmpty(req: CalculationRequest, optionKey: string)
    ensures !IsOptionEnabled(req.(options := None), optionKey)
    ensures IsOptionEnabled(req.(options := None), optionKey)
         == IsOptionEnabled(req.(options := Some(map[])), optionKey)
    ensures req.options.Some? && optionKey in req.options.value
            && !req.options.value[optionKey].BoolValue?
            ==> !IsOptionEnabled(req, optionKey)
  {
  }

  // ---- Bean-validation constraints (jakarta.validation annotations) ----

  const MinPrincipal: real := 10000.00
  const MaxPrincipal: real := 100000000.00
  const MinInterestRate: real := 0.0
  const MaxInterestRate: real := 50.0
  const MinTenure: int := 1
  const MaxTenure: int := 360

  /** @NotBlank as implemented by the validation provider: a string is blank
      when String.trim() leaves nothing, i.e. every character is <= U+0020. */
  predicate IsBlank(s: string) {
    forall i :: 0 <= i < |s| ==> s[i] <= ' '
  }

  /** One violated field constraint. */
  datatype Violation =
    | LoanIdBlank
    | PrincipalMissing | PrincipalBelowMinimum | PrincipalAboveMaximum
    | InterestRateMissing | InterestRateNegative | InterestRateAboveMaximum
    | TenureMissing | TenureBelowMinimum | TenureAboveMaximum
    | ProductTypeMissing | MethodMissing | StartDateMissing

  /** The set of constraint violations Validator.validate reports. As in bean
      validation, a null value satisfies @DecimalMin/@DecimalMax/@Min/@Max and
      is reported only by @NotNull; the bounds are inclusive. */
  function Violations(req: CalculationRequest): (v: set<Violation>)
    ensures v == {} <==>
      && req.loanId.Some? && !IsBlank(req.loanId.value)
      && req.principal.Some? && MinPrincipal <= req.principal.value <= MaxPrincipal
      && req.interestRate.Some? && MinInterestRate <= req.interestRate.value <= MaxInterestRate
      && req.tenure.Some? && MinTenure <= req.tenure.value as int <= MaxTenure
      && req.productType.Some? && req.amortisationMethod.Some? && req.startDate.Some?
  {
    (if req.loanId.None? || IsBlank(req.loanId.value) then {LoanIdBlank} else {})
    + (match req.principal
       case None => {PrincipalMissing}
       case Some(p) =>
         (if p < MinPrincipal then {PrincipalBelowMinimum} else {})
         + (if p > MaxPrincipal then {PrincipalAboveMaximum} else {}))
    + (match req.interestRate
       case None => {InterestRateMissing}
       case Some(a) =>
         (if a < MinInterestRate then {InterestRateNegative} else {})
         + (if a > MaxInterestRate then {InterestRateAboveMaximum} else {}))
    + (match req.tenure
       case None => {TenureMissing}
       case Some(n) =>
         (if (n as int) < MinTenure then {TenureBelowMinimum} else {})
         + (if (n as int) > MaxTenure then {TenureAboveMaximum} else {}))
    + (if req.productType.None? then {ProductTypeMissing} else {})
    + (if req.amortisationMethod.None? then {MethodMissing} else {})
    + (if req.startDate.None? then {StartDateMissing} else {})
  }

  /** A request the @Valid check at the HTTP boundary lets through. */
  predicate ValidRequest(req: CalculationRequest) {
    Violations(req) == {}
  }
}

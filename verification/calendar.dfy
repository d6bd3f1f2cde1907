/** The part of java.time.LocalDate the calculator relies on: proleptic ISO
    dates and `plusMonths`, which clamps the day to the end of the target month
    and throws DateTimeException when the year leaves LocalDate's range. */
module Calendar {

  /** Year bounds of LocalDate (Year.MIN_VALUE and Year.MAX_VALUE). */
  const MinYear: int := -999_999_999
  const MaxYear: int := 999_999_999

  /** A year-month-day triple, not necessarily a real date. */
  datatype CivilDate = CivilDate(year: int, month: int, day: int)

  /** ISO proleptic leap year rule. */
  predicate IsLeapYear(year: int) {
    year % 4 == 0 && (year % 100 != 0 || year % 400 == 0)
  }

  /** Number of days in a month of a year. */
  function LengthOfMonth(year: int, month: int): (days: int)
    requires 1 <= month <= 12
    ensures 28 <= days <= 31
    ensures month == 2 <==> days < 30
  {
    if month == 2 then (if IsLeapYear(year) then 29 else 28)
    else if month == 4 || month == 6 || month == 9 || month == 11 then 30
    else 31
  }

  /** A month in 1..12 and a day that exists in that month. */
  predicate WellFormed(d: CivilDate) {
    1 <= d.month <= 12 && 1 <= d.day <= LengthOfMonth(d.year, d.month)
  }

  predicate InYearRange(d: CivilDate) {
    MinYear <= d.year <= MaxYear
  }

  /** A value LocalDate can hold. */
  type Date = d: CivilDate | WellFormed(d) && InYearRange(d) witness CivilDate(1970, 1, 1)

  /** Months elapsed since January of year 0 (LocalDate's "proleptic month"). */
  function MonthIndex(d: CivilDate): int {
    d.year * 12 + (d.month - 1)
  }

  /** Strict chronological order of two dates. */
  predicate Before(d: CivilDate, e: CivilDate) {
    MonthIndex(d) < MonthIndex(e) || (MonthIndex(d) == MonthIndex(e) && d.day < e.day)
  }

  /** LocalDate.plusMonths for a non-negative count, before the year-range
      check: the month moves forward by exactly `months`, and the day is kept
      unless the target month is too short, in which case it becomes that
      month's last day. */
  function PlusMonths(d: Date, months: nat): (r: CivilDate)
    ensures WellFormed(r)
    ensures MonthIndex(r) == MonthIndex(d) + months
    ensures d.day <= LengthOfMonth(r.year, r.month) ==> r.day == d.day
    ensures d.day > LengthOfMonth(r.year, r.month) ==> r.day == LengthOfMonth(r.year, r.month)
  {
    var total := MonthIndex(d) + months;
    var year := total / 12;
    var month := total % 12 + 1;
    var last := LengthOfMonth(year, month);
    CivilDate(year, month, if d.day <= last then d.day else last)
  }

  /** Adding more months gives a strictly later date. */
  lemma PlusMonthsIncreasing(d: Date, m1: nat, m2: nat)
    requires m1 < m2
    ensures Before(PlusMonths(d, m1), PlusMonths(d, m2))
  {
  }

  /** Adding months never decreases the year, so if the furthest date is in
      LocalDate's range, so is every date before it. */
  lemma PlusMonthsInRange(d: Date, m1: nat, m2: nat)
    requires m1 <= m2
    requires InYearRange(PlusMonths(d, m2))
    ensures InYearRange(PlusMonths(d, m1))
  {
    var r1, r2 := PlusMonths(d, m1), PlusMonths(d, m2);
    assert r1.year <= r2.year;
  }
}

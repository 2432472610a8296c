/** Calendar dates as the portal uses them: Python `date` values compared field by field. */
module Calendar {
  import opened Portal

  /** A calendar date. Comparison is lexicographic on (year, month, day), like Python's `date`. */
  datatype Date = Date(year: int, month: int, day: int)

  /** Python's `(a.month, a.day) < (b.month, b.day)`. */
  predicate MonthDayBefore(a: Date, b: Date) {
    a.month < b.month || (a.month == b.month && a.day < b.day)
  }

  /** Python's `a <= b` on dates. */
  predicate NotAfter(a: Date, b: Date) {
    a.year < b.year || (a.year == b.year && !MonthDayBefore(b, a))
  }

  /** The date `n` years after `d`, on the same month and day (possibly not a real date). */
  function Anniversary(d: Date, n: int): Date {
    Date(d.year + n, d.month, d.day)
  }

  /**
   * Age in whole years on `today` for someone born on `dob`: the year difference, less one
   * when the birthday has not come yet this year. It is the number of birthdays reached:
   * birthday number `age` is on or before today and birthday number `age + 1` is after it.
   */
  function Age(today: Date, dob: Date): (age: int)
    ensures NotAfter(Anniversary(dob, age), today)
    ensures !NotAfter(Anniversary(dob, age + 1), today)
  {
    today.year - dob.year - (if MonthDayBefore(today, dob) then 1 else 0)
  }

  /** The Gregorian leap-year rule, as Python's `calendar.isleap`. */
  predicate IsLeapYear(y: int) {
    y % 4 == 0 && (y % 100 != 0 || y % 400 == 0)
  }

  function DaysInMonth(y: int, m: int): int
    requires 1 <= m <= 12
  {
    if m == 2 then (if IsLeapYear(y) then 29 else 28)
    else if m == 4 || m == 6 || m == 9 || m == 11 then 30
    else 31
  }

  /** The dates Python's `date(year, month, day)` constructor accepts. */
  predicate IsValidDate(d: Date) {
    1 <= d.year <= 9999 && 1 <= d.month <= 12 && 1 <= d.day <= DaysInMonth(d.year, d.month)
  }

  /**
   * The latest date of birth the evolved form offers: `date(today.year - 18, today.month,
   * today.day)`, or `None` where that constructor raises.
   */
  function MaxDob(today: Date): Option<Date> {
    var d := Anniversary(today, -18);
    if IsValidDate(d) then Some(d) else None
  }

  /** The bound fails exactly on a leap day, since eighteen years earlier is never a leap year. */
  lemma MaxDobFailsOnlyOnLeapDay(today: Date)
    requires IsValidDate(today) && today.year >= 19
    ensures MaxDob(today).None? <==> today.month == 2 && today.day == 29
  {
  }

  /** Being at least eighteen is the same as being born no later than the bound date. */
  lemma AdultIffBornByBound(today: Date, dob: Date)
    ensures Age(today, dob) >= 18 <==> NotAfter(dob, Anniversary(today, -18))
  {
  }

  /** Every date of birth the evolved form accepts gives an age of at least eighteen. */
  lemma AcceptedDobIsAdult(today: Date, dob: Date)
    requires MaxDob(today).Some? && NotAfter(dob, MaxDob(today).value)
    ensures Age(today, dob) >= 18
  {
  }
}

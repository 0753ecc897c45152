/** Calendar dates as `java.time.LocalDate` represents them: the ISO-8601 proleptic Gregorian
    calendar, with the range of years and the validity rules that `LocalDate.of` enforces. */
module Calendar {
  import opened Base

  /** A `LocalDate`: year, month 1..12 and day of month (valid when built by `LocalDateOf`). */
  datatype Date = Date(year: int, month: int, day: int)

  /** The range of `ChronoField.YEAR`. */
  const MIN_YEAR: int := -999_999_999
  const MAX_YEAR: int := 999_999_999

  /** The proleptic Gregorian leap-year rule of `IsoChronology.isLeapYear`. */
  predicate IsLeapYear(year: int) {
    year % 4 == 0 && (year % 100 != 0 || year % 400 == 0)
  }

  /** The number of days of `month` in `year`. */
  function MonthLength(year: int, month: int): (n: int)
    requires 1 <= month <= 12
    ensures 28 <= n <= 31
    ensures n == 31 <==> month in {1, 3, 5, 7, 8, 10, 12}
    ensures n == 29 <==> month == 2 && IsLeapYear(year)
    ensures n == 30 <==> month in {4, 6, 9, 11}
  {
    if month == 2 then (if IsLeapYear(year) then 29 else 28)
    else if month in {4, 6, 9, 11} then 30
    else 31
  }

  /** The arguments that `LocalDate.of(year, month, dayOfMonth)` accepts without throwing a
      `DateTimeException`. */
  predicate IsValidDate(year: int, month: int, day: int) {
    && MIN_YEAR <= year <= MAX_YEAR
    && 1 <= month <= 12
    && 1 <= day <= MonthLength(year, month)
  }

  /** `LocalDate.of(year, month, dayOfMonth)`: the date, or None where it throws. */
  function LocalDateOf(year: int, month: int, day: int): (r: Option<Date>)
    ensures r.Some? <==> IsValidDate(year, month, day)
    ensures r.Some? ==> r.value.year == year && r.value.month == month && r.value.day == day
  {
    if IsValidDate(year, month, day) then Some(Date(year, month, day)) else None
  }

  /** Chronological order of dates (`LocalDate.compareTo` <= 0, `ORDER BY` on a date column). */
  predicate DateLe(a: Date, b: Date) {
    a.year < b.year || (a.year == b.year && (a.month < b.month || (a.month == b.month && a.day <= b.day)))
  }

  /** `DateLe` is a total order. */
  lemma DateLeTotalOrder(a: Date, b: Date, c: Date)
    ensures DateLe(a, a)
    ensures DateLe(a, b) || DateLe(b, a)
    ensures DateLe(a, b) && DateLe(b, a) ==> a == b
    ensures DateLe(a, b) && DateLe(b, c) ==> DateLe(a, c)
  {
  }

  /** Every month of a representable year has a first day: the date `checkError` checks when
      only month and year are given is valid exactly when the month is. */
  lemma FirstOfMonthIsValid(year: int, month: int)
    ensures IsValidDate(year, month, 1) <==> MIN_YEAR <= year <= MAX_YEAR && 1 <= month <= 12
  {
  }

  /** 29 February exists exactly in leap years; years divisible by 100 but not by 400 are
      not leap years. */
  lemma LeapDay(year: int)
    requires MIN_YEAR <= year <= MAX_YEAR
    ensures IsValidDate(year, 2, 29) <==> IsLeapYear(year)
    ensures IsValidDate(2024, 2, 29) && !IsValidDate(1900, 2, 29) && IsValidDate(2000, 2, 29)
  {
  }

  /** Month 13 and day 32 are rejected in every year. */
  lemma OutOfRangeFields(year: int, month: int)
    ensures !IsValidDate(year, 13, 1)
    ensures !IsValidDate(year, month, 32)
    ensures !IsValidDate(year, month, 0)
  {
  }
}

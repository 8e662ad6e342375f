/**
 * The proleptic Gregorian calendar as Python's `datetime.date` constructor
 * enforces it: a year in MINYEAR..MAXYEAR, a month in 1..12 and a day within
 * that month's length. The constructor raises ValueError otherwise; here that
 * is `None`.
 */
module Calendar {
  import opened Wrappers

  const MinYear := 1
  const MaxYear := 9999

  datatype Date = Date(year: int, month: int, day: int)

  predicate IsLeapYear(y: int) {
    y % 4 == 0 && (y % 100 != 0 || y % 400 == 0)
  }

  function DaysInMonth(year: int, month: int): int
    requires 1 <= month <= 12
  {
    if month == 2 then (if IsLeapYear(year) then 29 else 28)
    else if month == 4 || month == 6 || month == 9 || month == 11 then 30
    else 31
  }

  predicate IsValidDate(d: Date) {
    && MinYear <= d.year <= MaxYear
    && 1 <= d.month <= 12
    && 1 <= d.day <= DaysInMonth(d.year, d.month)
  }

  /** `datetime.date(year=year, month=month, day=day)`. */
  function MakeDate(year: int, month: int, day: int): (r: Option<Date>)
    ensures r.Some? <==> MinYear <= year <= MaxYear && 1 <= month <= 12 && 1 <= day <= DaysInMonth(year, month)
    ensures r.Some? ==> r.value == Date(year, month, day)
  {
    var d := Date(year, month, day);
    if IsValidDate(d) then Some(d) else None
  }

  /** Every month of every year, leap or not, has at least 28 and at most 31 days. */
  lemma MonthLengthBounds(year: int, month: int)
    requires 1 <= month <= 12
    ensures 28 <= DaysInMonth(year, month) <= 31
    ensures DaysInMonth(year, month) == 28 <==> month == 2 && !IsLeapYear(year)
  {
  }
}

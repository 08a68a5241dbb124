/** Calendar dates as the services receive them, and the two date policies of the
    booking ledger: "strictly after today" and the pool season window. */
module Calendar {

  /** A Gregorian date; years range over 1..9999 as for Python's `date`. */
  datatype Date = Date(year: int, month: int, day: int)

  predicate IsLeapYear(y: int) {
    y % 4 == 0 && (y % 100 != 0 || y % 400 == 0)
  }

  function DaysInMonth(y: int, m: int): int
    requires 1 <= m <= 12
  {
    if m == 2 then (if IsLeapYear(y) then 29 else 28)
    else if m == 4 || m == 6 || m == 9 || m == 11 then 30
    else 31
  }

  predicate Valid(d: Date) {
    && 1 <= d.year <= 9999
    && 1 <= d.month <= 12
    && 1 <= d.day <= DaysInMonth(d.year, d.month)
  }

  /** The dates a request can carry: the transport only builds real calendar dates. */
  type CalendarDate = d: Date | Valid(d) witness Date(1, 1, 1)

  /** Chronological order: lexicographic on (year, month, day). */
  predicate Before(a: Date, b: Date) {
    a.year < b.year
    || (a.year == b.year && a.month < b.month)
    || (a.year == b.year && a.month == b.month && a.day < b.day)
  }

  /** A booking date is accepted only when it is strictly after `today`. */
  predicate IsFuture(d: Date, today: Date) {
    Before(today, d)
  }

  /** Python's tuple comparison `(m1, d1) <= (m2, d2)`. */
  predicate MonthDayAtMost(m1: int, d1: int, m2: int, d2: int) {
    m1 < m2 || (m1 == m2 && d1 <= d2)
  }

  const SeasonStartMonth := 5
  const SeasonStartDay := 20
  const SeasonEndMonth := 9
  const SeasonEndDay := 15

  /** The pool season: `(5, 20) <= (month, day) <= (9, 15)`, whatever the year. */
  predicate InSeason(d: Date): (r: bool)
    ensures r <==> || (d.month == 5 && 20 <= d.day)
                   || 6 <= d.month <= 8
                   || (d.month == 9 && d.day <= 15)
  {
    MonthDayAtMost(SeasonStartMonth, SeasonStartDay, d.month, d.day)
    && MonthDayAtMost(d.month, d.day, SeasonEndMonth, SeasonEndDay)
  }

  /** Both ends of the window are inclusive, the days just outside are not, in every year. */
  lemma SeasonBoundaries(y: int)
    ensures InSeason(Date(y, 5, 20)) && InSeason(Date(y, 9, 15))
    ensures !InSeason(Date(y, 5, 19)) && !InSeason(Date(y, 9, 16))
  {
  }
}

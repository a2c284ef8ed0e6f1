/**
 Dates, the age rule both scripts share, and the reference snapshot that replaces
 the scripts' reads of the Asia/Shanghai wall clock.
 */
module Calendar {
  import opened Options

  /** A plain (year, month, day) triple; nothing checks that it is a real calendar day. */
  datatype Date = Date(year: int, month: int, day: int)

  /** Python's tuple comparison `(m1, d1) < (m2, d2)`. */
  predicate MonthDayBefore(m1: int, d1: int, m2: int, d2: int) {
    m1 < m2 || (m1 == m2 && d1 < d2)
  }

  /** Lexicographic order on (year, month, day). */
  predicate DateBefore(a: Date, b: Date) {
    a.year < b.year || (a.year == b.year && MonthDayBefore(a.month, a.day, b.month, b.day))
  }

  /** The `n`-th anniversary of `born` falls on or before `today`. */
  predicate AnniversaryReached(today: Date, born: Date, n: int) {
    !DateBefore(today, Date(born.year + n, born.month, born.day))
  }

  /**
   The age rule of both scripts: the year difference, less one while this year's
   anniversary is still ahead. It counts the anniversaries reached so far.
   */
  function YearsSince(today: Date, born: Date): (age: int)
    ensures forall n :: AnniversaryReached(today, born, n) <==> n <= age
    ensures today.year - born.year - 1 <= age <= today.year - born.year
    ensures today.month == born.month && today.day == born.day ==> age == today.year - born.year
  {
    var age := today.year - born.year;
    if MonthDayBefore(today.month, today.day, born.month, born.day) then age - 1 else age
  }

  /**
   The lunar calendar library's conversion of a lunar (year, month, day) to the solar date,
   which may fail by raising; a failure is `None`.
   */
  type LunarToSolar = (int, int, int) -> Option<Date>

  /** One reading of the clock: today's solar date and the same day in the lunar calendar. */
  datatype Clock = Clock(today: Date, lunarToday: Date)
}

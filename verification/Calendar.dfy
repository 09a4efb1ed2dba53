/** The civil calendar behind the folder-timestamp organizer: leap years, month
    lengths, the number of seconds since the start of year 1, and the
    six-field folder timestamp that the organizer rewrites in place. */
module Calendar {

  type U8 = x: int | 0 <= x < 0x100
  type U16 = x: int | 0 <= x < 0x1_0000

  const SECONDS_PER_DAY := 86400
  const MIN_YEAR := 1
  const MAX_YEAR := 2099

  /** The fields of a memory-card timestamp, with their stored widths. */
  datatype Stamp = Stamp(year: U16, month: U8, day: U8, hour: U8, minute: U8, second: U8)

  /** The reserved date of every folder whose name contains "tuna". */
  const TUNA := Stamp(2099, 12, 31, 23, 59, 59)

  /** The first stamp handed out by the alphabetical modes. */
  const SEQUENTIAL_TOP := Stamp(2099, 12, 31, 23, 59, 58)

  /** The newest stamp handed out by the category mode. */
  const SAS_TOP := Stamp(2099, 1, 1, 7, 59, 59)

  const DAYS_PER_MONTH: seq<int> := [31, 28, 31, 30, 31, 30, 31, 31, 30, 31, 30, 31]

  predicate IsLeapYear(year: int) {
    year % 4 == 0 && (year % 100 != 0 || year % 400 == 0)
  }

  function DaysInMonth(year: int, month: int): (days: int)
    requires 1 <= month <= 12
    ensures 28 <= days <= 31
  {
    DAYS_PER_MONTH[month - 1] + if month == 2 && IsLeapYear(year) then 1 else 0
  }

  predicate InRange(s: Stamp) {
    && MIN_YEAR <= s.year <= MAX_YEAR
    && 1 <= s.month <= 12
    && 1 <= s.day <= DaysInMonth(s.year, s.month)
    && s.hour <= 23
    && s.minute <= 59
    && s.second <= 59
  }

  // ----- counting time, independently of how the code steps through it -----

  const DAYS_BEFORE_MONTH: seq<int> := [0, 31, 59, 90, 120, 151, 181, 212, 243, 273, 304, 334, 365]

  /** Days of the year that precede the month; month 13 stands for the whole year. */
  function DaysBeforeMonth(year: int, month: int): nat
    requires 1 <= month <= 13
  {
    DAYS_BEFORE_MONTH[month - 1] + if month > 2 && IsLeapYear(year) then 1 else 0
  }

  /** Days since the start of year 1, by the Gregorian intercalation rule. */
  function DaysBeforeYear(year: int): int
    requires 1 <= year
  {
    365 * (year - 1) + (year - 1) / 4 - (year - 1) / 100 + (year - 1) / 400
  }

  function DayNumber(s: Stamp): int
    requires InRange(s)
  {
    DaysBeforeYear(s.year) + DaysBeforeMonth(s.year, s.month) + s.day - 1
  }

  function TimeOfDay(s: Stamp): nat {
    s.hour * 3600 + s.minute * 60 + s.second
  }

  /** Seconds since midnight at the start of 1 January of year 1. */
  function Seconds(s: Stamp): int
    requires InRange(s)
  {
    DayNumber(s) * SECONDS_PER_DAY + TimeOfDay(s)
  }

  /** The month lengths used by the code add up to the ordinal days of the year. */
  lemma MonthStep(year: int, month: int)
    requires 1 <= month <= 12
    ensures DaysBeforeMonth(year, month + 1) == DaysBeforeMonth(year, month) + DaysInMonth(year, month)
  {
  }

  lemma QuotientSteps(n: int)
    ensures n / 4 == (n - 1) / 4 + if n % 4 == 0 then 1 else 0
    ensures n / 100 == (n - 1) / 100 + if n % 100 == 0 then 1 else 0
    ensures n / 400 == (n - 1) / 400 + if n % 400 == 0 then 1 else 0
  {
  }

  lemma CenturiesNest(n: int)
    ensures n % 400 == 0 ==> n % 100 == 0
    ensures n % 100 == 0 ==> n % 4 == 0
  {
  }

  /** The leap rule used by the code counts whole years as the Gregorian rule does. */
  lemma YearStep(year: int)
    requires 1 <= year
    ensures DaysBeforeYear(year + 1) == DaysBeforeYear(year) + DaysBeforeMonth(year, 13)
  {
    QuotientSteps(year);
    CenturiesNest(year);
  }

  lemma {:induction false} DaysBeforeMonthMonotone(year: int, m: int, n: int)
    requires 1 <= m < n <= 13
    ensures DaysBeforeMonth(year, m) + DaysInMonth(year, m) <= DaysBeforeMonth(year, n)
    decreases n
  {
    MonthStep(year, n - 1);
    if m + 1 < n {
      DaysBeforeMonthMonotone(year, m, n - 1);
    }
  }

  lemma {:induction false} DaysBeforeYearMonotone(y: int, z: int)
    requires 1 <= y < z
    ensures DaysBeforeYear(y) + DaysBeforeMonth(y, 13) <= DaysBeforeYear(z)
    decreases z
  {
    YearStep(z - 1);
    if y + 1 < z {
      DaysBeforeYearMonotone(y, z - 1);
    }
  }

  /** Year first, then month, day, hour, minute, second. */
  predicate Older(a: Stamp, b: Stamp) {
    if a.year != b.year then a.year < b.year
    else if a.month != b.month then a.month < b.month
    else if a.day != b.day then a.day < b.day
    else if a.hour != b.hour then a.hour < b.hour
    else if a.minute != b.minute then a.minute < b.minute
    else a.second < b.second
  }

  lemma DayNumberFitsYear(s: Stamp)
    requires InRange(s)
    ensures DaysBeforeYear(s.year) <= DayNumber(s) < DaysBeforeYear(s.year) + DaysBeforeMonth(s.year, 13)
    ensures DaysBeforeMonth(s.year, s.month) + s.day <= DaysBeforeMonth(s.year, 13)
  {
    if s.month < 13 { DaysBeforeMonthMonotone(s.year, s.month, 13); }
  }

  lemma OlderDayIsSmaller(a: Stamp, b: Stamp)
    requires InRange(a) && InRange(b)
    requires a.year < b.year || (a.year == b.year && (a.month < b.month || (a.month == b.month && a.day < b.day)))
    ensures DayNumber(a) < DayNumber(b)
  {
    DayNumberFitsYear(a);
    if a.year < b.year {
      DaysBeforeYearMonotone(a.year, b.year);
    } else if a.month < b.month {
      DaysBeforeMonthMonotone(a.year, a.month, b.month);
    }
  }

  lemma OlderIsFewerSeconds(a: Stamp, b: Stamp)
    requires InRange(a) && InRange(b) && Older(a, b)
    ensures Seconds(a) < Seconds(b)
  {
    if a.year != b.year || a.month != b.month || a.day != b.day {
      OlderDayIsSmaller(a, b);
    }
  }

  /** Comparing the six fields in order is comparing points in time. */
  lemma SecondsOrder(a: Stamp, b: Stamp)
    requires InRange(a) && InRange(b)
    ensures Older(a, b) <==> Seconds(a) < Seconds(b)
    ensures a == b <==> Seconds(a) == Seconds(b)
  {
    if Older(a, b) {
      OlderIsFewerSeconds(a, b);
    } else if a != b {
      assert Older(b, a);
      OlderIsFewerSeconds(b, a);
    }
  }

  predicate IsFirstSecond(s: Stamp) {
    s.year == 1 && s.month == 1 && s.day == 1 && s.hour == 0 && s.minute == 0 && s.second == 0
  }

  lemma DayNumberFromZero(s: Stamp)
    requires InRange(s)
    ensures DayNumber(s) >= 0
  {
  }

  lemma FirstDay(s: Stamp)
    requires InRange(s)
    ensures DayNumber(s) == 0 <==> s.year == 1 && s.month == 1 && s.day == 1
  {
    DayNumberFromZero(s);
    assert DaysBeforeYear(1) == 0 && DaysBeforeMonth(1, 1) == 0;
  }

  /** Time starts at 1 January of year 1, 00:00:00. */
  lemma FirstSecond(s: Stamp)
    requires InRange(s)
    ensures Seconds(s) >= 0
    ensures Seconds(s) == 0 <==> IsFirstSecond(s)
  {
    DayNumberFromZero(s);
    FirstDay(s);
  }

  /** The reserved date is the last second of the range. */
  lemma TunaIsLast(s: Stamp)
    requires InRange(s)
    ensures InRange(TUNA) && Seconds(s) <= Seconds(TUNA)
    ensures Seconds(s) == Seconds(TUNA) <==> s == TUNA
  {
    assert !Older(TUNA, s);
    SecondsOrder(s, TUNA);
    SecondsOrder(TUNA, s);
  }

  lemma NamedSeconds()
    ensures InRange(TUNA) && InRange(SEQUENTIAL_TOP) && InRange(SAS_TOP)
    ensures Seconds(SEQUENTIAL_TOP) == Seconds(TUNA) - 1
    ensures Seconds(SAS_TOP) < Seconds(SEQUENTIAL_TOP)
  {
    assert Older(SAS_TOP, SEQUENTIAL_TOP);
    SecondsOrder(SAS_TOP, SEQUENTIAL_TOP);
  }
}

/**
 * The proleptic Gregorian calendar as JavaScript's `Date` uses it, on whole
 * days: a date is its day number counted from 1 January 1970 in local time
 * (time of day and time-zone offsets are not modelled). Months are numbered
 * 0..11 as `getMonth()` numbers them.
 */
module CivilCalendar {

  predicate IsLeapYear(y: int)
  {
    y % 4 == 0 && (y % 100 != 0 || y % 400 == 0)
  }

  function YearLength(y: int): int
  {
    if IsLeapYear(y) then 366 else 365
  }

  function MonthLength(y: int, m: int): (n: int)
    requires 0 <= m < 12
    ensures 28 <= n <= 31
    ensures m == 1 ==> (n == 29 <==> IsLeapYear(y))
  {
    if m == 1 then (if IsLeapYear(y) then 29 else 28)
    else if m == 3 || m == 5 || m == 8 || m == 10 then 30
    else 31
  }

  /** Days of year `y` before the first of month `m` (month 12 stands for the end of the year). */
  function DaysBeforeMonth(y: int, m: int): (n: int)
    requires 0 <= m <= 12
    ensures 0 <= n <= 31 * m
  {
    [0, 31, 59, 90, 120, 151, 181, 212, 243, 273, 304, 334, 365][m] + (if m >= 2 && IsLeapYear(y) then 1 else 0)
  }

  /** Each month starts where the previous one ends: the table agrees with the month lengths. */
  lemma MonthStep(y: int, m: int)
    requires 0 <= m < 12
    ensures DaysBeforeMonth(y, m + 1) == DaysBeforeMonth(y, m) + MonthLength(y, m)
  {
  }

  /** The twelve months fill the year exactly. */
  lemma MonthsFillYear(y: int)
    ensures DaysBeforeMonth(y, 12) == YearLength(y)
  {
  }

  /** Months start at increasing offsets. */
  lemma {:induction false} DaysBeforeMonthMonotone(y: int, m1: int, m2: int)
    requires 0 <= m1 < m2 <= 12
    ensures DaysBeforeMonth(y, m1 + 1) <= DaysBeforeMonth(y, m2)
    decreases m2 - m1
  {
    if m1 + 1 < m2 {
      DaysBeforeMonthMonotone(y, m1, m2 - 1);
      MonthStep(y, m2 - 1);
    }
  }

  /** Leap years before year `y` (among all years, counted from a fixed origin). */
  function LeapsBefore(y: int): int
  {
    (y - 1) / 4 - (y - 1) / 100 + (y - 1) / 400
  }

  /** Day number of 1 January of year `y`. */
  function DaysBeforeYear(y: int): int
  {
    365 * (y - 1970) + LeapsBefore(y) - LeapsBefore(1970)
  }

  /** Consecutive years are one year length apart. */
  lemma NextYear(y: int)
    ensures DaysBeforeYear(y + 1) == DaysBeforeYear(y) + YearLength(y)
  {
    QuotientStep4(y);
    QuotientStep100(y);
    QuotientStep400(y);
  }

  /** Among `1..y` there is one more multiple of 4 than among `1..y-1` exactly when 4 divides `y`; likewise for 100 and 400. */
  lemma QuotientStep4(y: int)
    ensures y / 4 - (y - 1) / 4 == (if y % 4 == 0 then 1 else 0)
  {
    var q, r := (y - 1) / 4, (y - 1) % 4;
    assert y == 4 * q + r + 1;
  }

  lemma QuotientStep100(y: int)
    ensures y / 100 - (y - 1) / 100 == (if y % 100 == 0 then 1 else 0)
    ensures y % 100 == 0 ==> y % 4 == 0
  {
    var q, r := (y - 1) / 100, (y - 1) % 100;
    assert y == 100 * q + r + 1;
    if y % 100 == 0 {
      assert y == 4 * (25 * (y / 100));
    }
  }

  lemma QuotientStep400(y: int)
    ensures y / 400 - (y - 1) / 400 == (if y % 400 == 0 then 1 else 0)
    ensures y % 400 == 0 ==> y % 100 == 0
  {
    var q, r := (y - 1) / 400, (y - 1) % 400;
    assert y == 400 * q + r + 1;
    if y % 400 == 0 {
      assert y == 100 * (4 * (y / 400));
    }
  }

  lemma {:induction false} DaysBeforeYearMonotone(y1: int, y2: int)
    requires y1 < y2
    ensures DaysBeforeYear(y1 + 1) <= DaysBeforeYear(y2)
    decreases y2 - y1
  {
    NextYear(y1);
    if y1 + 1 < y2 {
      DaysBeforeYearMonotone(y1 + 1, y2);
      NextYear(y1 + 1);
    }
  }

  /** A calendar date: `getFullYear()`, `getMonth()`, `getDate()`. */
  datatype Civil = Civil(year: int, month: int, date: int)

  predicate ValidCivil(c: Civil)
  {
    0 <= c.month < 12 && 1 <= c.date <= MonthLength(c.year, c.month)
  }

  /** Day number of a date whose day of month may lie outside the month, as `Date` accepts it. */
  function DayNumber(y: int, m: int, d: int): int
    requires 0 <= m < 12
  {
    DaysBeforeYear(y) + DaysBeforeMonth(y, m) + d - 1
  }

  /** The day after a valid date: the next day of the month, else the 1st of the next month or year. */
  function NextDay(c: Civil): (r: Civil)
    requires ValidCivil(c)
    ensures ValidCivil(r)
  {
    if c.date < MonthLength(c.year, c.month) then Civil(c.year, c.month, c.date + 1)
    else if c.month < 11 then Civil(c.year, c.month + 1, 1)
    else Civil(c.year + 1, 0, 1)
  }

  /** The day before a valid date: the previous day of the month, else the last of the previous month or year. */
  function PrevDay(c: Civil): (r: Civil)
    requires ValidCivil(c)
    ensures ValidCivil(r)
  {
    if c.date > 1 then Civil(c.year, c.month, c.date - 1)
    else if c.month > 0 then Civil(c.year, c.month - 1, MonthLength(c.year, c.month - 1))
    else Civil(c.year - 1, 11, 31)
  }

  lemma NextDayNumber(c: Civil)
    requires ValidCivil(c)
    ensures DayNumber(NextDay(c).year, NextDay(c).month, NextDay(c).date) == DayNumber(c.year, c.month, c.date) + 1
  {
    MonthStep(c.year, c.month);
    if c.date == MonthLength(c.year, c.month) && c.month == 11 {
      MonthsFillYear(c.year);
      NextYear(c.year);
    }
  }

  lemma PrevDayNumber(c: Civil)
    requires ValidCivil(c)
    ensures DayNumber(PrevDay(c).year, PrevDay(c).month, PrevDay(c).date) == DayNumber(c.year, c.month, c.date) - 1
  {
    if c.date == 1 {
      if c.month > 0 {
        MonthStep(c.year, c.month - 1);
      } else {
        MonthStep(c.year - 1, 11);
        MonthsFillYear(c.year - 1);
        NextYear(c.year - 1);
      }
    }
  }

  /**
   * The calendar date of day number `n`, counted day by day from
   * 1 January 1970 (day 0) forwards or backwards.
   */
  function CivilFromDays(n: int): (c: Civil)
    ensures ValidCivil(c)
    decreases if n >= 0 then n else -n
  {
    if n == 0 then Civil(1970, 0, 1)
    else if n > 0 then NextDay(CivilFromDays(n - 1))
    else PrevDay(CivilFromDays(n + 1))
  }

  /** `CivilFromDays(n)` is a date whose day number is `n`. */
  lemma CivilFromDaysInverse(n: int)
    ensures DayNumber(CivilFromDays(n).year, CivilFromDays(n).month, CivilFromDays(n).date) == n
  {
    if n >= 0 {
      CountUp(n);
    } else {
      CountDown(n);
    }
  }

  lemma {:induction false} CountUp(n: nat)
    ensures DayNumber(CivilFromDays(n).year, CivilFromDays(n).month, CivilFromDays(n).date) == n
  {
    if n > 0 {
      var c := CivilFromDays(n - 1);
      CountUp(n - 1);
      NextDayNumber(c);
    }
  }

  lemma {:induction false} CountDown(n: int)
    requires n <= 0
    ensures DayNumber(CivilFromDays(n).year, CivilFromDays(n).month, CivilFromDays(n).date) == n
    decreases -n
  {
    if n < 0 {
      var c := CivilFromDays(n + 1);
      CountDown(n + 1);
      PrevDayNumber(c);
    }
  }

  /** Distinct valid dates have distinct day numbers: `CivilFromDays` inverts `DayNumber`. */
  lemma CivilRoundTrip(c: Civil)
    requires ValidCivil(c)
    ensures CivilFromDays(DayNumber(c.year, c.month, c.date)) == c
  {
    var n := DayNumber(c.year, c.month, c.date);
    CivilFromDaysInverse(n);
    SameDayNumberSameYear(CivilFromDays(n), c);
    SameDayNumberSameDate(CivilFromDays(n), c);
  }

  /** Two valid dates with the same day number lie in the same year. */
  lemma SameDayNumberSameYear(a: Civil, b: Civil)
    requires ValidCivil(a) && ValidCivil(b)
    requires DayNumber(a.year, a.month, a.date) == DayNumber(b.year, b.month, b.date)
    ensures a.year == b.year
  {
    DayNumberBounds(a);
    DayNumberBounds(b);
    if a.year < b.year {
      DaysBeforeYearMonotone(a.year, b.year);
    } else if a.year > b.year {
      DaysBeforeYearMonotone(b.year, a.year);
    }
  }

  /** Two valid dates of the same year with the same day number are the same date. */
  lemma SameDayNumberSameDate(a: Civil, b: Civil)
    requires ValidCivil(a) && ValidCivil(b) && a.year == b.year
    requires DayNumber(a.year, a.month, a.date) == DayNumber(b.year, b.month, b.date)
    ensures a == b
  {
    DayNumberBounds(a);
    DayNumberBounds(b);
    if a.month < b.month {
      DaysBeforeMonthMonotone(a.year, a.month, b.month);
    } else if a.month > b.month {
      DaysBeforeMonthMonotone(a.year, b.month, a.month);
    }
  }

  /** A valid date lies inside its month and its year. */
  lemma DayNumberBounds(c: Civil)
    requires ValidCivil(c)
    ensures DaysBeforeYear(c.year) + DaysBeforeMonth(c.year, c.month) <= DayNumber(c.year, c.month, c.date)
    ensures DayNumber(c.year, c.month, c.date) < DaysBeforeYear(c.year) + DaysBeforeMonth(c.year, c.month + 1)
    ensures DayNumber(c.year, c.month, c.date) < DaysBeforeYear(c.year + 1)
  {
    NextYear(c.year);
    MonthsFillYear(c.year);
    if c.month + 1 < 12 {
      DaysBeforeMonthMonotone(c.year, c.month + 1, 12);
    }
  }

  // ---------------------------------------------------------------- the Date methods

  /** `getFullYear()`, `getMonth()`, `getDate()` of day `n`. */
  function GetFullYear(n: int): int { CivilFromDays(n).year }
  function GetMonth(n: int): int { CivilFromDays(n).month }
  function GetDate(n: int): int { CivilFromDays(n).date }

  /** `getDay()`: 0 for Sunday, 6 for Saturday; 1 January 1970 was a Thursday. */
  function GetDay(n: int): (w: int)
    ensures 0 <= w < 7
  {
    (n + 4) % 7
  }

  /** A week later is the same weekday. */
  lemma GetDayPeriodic(n: int, k: int)
    ensures GetDay(n + 7 * k) == GetDay(n)
  {
  }

  /**
   * ECMAScript's MakeDay, the day arithmetic shared by the `Date`
   * constructor, `setDate` and `setMonth`: a month outside 0..11 carries
   * into the year, a day outside the month into the neighbouring months.
   */
  function MakeDay(y: int, m: int, d: int): int
  {
    DaysBeforeYear(y + m / 12) + DaysBeforeMonth(y + m / 12, m % 12) + d - 1
  }

  /** For a date that exists, MakeDay gives exactly that year, month and day. */
  lemma MakeDayValid(y: int, m: int, d: int)
    requires 0 <= m < 12 && 1 <= d <= MonthLength(y, m)
    ensures CivilFromDays(MakeDay(y, m, d)) == Civil(y, m, d)
  {
    MakeDayInRange(y, m, d);
    CivilRoundTrip(Civil(y, m, d));
  }

  /** The getters read back the year, month and day of a valid MakeDay. */
  lemma MakeDayParts(n: int, y: int, m: int, d: int)
    requires 0 <= m < 12 && 1 <= d <= MonthLength(y, m)
    requires n == MakeDay(y, m, d)
    ensures GetFullYear(n) == y && GetMonth(n) == m && GetDate(n) == d
  {
    MakeDayValid(y, m, d);
  }

  /** Days carry linearly, and twelve months make a year. */
  lemma MakeDayCarries(y: int, m: int, d: int, k: int)
    ensures MakeDay(y, m, d + k) == MakeDay(y, m, d) + k
    ensures MakeDay(y, m + 12, d) == MakeDay(y + 1, m, d)
  {
    assert (m + 12) / 12 == m / 12 + 1;
    assert (m + 12) % 12 == m % 12;
  }

  /** A month outside 0..11 is the same as its carried year and month. */
  lemma MakeDayNormal(y: int, m: int, d: int)
    ensures MakeDay(y, m, d) == MakeDay(y + m / 12, m % 12, d)
  {
    assert (m % 12) / 12 == 0 && (m % 12) % 12 == m % 12;
  }

  /** `setDate(d)`: same year and month, day of month `d`, carrying as MakeDay does. */
  function SetDate(n: int, d: int): (r: int)
    ensures r == n + (d - GetDate(n))
  {
    var c := CivilFromDays(n);
    MonthOffset(n, c, d);
    MakeDay(c.year, c.month, d)
  }

  /** Within the month of day `n`, day of month `d` lies `d - getDate()` days from `n`. */
  lemma MonthOffset(n: int, c: Civil, d: int)
    requires c == CivilFromDays(n)
    ensures MakeDay(c.year, c.month, d) == n + (d - c.date)
  {
    CivilFromDaysInverse(n);
    MakeDayInRange(c.year, c.month, d);
  }

  /** With the month in range nothing carries: MakeDay is the day number of `(y, m, d)`. */
  lemma MakeDayInRange(y: int, m: int, d: int)
    requires 0 <= m < 12
    ensures MakeDay(y, m, d) == DayNumber(y, m, d)
  {
    assert m / 12 == 0 && m % 12 == m;
  }

  /** `setMonth(t)` with the month carried into the year. */
  lemma SetMonthNormal(n: int, t: int)
    ensures SetMonth(n, t) == MakeDay(GetFullYear(n) + t / 12, t % 12, GetDate(n))
  {
    MakeDayNormal(GetFullYear(n), t, GetDate(n));
  }

  /** `setMonth(m)`: same year and day of month, month `m`, carrying as MakeDay does. */
  function SetMonth(n: int, m: int): int
  {
    MakeDay(GetFullYear(n), m, GetDate(n))
  }

  /**
   * When the month `t` carries to has the day of month of `n`, `setMonth(t)`
   * lands on that day of that month, in the year `t` carries to.
   */
  lemma SetMonthLands(n: int, t: int, y: int, m: int)
    requires y == GetFullYear(n) + t / 12 && m == t % 12
    requires GetDate(n) <= MonthLength(y, m)
    ensures GetFullYear(SetMonth(n, t)) == y
    ensures GetMonth(SetMonth(n, t)) == m
    ensures GetDate(SetMonth(n, t)) == GetDate(n)
  {
    SetMonthNormal(n, t);
    MakeDayParts(SetMonth(n, t), y, m, GetDate(n));
  }

  /** The `Date` constructor reads a year 0..99 as 1900..1999; `setMonth` and `setDate` do not. */
  function ConstructorYear(y: int): (r: int)
    ensures r == y || r == y + 1900
    ensures !(0 <= r <= 99)
  {
    if 0 <= y <= 99 then 1900 + y else y
  }

  /** `new Date(y, m, d)`: MakeDay of the year as the constructor reads it. */
  function NewDate(y: int, m: int, d: int): (r: int)
    ensures 0 <= y <= 99 ==> r == MakeDay(1900 + y, m, d)
    ensures !(0 <= y <= 99) ==> r == MakeDay(y, m, d)
  {
    MakeDay(ConstructorYear(y), m, d)
  }

  /** For a date that exists, `new Date(y, m, d)` has that month and day, in the year the constructor reads. */
  lemma NewDateValid(y: int, m: int, d: int)
    requires 0 <= m < 12 && 1 <= d <= MonthLength(ConstructorYear(y), m)
    ensures CivilFromDays(NewDate(y, m, d)) == Civil(ConstructorYear(y), m, d)
  {
    MakeDayValid(ConstructorYear(y), m, d);
  }

  /** The getters read back the parts a valid `new Date(y, m, d)` was made from; a two-digit year reads back as 19xx. */
  lemma NewDateParts(n: int, y: int, m: int, d: int)
    requires 0 <= m < 12 && 1 <= d <= MonthLength(ConstructorYear(y), m)
    requires n == NewDate(y, m, d)
    ensures GetFullYear(n) == ConstructorYear(y) && GetMonth(n) == m && GetDate(n) == d
    ensures 0 <= y <= 99 ==> GetFullYear(n) == 1900 + y
  {
    NewDateValid(y, m, d);
  }

  /** Day 0 of the next month is the last day of this one, December included. */
  lemma MakeDayZeroOfNextMonth(y: int, m: int)
    requires 0 <= m < 12
    ensures MakeDay(y, m + 1, 0) == MakeDay(y, m, MonthLength(y, m))
  {
    if m < 11 {
      ZeroOfNextMonthInYear(y, m);
    } else {
      ZeroOfJanuary(y);
    }
  }

  /** Day 0 of month `m + 1` of the same year is the last day of month `m`. */
  lemma ZeroOfNextMonthInYear(y: int, m: int)
    requires 0 <= m < 11
    ensures MakeDay(y, m + 1, 0) == MakeDay(y, m, MonthLength(y, m))
  {
    MakeDayInRange(y, m, MonthLength(y, m));
    MakeDayInRange(y, m + 1, 0);
    MonthStep(y, m);
  }

  /** Day 0 of month 12 (January of the next year) is 31 December. */
  lemma ZeroOfJanuary(y: int)
    ensures MakeDay(y, 12, 0) == MakeDay(y, 11, MonthLength(y, 11))
  {
    MakeDayCarries(y, 0, 0, 0);
    MakeDayInRange(y + 1, 0, 0);
    MakeDayInRange(y, 11, MonthLength(y, 11));
    MonthStep(y, 11);
    NextYear(y);
    MonthsFillYear(y);
  }

  /** Day 0 of the next month is the last day of this one, in the year the constructor reads. */
  lemma DayZeroOfNextMonth(y: int, m: int)
    requires 0 <= m < 12
    ensures NewDate(y, m + 1, 0) == NewDate(y, m, MonthLength(ConstructorYear(y), m))
  {
    MakeDayZeroOfNextMonth(ConstructorYear(y), m);
  }

  /**
   * `new Date(y, m + 1, 0).getDate()` is the length of month `m` of the year
   * the constructor reads; the day is the last of that month.
   */
  lemma LastDayOfMonth(y: int, m: int)
    requires 0 <= m < 12
    ensures CivilFromDays(NewDate(y, m + 1, 0)) == Civil(ConstructorYear(y), m, MonthLength(ConstructorYear(y), m))
  {
    DayZeroOfNextMonth(y, m);
    NewDateValid(y, m, MonthLength(ConstructorYear(y), m));
  }
}

/**
 * Local calendar arithmetic as the JavaScript `Date` object performs it on
 * the proleptic Gregorian calendar: leap years, month lengths, day numbers
 * counted from 1970-01-01, weekdays, and the day-of-month overflow that
 * `new Date(y, m, d)` and `setMonth` apply when a day does not exist in
 * its month. Instants are local-time milliseconds; time zones and daylight
 * saving are outside the model.
 */
module CivilCalendar {
  import opened Common

  /** A month index as `Date.prototype.getMonth` returns it: 0 is January. */
  type Month = m: int | 0 <= m < 12

  const MsPerDay: int := 86_400_000

  /** A calendar date; `day` is the day of the month, starting at 1. */
  datatype CivilDate = CivilDate(year: int, month: Month, day: int)

  predicate IsLeapYear(y: int) {
    (y % 4 == 0 && y % 100 != 0) || y % 400 == 0
  }

  function YearLength(y: int): int {
    if IsLeapYear(y) then 366 else 365
  }

  /** The length of month `m` of year `y` (what
      `new Date(y, m + 1, 0).getDate()` yields). */
  function DaysInMonth(y: int, m: Month): (r: int)
    ensures 28 <= r <= 31
    ensures m == 1 ==> (r == 29 <==> IsLeapYear(y))
    ensures r < 30 ==> m == 1
  {
    if m == 1 then (if IsLeapYear(y) then 29 else 28)
    else if m == 3 || m == 5 || m == 8 || m == 10 then 30
    else 31
  }

  predicate ValidDate(c: CivilDate) {
    1 <= c.day <= DaysInMonth(c.year, c.month)
  }

  /** Leap-year count with a fixed origin: the multiples of 4, less those of
      100, plus those of 400, up to `y` (floor division, any sign). */
  function LeapsThrough(y: int): int {
    y / 4 - y / 100 + y / 400
  }

  lemma DivStep(y: int)
    ensures y / 4 - (y - 1) / 4 == (if y % 4 == 0 then 1 else 0)
    ensures y / 100 - (y - 1) / 100 == (if y % 100 == 0 then 1 else 0)
    ensures y / 400 - (y - 1) / 400 == (if y % 400 == 0 then 1 else 0)
  {
  }

  /** Going from year y - 1 to y adds one leap year exactly when y is one. */
  lemma LeapsStep(y: int)
    ensures LeapsThrough(y) - LeapsThrough(y - 1) == (if IsLeapYear(y) then 1 else 0)
  {
    DivStep(y);
    if y % 400 == 0 {
      MultipleDivides(y, 100, 4);
      MultipleDivides(y, 4, 100);
    } else if y % 100 == 0 {
      MultipleDivides(y, 4, 25);
    }
  }

  /** A multiple of `a * b` is a multiple of `a`. */
  lemma MultipleDivides(y: int, a: int, b: int)
    requires a > 0 && b > 0 && y % (a * b) == 0
    ensures y % a == 0
  {
    var k := y / (a * b);
    assert y == (a * b) * k;
    assert y == a * (b * k);
  }

  /** Days from 1970-01-01 to the first of January of year `y`. */
  function DaysBeforeYear(y: int): int {
    365 * (y - 1970) + LeapsThrough(y - 1) - LeapsThrough(1969)
  }

  /** Consecutive years start exactly one year length apart. */
  lemma DaysBeforeNextYear(y: int)
    ensures DaysBeforeYear(y + 1) == DaysBeforeYear(y) + YearLength(y)
  {
    LeapsStep(y);
  }

  /** Days from the first of January of `y` to the first of month `m`. */
  function DaysBeforeMonth(y: int, m: int): int
    requires 0 <= m <= 12
    decreases m
  {
    if m == 0 then 0 else DaysBeforeMonth(y, m - 1) + DaysInMonth(y, m - 1)
  }

  /** The twelve month lengths add up to the year length. */
  lemma MonthsFillYear(y: int)
    ensures DaysBeforeMonth(y, 12) == YearLength(y)
  {
  }

  /** Day number of a calendar date: 0 for 1970-01-01, one more per day. */
  function DayNumber(c: CivilDate): int {
    DaysBeforeYear(c.year) + DaysBeforeMonth(c.year, c.month) + c.day - 1
  }

  /** Weekday of a day number as `getDay` reports it: 0 is Sunday
      (1970-01-01 was a Thursday). */
  function Weekday(n: int): (r: int)
    ensures 0 <= r < 7
  {
    (n + 4) % 7
  }

  /** Weekday of the first of the month (`getFirstDayOfMonth`). */
  function FirstDayOfMonth(y: int, m: Month): (r: int)
    ensures 0 <= r < 7
  {
    Weekday(DayNumber(CivilDate(y, m, 1)))
  }

  /** Months counted consecutively across years. */
  function MonthIndex(y: int, m: Month): int {
    12 * y + m
  }

  /** The year and month after (y, m), carrying into the next year. */
  function NextMonth(y: int, m: Month): (r: (int, Month))
    ensures MonthIndex(r.0, r.1) == MonthIndex(y, m) + 1
  {
    if m == 11 then (y + 1, 0) else (y, m + 1)
  }

  /** The year and month before (y, m), borrowing from the previous year. */
  function PrevMonth(y: int, m: Month): (r: (int, Month))
    ensures MonthIndex(r.0, r.1) == MonthIndex(y, m) - 1
  {
    if m == 0 then (y - 1, 11) else (y, m - 1)
  }

  /** A month begins exactly one month length after the previous one. */
  lemma NextMonthStart(y: int, m: Month)
    ensures DayNumber(CivilDate(NextMonth(y, m).0, NextMonth(y, m).1, 1))
         == DayNumber(CivilDate(y, m, 1)) + DaysInMonth(y, m)
  {
    if m == 11 {
      DaysBeforeNextYear(y);
      MonthsFillYear(y);
    }
  }

  /** Adding to a number adds to its remainder modulo 7. */
  lemma ModSevenAdd(a: int, b: int)
    ensures (a + b) % 7 == (a % 7 + b) % 7
  {
    var q := a / 7;
    assert a == 7 * q + a % 7;
    assert a + b == 7 * q + (a % 7 + b);
  }

  /** The weekday grid of one month continues that of the previous month. */
  lemma FirstDayOfNextMonth(y: int, m: Month)
    ensures FirstDayOfMonth(NextMonth(y, m).0, NextMonth(y, m).1)
         == (FirstDayOfMonth(y, m) + DaysInMonth(y, m)) % 7
  {
    var next := NextMonth(y, m);
    var n := DayNumber(CivilDate(y, m, 1));
    var len := DaysInMonth(y, m);
    NextMonthStart(y, m);
    assert DayNumber(CivilDate(next.0, next.1, 1)) == n + len;
    ModSevenAdd(n + 4, len);
  }

  /** Day numbers of the days of one month are consecutive and stay below
      the start of the next month. */
  lemma DayNumberWithinMonth(c: CivilDate)
    requires ValidDate(c)
    ensures DayNumber(CivilDate(c.year, c.month, 1)) <= DayNumber(c)
    ensures DayNumber(c) < DayNumber(CivilDate(NextMonth(c.year, c.month).0, NextMonth(c.year, c.month).1, 1))
  {
    NextMonthStart(c.year, c.month);
  }

  /** Month starts grow strictly with the month index. */
  lemma {:induction false} MonthStartMonotone(y1: int, m1: Month, y2: int, m2: Month)
    requires MonthIndex(y1, m1) < MonthIndex(y2, m2)
    ensures DayNumber(CivilDate(y1, m1, 1)) < DayNumber(CivilDate(y2, m2, 1))
    decreases MonthIndex(y2, m2) - MonthIndex(y1, m1)
  {
    var next := NextMonth(y1, m1);
    NextMonthStart(y1, m1);
    if MonthIndex(next.0, next.1) < MonthIndex(y2, m2) {
      MonthStartMonotone(next.0, next.1, y2, m2);
    } else {
      assert next.0 == y2 && next.1 == m2;
    }
  }

  /** A valid date lies before the start of every later month. */
  lemma BeforeLaterMonth(a: CivilDate, y: int, m: Month)
    requires ValidDate(a)
    requires MonthIndex(a.year, a.month) < MonthIndex(y, m)
    ensures DayNumber(a) < DayNumber(CivilDate(y, m, 1))
  {
    var next := NextMonth(a.year, a.month);
    DayNumberWithinMonth(a);
    if MonthIndex(next.0, next.1) < MonthIndex(y, m) {
      MonthStartMonotone(next.0, next.1, y, m);
    } else {
      assert next.0 == y && next.1 == m;
    }
  }

  /** Distinct valid dates have distinct day numbers, so comparing day
      numbers is comparing calendar dates (`toDateString` equality). */
  lemma DayNumberInjective(a: CivilDate, b: CivilDate)
    requires ValidDate(a) && ValidDate(b)
    requires DayNumber(a) == DayNumber(b)
    ensures a == b
  {
    if MonthIndex(a.year, a.month) < MonthIndex(b.year, b.month) {
      BeforeLaterMonth(a, b.year, b.month);
      DayNumberWithinMonth(b);
      assert false;
    } else if MonthIndex(b.year, b.month) < MonthIndex(a.year, a.month) {
      BeforeLaterMonth(b, a.year, a.month);
      DayNumberWithinMonth(a);
      assert false;
    } else {
      assert a.year == b.year && a.month == b.month;
    }
  }

  /** `new Date(y, m, d)` for a day 1..31 of month (y, m): a day past the
      end of the month overflows into the following month. */
  function Normalize(y: int, m: Month, d: int): (r: CivilDate)
    requires 1 <= d <= 31
    ensures ValidDate(r)
    ensures DayNumber(r) == DayNumber(CivilDate(y, m, 1)) + d - 1
  {
    if d <= DaysInMonth(y, m) then CivilDate(y, m, d)
    else
      var next := NextMonth(y, m);
      NextMonthStart(y, m);
      CivilDate(next.0, next.1, d - DaysInMonth(y, m))
  }

  /** Calendar day (day number) of a parsed instant, if it parsed. */
  function DayOf(t: Option<int>): (r: Option<int>)
    ensures r.Some? <==> t.Some?
    ensures r.Some? ==> r.value * MsPerDay <= t.value < (r.value + 1) * MsPerDay
  {
    if t.Some? then Some(t.value / MsPerDay) else None
  }
}

/**
 * The calendar page (`Calendar.tsx`): the month grid with one cell per day,
 * each marked as today, coloured by that day's stats record, or greyed as
 * missed; and the month navigation. The displayed month comes from a view
 * date; "today" is a calendar date and `now` the current local instant in
 * milliseconds, both parameters.
 */
module CalendarView {
  import opened Common
  import opened Types
  import opened CivilCalendar

  datatype Colour = Green | Amber | Orange | Red | Grey

  /** `getCompletionColor`: one of five bands by completion rate. */
  function CompletionColour(rate: int): (r: Colour)
    ensures r == Green <==> rate >= 90
    ensures r == Amber <==> 70 <= rate < 90
    ensures r == Orange <==> 50 <= rate < 70
    ensures r == Red <==> 0 < rate < 50
    ensures r == Grey <==> rate <= 0
  {
    if rate >= 90 then Green
    else if rate >= 70 then Amber
    else if rate >= 50 then Orange
    else if rate > 0 then Red
    else Grey
  }

  /** A record falls on day number `day` when its date parses to an
      instant of that local calendar day (`toDateString` equality; an
      unparsable date matches no day). */
  predicate OnDay(s: DailyStats, parse: Parser, day: int) {
    DayOf(parse(s.date)) == Some(day)
  }

  /** `getStatsForDate`: the first record, in stored order, on the given
      day of the displayed month. A day outside the month denotes the date
      `new Date(year, month, day)` overflows to. */
  function StatsForDate(stats: seq<DailyStats>, parse: Parser, year: int, month: Month, day: int): (r: Option<DailyStats>)
    ensures r.None? <==> forall i :: 0 <= i < |stats| ==> !OnDay(stats[i], parse, DayNumber(CivilDate(year, month, day)))
    ensures forall i :: 0 <= i < |stats| && OnDay(stats[i], parse, DayNumber(CivilDate(year, month, day)))
                        && (forall j :: 0 <= j < i ==> !OnDay(stats[j], parse, DayNumber(CivilDate(year, month, day))))
                        ==> r == Some(stats[i])
  {
    FindFirst(stats, (s: DailyStats) => OnDay(s, parse, DayNumber(CivilDate(year, month, day))))
  }

  /** A grid cell: padding before the first of the month, or a day. */
  datatype Cell = Blank | DayCell(day: int, isToday: bool, stats: Option<DailyStats>, missed: bool)

  /** The cell for `day` of the displayed month. It is today's cell when
      the displayed month is today's and the day number matches; it shows
      the day's record if there is one; it is greyed as missed when its
      midnight is earlier than `now` and there is no record. */
  function DayCellFor(year: int, month: Month, day: int, stats: seq<DailyStats>, parse: Parser,
                      today: CivilDate, now: int): (r: Cell)
    ensures r.DayCell? && r.day == day
  {
    var isCurrentMonth := month == today.month && year == today.year;
    var dayStats := StatsForDate(stats, parse, year, month, day);
    var isPast := DayNumber(CivilDate(year, month, day)) * MsPerDay < now;
    DayCell(day, isCurrentMonth && day == today.day, dayStats, isPast && dayStats.None?)
  }

  /** A day cell is today's exactly when the displayed month is today's
      and the day matches; it is greyed as missed exactly when it has no
      record and its midnight is earlier than `now`. */
  lemma DayCellMarks(year: int, month: Month, day: int, stats: seq<DailyStats>, parse: Parser,
                     today: CivilDate, now: int)
    ensures var c := DayCellFor(year, month, day, stats, parse, today, now);
            (c.isToday <==> year == today.year && month == today.month && day == today.day)
            && (c.missed <==> c.stats.None? && DayNumber(CivilDate(year, month, day)) * MsPerDay < now)
  {
  }

  /** A day cell shows the first record on its day, and none exactly when
      no record falls on it. */
  lemma DayCellStats(year: int, month: Month, day: int, stats: seq<DailyStats>, parse: Parser,
                     today: CivilDate, now: int)
    ensures var c := DayCellFor(year, month, day, stats, parse, today, now);
            c.stats == StatsForDate(stats, parse, year, month, day)
            && (c.stats.None? <==> forall i :: 0 <= i < |stats| ==> !OnDay(stats[i], parse, DayNumber(CivilDate(year, month, day))))
            && (c.stats.Some? ==> c.stats.value in stats && OnDay(c.stats.value, parse, DayNumber(CivilDate(year, month, day))))
  {
  }

  /** The cell builder of the displayed month, as one value: day `d` gets `DayCellFor` of `d`. */
  function DayCells(year: int, month: Month, stats: seq<DailyStats>, parse: Parser,
                    today: CivilDate, now: int): int -> Cell {
    (day: int) => DayCellFor(year, month, day, stats, parse, today, now)
  }

  /** The grid layout: `firstDay` blank cells, then one cell per day of
      the month, numbered from 1. */
  ghost predicate IsGrid(cells: seq<Cell>, year: int, month: Month, stats: seq<DailyStats>, parse: Parser,
                         today: CivilDate, now: int) {
    var first := FirstDayOfMonth(year, month);
    |cells| == first + DaysInMonth(year, month)
    && (forall i :: 0 <= i < first ==> cells[i] == Blank)
    && (forall i :: first <= i < |cells| ==> cells[i] == DayCells(year, month, stats, parse, today, now)(i - first + 1))
  }

  /** Builds the month grid with the two loops of the component. */
  method BuildGrid(year: int, month: Month, stats: seq<DailyStats>, parse: Parser, today: CivilDate, now: int)
    returns (cells: seq<Cell>)
    ensures IsGrid(cells, year, month, stats, parse, today, now)
  {
    var firstDay := FirstDayOfMonth(year, month);
    var blanks := Blanks(firstDay);
    cells := AppendDays(blanks, DaysInMonth(year, month), DayCells(year, month, stats, parse, today, now));
  }

  /** The padding: `count` blank cells. */
  method Blanks(count: nat) returns (cells: seq<Cell>)
    ensures |cells| == count
    ensures forall k :: 0 <= k < |cells| ==> cells[k] == Blank
  {
    cells := [];
    for i := 0 to count
      invariant |cells| == i
      invariant forall k :: 0 <= k < i ==> cells[k] == Blank
    {
      cells := cells + [Blank];
    }
  }

  /** Appends the cells for days 1 to `daysInMonth`, each built by
      `cellOf`. */
  method AppendDays(blanks: seq<Cell>, daysInMonth: nat, cellOf: int -> Cell) returns (cells: seq<Cell>)
    ensures |cells| == |blanks| + daysInMonth
    ensures forall k :: 0 <= k < |blanks| ==> cells[k] == blanks[k]
    ensures forall k :: |blanks| <= k < |cells| ==> cells[k] == cellOf(k - |blanks| + 1)
  {
    var first := |blanks|;
    cells := blanks;
    for day := 1 to daysInMonth + 1
      invariant |cells| == first + day - 1
      invariant forall k :: 0 <= k < first ==> cells[k] == blanks[k]
      invariant forall k :: first <= k < |cells| ==> cells[k] == cellOf(k - first + 1)
    {
      cells := cells + [cellOf(day)];
    }
  }

  /** The grid starts with fewer than seven blanks, and every other cell
      is a day of the month, numbered 1 to the month's length in order. */
  lemma GridShape(cells: seq<Cell>, year: int, month: Month, stats: seq<DailyStats>, parse: Parser,
                  today: CivilDate, now: int)
    requires IsGrid(cells, year, month, stats, parse, today, now)
    ensures 0 <= FirstDayOfMonth(year, month) <= 6
    ensures forall i :: 0 <= i < |cells| ==> (cells[i].Blank? <==> i < FirstDayOfMonth(year, month))
    ensures forall i :: 0 <= i < |cells| && cells[i].DayCell? ==>
              cells[i].day == i - FirstDayOfMonth(year, month) + 1 && 1 <= cells[i].day <= DaysInMonth(year, month)
  {
  }

  /** `now` lies within the calendar day `today`. */
  predicate NowIsToday(today: CivilDate, now: int) {
    ValidDate(today) && DayNumber(today) * MsPerDay <= now < (DayNumber(today) + 1) * MsPerDay
  }

  /** At most one cell is today's, and only when the displayed month is
      the current one; when it is, today's cell is the one for today's
      day of the month. */
  lemma AtMostOneToday(cells: seq<Cell>, year: int, month: Month, stats: seq<DailyStats>, parse: Parser,
                       today: CivilDate, now: int)
    requires IsGrid(cells, year, month, stats, parse, today, now)
    ensures forall i, j :: 0 <= i < j < |cells| && cells[i].DayCell? && cells[j].DayCell? ==>
              !(cells[i].isToday && cells[j].isToday)
    ensures forall i :: 0 <= i < |cells| && cells[i].DayCell? && cells[i].isToday ==>
              year == today.year && month == today.month && i == FirstDayOfMonth(year, month) + today.day - 1
  {
  }

  /** The grey "missed" marker appears only on days up to today that have
      no record: on every earlier day without a record, and on today itself
      once its first millisecond has passed. */
  lemma MissedOnlyUpToToday(year: int, month: Month, day: int, stats: seq<DailyStats>, parse: Parser,
                            today: CivilDate, now: int)
    requires NowIsToday(today, now)
    ensures var c := DayCellFor(year, month, day, stats, parse, today, now);
            var n := DayNumber(CivilDate(year, month, day));
            (c.missed ==> c.stats.None? && n <= DayNumber(today))
            && (c.stats.None? && n < DayNumber(today) ==> c.missed)
            && (n == DayNumber(today) ==> (c.missed <==> c.stats.None? && now > n * MsPerDay))
  {
    var n := DayNumber(CivilDate(year, month, day));
    var t := DayNumber(today);
    MulMonotone(MsPerDay, n, t);
    MulMonotone(MsPerDay, t + 1, n);
  }

  /** For a real day of the displayed month, being today's cell is the
      same as falling on today's day number. */
  lemma TodayByDayNumber(year: int, month: Month, day: int, stats: seq<DailyStats>, parse: Parser,
                         today: CivilDate, now: int)
    requires ValidDate(today) && ValidDate(CivilDate(year, month, day))
    ensures DayCellFor(year, month, day, stats, parse, today, now).isToday
            <==> DayNumber(CivilDate(year, month, day)) == DayNumber(today)
  {
    if DayNumber(CivilDate(year, month, day)) == DayNumber(today) {
      DayNumberInjective(CivilDate(year, month, day), today);
    }
  }

  /** October 2026 starts on a Thursday, so its grid has four blanks. */
  lemma October2026StartsThursday()
    ensures FirstDayOfMonth(2026, 9) == 4
  {
  }

  // ---------------------------------------------------------------------
  // Month navigation
  // ---------------------------------------------------------------------

  datatype Direction = Prev | Next

  /** The month the arrow asks for: the one before or after the view's. */
  function TargetMonth(view: CivilDate, dir: Direction): (r: (int, Month))
    ensures dir == Next ==> MonthIndex(r.0, r.1) == MonthIndex(view.year, view.month) + 1
    ensures dir == Prev ==> MonthIndex(r.0, r.1) == MonthIndex(view.year, view.month) - 1
  {
    if dir == Next then NextMonth(view.year, view.month) else PrevMonth(view.year, view.month)
  }

  /** `navigateMonth` as written: `setMonth(getMonth() ± 1)` keeps the
      day of the month, so a day the target month lacks overflows into
      the month after it. */
  function NavigateAsWritten(view: CivilDate, dir: Direction): (r: CivilDate)
    requires ValidDate(view)
    ensures ValidDate(r)
    ensures DayNumber(r) == DayNumber(CivilDate(TargetMonth(view, dir).0, TargetMonth(view, dir).1, 1)) + view.day - 1
  {
    var target := TargetMonth(view, dir);
    Normalize(target.0, target.1, view.day)
  }

  /** From 31 October 2026, "next" shows December: November is skipped. */
  lemma NavigateAsWrittenSkipsNovember()
    ensures NavigateAsWritten(CivilDate(2026, 9, 31), Next) == CivilDate(2026, 11, 1)
    ensures MonthIndex(2026, 11) == MonthIndex(2026, 9) + 2
  {
    assert TargetMonth(CivilDate(2026, 9, 31), Next) == (2026, 10);
    assert DaysInMonth(2026, 10) == 30;
    assert Normalize(2026, 10, 31) == CivilDate(2026, 11, 1);
  }

  /** From 31 March 2026, "previous" stays in March (on the 3rd). */
  lemma NavigateAsWrittenStaysInMarch()
    ensures NavigateAsWritten(CivilDate(2026, 2, 31), Prev) == CivilDate(2026, 2, 3)
  {
    assert TargetMonth(CivilDate(2026, 2, 31), Prev) == (2026, 1);
    assert !IsLeapYear(2026);
    assert DaysInMonth(2026, 1) == 28;
    assert Normalize(2026, 1, 31) == CivilDate(2026, 2, 3);
  }

  /** The as-written navigation reaches the target month exactly when the
      view's day exists in it. */
  lemma NavigateAsWrittenReachesTargetIff(view: CivilDate, dir: Direction)
    requires ValidDate(view)
    ensures var r := NavigateAsWritten(view, dir);
            var target := TargetMonth(view, dir);
            (r.year == target.0 && r.month == target.1) <==> view.day <= DaysInMonth(target.0, target.1)
  {
    var target := TargetMonth(view, dir);
    var r := NavigateAsWritten(view, dir);
    if view.day > DaysInMonth(target.0, target.1) {
      var next := NextMonth(target.0, target.1);
      assert r == CivilDate(next.0, next.1, view.day - DaysInMonth(target.0, target.1));
    }
  }

  /** Month navigation that moves exactly one month: the day is clamped to
      the length of the target month. */
  function NavigateMonth(view: CivilDate, dir: Direction): (r: CivilDate)
    requires ValidDate(view)
    ensures ValidDate(r)
    ensures dir == Next ==> MonthIndex(r.year, r.month) == MonthIndex(view.year, view.month) + 1
    ensures dir == Prev ==> MonthIndex(r.year, r.month) == MonthIndex(view.year, view.month) - 1
    ensures r.day <= view.day
    ensures r.day == view.day <==> view.day <= DaysInMonth(r.year, r.month)
  {
    var target := TargetMonth(view, dir);
    var length := DaysInMonth(target.0, target.1);
    CivilDate(target.0, target.1, if view.day <= length then view.day else length)
  }

  /** Where the as-written navigation stays in the target month, the
      corrected one agrees with it. */
  lemma NavigateAgreesWhenDayFits(view: CivilDate, dir: Direction)
    requires ValidDate(view)
    requires view.day <= DaysInMonth(TargetMonth(view, dir).0, TargetMonth(view, dir).1)
    ensures NavigateMonth(view, dir) == NavigateAsWritten(view, dir)
  {
  }

  /** "Next" then "previous" returns to the month of the view. */
  lemma NavigateThereAndBack(view: CivilDate)
    requires ValidDate(view)
    ensures var back := NavigateMonth(NavigateMonth(view, Next), Prev);
            back.year == view.year && back.month == view.month
  {
    var there := NavigateMonth(view, Next);
    var back := NavigateMonth(there, Prev);
    assert MonthIndex(back.year, back.month) == MonthIndex(view.year, view.month);
  }
}

/**
 * The stats store (`useStats.ts`): one record per derived snapshot, keyed
 * by the exact `date` string of the record, with the weekly and monthly
 * windows the statistics page reads. Reading and writing local storage is
 * replaced by a load from an already-parsed value; each operation returns
 * the list that would be persisted.
 */
module StatsStore {
  import opened Common
  import opened Types
  import opened CivilCalendar

  /** No two records carry the same date string. */
  ghost predicate DistinctDates(stats: seq<DailyStats>) {
    forall i, j :: 0 <= i < j < |stats| ==> stats[i].date != stats[j].date
  }

  /** The initial list: the saved records when a save exists and parses,
      otherwise the empty list the hook starts with. */
  function LoadStats(saved: Option<seq<DailyStats>>): (r: seq<DailyStats>)
    ensures saved.None? ==> r == []
    ensures saved.Some? ==> r == saved.value
  {
    saved.GetOr([])
  }

  /** `prev.map(s => s.date === d.date ? d : s)`: every record with the
      new record's date string becomes the new record. */
  function ReplaceDate(stats: seq<DailyStats>, d: DailyStats): (r: seq<DailyStats>)
    ensures |r| == |stats|
    ensures forall i :: 0 <= i < |stats| ==> r[i] == (if stats[i].date == d.date then d else stats[i])
  {
    seq(|stats|, i requires 0 <= i < |stats| => if stats[i].date == d.date then d else stats[i])
  }

  /** `addDailyStats`: when no record has the new record's date string the
      record is appended; otherwise every record with that exact string is
      replaced by it, in place. */
  function AddDailyStats(stats: seq<DailyStats>, d: DailyStats): (r: seq<DailyStats>)
    ensures (forall i :: 0 <= i < |stats| ==> stats[i].date != d.date) ==> r == stats + [d]
    ensures (exists i :: 0 <= i < |stats| && stats[i].date == d.date) ==>
              |r| == |stats| &&
              forall i :: 0 <= i < |stats| ==> r[i] == (if stats[i].date == d.date then d else stats[i])
    ensures d in r
  {
    var existing := FindFirst(stats, (s: DailyStats) => s.date == d.date);
    if existing.Some? then
      var k :| 0 <= k < |stats| && stats[k] == existing.value;
      assert ReplaceDate(stats, d)[k] == d;
      ReplaceDate(stats, d)
    else
      stats + [d]
  }

  /** An upsert adds at most one record. */
  lemma AddGrowsByAtMostOne(stats: seq<DailyStats>, d: DailyStats)
    ensures |stats| <= |AddDailyStats(stats, d)| <= |stats| + 1
  {
    if forall i :: 0 <= i < |stats| ==> stats[i].date != d.date {
      assert |AddDailyStats(stats, d)| == |stats| + 1;
    }
  }

  /** The upsert keeps date strings unique. */
  lemma AddKeepsDatesDistinct(stats: seq<DailyStats>, d: DailyStats)
    requires DistinctDates(stats)
    ensures DistinctDates(AddDailyStats(stats, d))
  {
  }

  /** A second upsert with the same date string overwrites the first, so
      adding the same record twice is adding it once. */
  lemma AddSameDateOverwrites(stats: seq<DailyStats>, d1: DailyStats, d2: DailyStats)
    requires d1.date == d2.date
    ensures AddDailyStats(AddDailyStats(stats, d1), d2) == AddDailyStats(stats, d2)
  {
    if forall i :: 0 <= i < |stats| ==> stats[i].date != d1.date {
      AppendedThenReplaced(stats, d1, d2);
    } else {
      ReplacedTwice(stats, d1, d2);
    }
  }

  lemma AppendedThenReplaced(stats: seq<DailyStats>, d1: DailyStats, d2: DailyStats)
    requires d1.date == d2.date
    requires forall i :: 0 <= i < |stats| ==> stats[i].date != d1.date
    ensures AddDailyStats(stats + [d1], d2) == stats + [d2]
  {
    var once := stats + [d1];
    assert once[|stats|] == d1;
    var twice := AddDailyStats(once, d2);
    assert forall i :: 0 <= i < |stats| ==> twice[i] == stats[i];
    assert twice == stats + [d2];
  }

  lemma ReplacedTwice(stats: seq<DailyStats>, d1: DailyStats, d2: DailyStats)
    requires d1.date == d2.date
    requires exists i :: 0 <= i < |stats| && stats[i].date == d1.date
    ensures AddDailyStats(AddDailyStats(stats, d1), d2) == AddDailyStats(stats, d2)
  {
    var k :| 0 <= k < |stats| && stats[k].date == d1.date;
    var once := ReplaceDate(stats, d1);
    assert AddDailyStats(stats, d1) == once;
    assert once[k] == d1;
    assert AddDailyStats(once, d2) == ReplaceDate(once, d2);
    assert AddDailyStats(stats, d2) == ReplaceDate(stats, d2);
    var twice, direct := ReplaceDate(once, d2), ReplaceDate(stats, d2);
    assert forall i :: 0 <= i < |stats| ==> twice[i] == direct[i];
  }

  /** Matching is on the whole string: two snapshots taken at different
      instants of the same day are both kept, whatever calendar day the two
      strings denote. */
  lemma TwoInstantsTwoRecords(stats: seq<DailyStats>, d1: DailyStats, d2: DailyStats)
    requires d1.date != d2.date
    requires forall i :: 0 <= i < |stats| ==> stats[i].date != d1.date && stats[i].date != d2.date
    ensures AddDailyStats(AddDailyStats(stats, d1), d2) == stats + [d1, d2]
  {
    assert stats + [d1] + [d2] == stats + [d1, d2];
  }

  /** A record belongs to the window starting at `cutoff` when its date
      parses to an instant at or after the cutoff; an unparsable date
      compares false. */
  predicate InWindow(s: DailyStats, parse: Parser, cutoff: int) {
    parse(s.date).Some? && parse(s.date).value >= cutoff
  }

  /** The records of the window, in stored order. */
  function Window(stats: seq<DailyStats>, parse: Parser, cutoff: int): (r: seq<DailyStats>)
    ensures SubsequenceOf(r, stats)
    ensures forall i :: 0 <= i < |r| ==> InWindow(r[i], parse, cutoff)
    ensures forall i :: 0 <= i < |stats| && InWindow(stats[i], parse, cutoff) ==> stats[i] in r
    ensures forall s :: multiset(r)[s] == if InWindow(s, parse, cutoff) then multiset(stats)[s] else 0
  {
    FilterMultiset(stats, (s: DailyStats) => InWindow(s, parse, cutoff));
    Filter(stats, (s: DailyStats) => InWindow(s, parse, cutoff))
  }

  /** A later cutoff selects a sub-window of an earlier one. */
  lemma LaterCutoffNarrows(stats: seq<DailyStats>, parse: Parser, early: int, late: int)
    requires early <= late
    ensures Window(Window(stats, parse, early), parse, late) == Window(stats, parse, late)
    ensures SubsequenceOf(Window(stats, parse, late), Window(stats, parse, early))
  {
    FilterNarrow(stats, (s: DailyStats) => InWindow(s, parse, early), (s: DailyStats) => InWindow(s, parse, late));
  }

  /** `getWeeklyStats`: the window starting seven days before `now` (local
      milliseconds, same time of day). */
  function WeeklyStats(stats: seq<DailyStats>, parse: Parser, now: int): (r: seq<DailyStats>)
    ensures SubsequenceOf(r, stats)
    ensures forall i :: 0 <= i < |stats| ==>
              (stats[i] in r <==> parse(stats[i].date).Some? && parse(stats[i].date).value >= now - 7 * MsPerDay)
    ensures forall s :: multiset(r)[s] == if parse(s.date).Some? && parse(s.date).value >= now - 7 * MsPerDay
                                          then multiset(stats)[s] else 0
  {
    Window(stats, parse, now - 7 * MsPerDay)
  }

  /** `getMonthlyStats`: the window starting at `oneMonthAgo`, the instant
      one calendar month before now. */
  function MonthlyStats(stats: seq<DailyStats>, parse: Parser, oneMonthAgo: int): (r: seq<DailyStats>)
    ensures SubsequenceOf(r, stats)
    ensures forall i :: 0 <= i < |stats| ==>
              (stats[i] in r <==> parse(stats[i].date).Some? && parse(stats[i].date).value >= oneMonthAgo)
    ensures forall s :: multiset(r)[s] == if parse(s.date).Some? && parse(s.date).value >= oneMonthAgo
                                          then multiset(stats)[s] else 0
  {
    Window(stats, parse, oneMonthAgo)
  }

  /** Whenever the month cutoff is not later than the week cutoff, the
      weekly records are a sub-window of the monthly ones. */
  lemma WeekWithinMonth(stats: seq<DailyStats>, parse: Parser, now: int, oneMonthAgo: int)
    requires oneMonthAgo <= now - 7 * MsPerDay
    ensures SubsequenceOf(WeeklyStats(stats, parse, now), MonthlyStats(stats, parse, oneMonthAgo))
  {
    LaterCutoffNarrows(stats, parse, oneMonthAgo, now - 7 * MsPerDay);
  }
}

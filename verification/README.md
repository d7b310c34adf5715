# DailyTracker core, modelled in Dafny

DailyTracker is a single-page daily-habit tracker. It keeps a fixed
checklist of eleven tasks, which is meant to start afresh each new day. As
written, a restart on a new day restores yesterday's ticks (see Findings).
The dashboard writes a statistics snapshot, keyed by the current instant,
from an effect that depends on the task list. As written, the same effect
also re-runs after each of its own writes (see Findings). A statistics page
shows averages, totals and streaks, and a calendar page colours each day by
its record. The journal page offers a new entry only while no entry is
dated today; the journal store itself accepts any number of entries per
day. A settings record holds user preferences. Everything is kept in
browser local storage.

This project models the stores and the pure derivations behind those pages
as immutable Dafny datatypes and functions, and proves what they promise.

| file | module | models |
|---|---|---|
| `common.dfy` | `Common` | `Option`, `Array.prototype.filter` / `find` / `reduce` over sequences, `Math.round(p/q)` |
| `types.dfy` | `Types` | the record shapes of `src/types/index.ts` |
| `civil_calendar.dfy` | `CivilCalendar` | Gregorian calendar arithmetic as `Date` does it: month lengths, weekdays, day numbers, day-of-month overflow |
| `daily_tasks.dfy` | `DailyTasks` | `useDailyTasks`: catalog, new-day rollover, overlay of the saved list, toggle, data update, count and percentage |
| `derivation.dfy` | `Derivation` | the distance / duration / calories totals shared by `App.tsx` and `DailySummary.tsx` |
| `dashboard.dfy` | `Dashboard` | the daily-stats record the dashboard emits, the effect that writes it, the greeting and the motivational message |
| `daily_summary.dfy` | `DailySummary` | the completed-task list and the per-task detail shown on the summary card |
| `stats_store.dfy` | `StatsStore` | `useStats`: load, the upsert by date string, the weekly and monthly windows |
| `statistics.dfy` | `Statistics` | `Statistics.tsx`: rounded average, monthly totals, hours, rate dot |
| `streaks.dfy` | `Streaks` | `Statistics.tsx`: sorting by timestamp, current and longest streak |
| `calendar_view.dfy` | `CalendarView` | `Calendar.tsx`: colour bands, stats lookup by day, the month grid, month navigation |
| `journal_store.dfy` | `JournalStore` | `useJournal`: load, add, update, delete, today's entry |
| `journal_form.dfy` | `JournalForm` | `Journal.tsx`: `trim`, the save guard, highlight edits, button visibility |
| `settings_store.dfy` | `SettingsStore` | `useSettings`: defaults, load-merge, update |

Conventions of the model:

- **Storage.** Reading a storage slot and `JSON.parse` become an
  `Option` of already-parsed records. `None` stands for an absent or
  malformed slot. What is persisted is the state an operation returns.
- **Time.** Every clock reading is a parameter: `today`, `now` and the
  cutoffs.
  - A date string is read through a parameter `parse: string -> Option<int>`.
    It gives local-time milliseconds, and `None` stands for an Invalid Date.
  - The local calendar day of an instant is `ms / 86400000`.
    `toDateString` equality is equality of that day number.
  - Calendar dates are counted from 1970-01-01 (day 0, a Thursday), so
    `getDay` is `(n + 4) % 7`.
- **Numbers.** Numbers are unbounded integers, except distance, which is a
  `real`. `Math.round(p / q)` for positive `q` is modelled exactly as
  `(2p + q) div 2q`, which rounds half up like `Math.round`.
- **Shared totals.** The dashboard effect and the daily summary card
  compute the distance, duration and calories totals with identical code
  (`src/App.tsx:26-31`, `src/components/DailySummary.tsx:11-16`). Both are
  the `Derivation` functions, so the two places agree by construction.
- **Session start.** The React effects of a session start become an
  explicit sequence of calls.
- **Calendar "missed" marker.** The calendar greys a day as "missed"
  when it has no record and its local midnight is earlier than `now`. That
  includes today's own cell as soon as the day has begun
  (`CalendarView.MissedOnlyUpToToday` states both halves).

## Model

| member | source | states |
|---|---|---|
| `Common.FilterMultiset` | src/hooks/useJournal.ts:41 | `filter` keeps each passing value exactly as often as it occurs, and drops every failing one |
| `Common.FilterCount` | src/hooks/useDailyTasks.tsx:171 | the length of a filtered list is the number of positions whose element passes |
| `Common.RoundDiv` | src/components/Statistics.tsx:14 | `Math.round(p/q)`: the result is the integer nearest `p/q`, with halves rounded up (`q(2r-1) <= 2p < q(2r+1)`) |
| `CivilCalendar.DaysInMonth` | src/components/Calendar.tsx:9-11 | a month has 28 to 31 days; February has 29 exactly in leap years; only February has fewer than 30 |
| `CivilCalendar.FirstDayOfMonth` | src/components/Calendar.tsx:13-15 | the weekday of the first of a month is in 0..6 |
| `CivilCalendar.FirstDayOfNextMonth` | src/components/Calendar.tsx:13-15 | the next month starts on this month's first weekday advanced by this month's length, mod 7 |
| `CivilCalendar.NextMonthStart` | src/components/Calendar.tsx:9-11 | the next month's first day number is this month's first plus the month's length |
| `CivilCalendar.DayNumberInjective` | src/components/Calendar.tsx:30-31 | two valid dates with the same day number are the same date, so comparing `toDateString` values compares dates |
| `CivilCalendar.Normalize` | src/components/Calendar.tsx:30 | `new Date(y, m, d)` gives a valid date `d - 1` days after the first of month `m`, overflowing into the next month |
| `CivilCalendar.DayOf` | src/hooks/useJournal.ts:45-46 | the calendar day of an instant is the day whose 24 hours contain it; an unparsable date has none |
| `DailyTasks.Catalog` | src/hooks/useDailyTasks.tsx:9-107 | the initial checklist has eleven tasks |
| `DailyTasks.CatalogIdsDistinct` | src/hooks/useDailyTasks.tsx:9-107 | the eleven catalog ids are pairwise distinct |
| `DailyTasks.CatalogStartsReset` | src/hooks/useDailyTasks.tsx:9-107 | every catalog task starts uncompleted. Exercise tasks start with distance 0 and duration 0, the one calories task (index 6) with calories 0, simple tasks with no data |
| `DailyTasks.ResetTask` | src/hooks/useDailyTasks.tsx:117-122 | a reset task keeps id, title, description, time target and kind. It is uncompleted; exercise data becomes {0, 0} and calories data {calories 0}; a simple task's data is untouched |
| `DailyTasks.Rollover` | src/hooks/useDailyTasks.tsx:110-129 | if the stored marker is today, nothing changes. Otherwise every task is reset. In both cases the marker becomes today, and length, order and identity fields are kept |
| `DailyTasks.RolloverIdempotent` | src/hooks/useDailyTasks.tsx:115-124 | a second rollover on the same day changes nothing |
| `DailyTasks.ResetTwice` | src/hooks/useDailyTasks.tsx:116-122 | resetting an already reset list gives the same list |
| `DailyTasks.RolloverOfCatalog` | src/hooks/useDailyTasks.tsx:9-129 | a rollover of the freshly built catalog leaves it as it is |
| `DailyTasks.Overlay` | src/hooks/useDailyTasks.tsx:132-147 | each task matched by id takes the first matching saved entry's `completed` and `data` verbatim. Unmatched tasks and an unparsable save change nothing. Order and identity fields are kept |
| `DailyTasks.OverlayIgnoresUnknown` | src/hooks/useDailyTasks.tsx:137-141 | a saved entry with an id no task carries contributes nothing, wherever it sits |
| `DailyTasks.OverlayRoundTrip` | src/hooks/useDailyTasks.tsx:132-153 | saving any reachable task list and loading it over the catalog restores that list |
| `DailyTasks.StartupAsWritten` | src/hooks/useDailyTasks.tsx:110-147 | session start in source order (rollover of the fresh catalog, then overlay): the marker becomes today and the catalog's shape is kept |
| `DailyTasks.StartupAsWrittenIgnoresMarker` | src/hooks/useDailyTasks.tsx:110-147 | as written, session start is the overlay of the save on the catalog, whatever the marker says |
| `DailyTasks.StartupAsWrittenKeepsYesterday` | src/hooks/useDailyTasks.tsx:110-147 | a task completed yesterday is still completed after a start on a new day |
| `DailyTasks.Startup` | src/hooks/useDailyTasks.tsx:110-147 | corrected start (overlay, then rollover): the same day resumes the save; a new day has every task uncompleted and exercise data zeroed |
| `DailyTasks.Toggle` | src/hooks/useDailyTasks.tsx:155-161 | tasks with the id have `completed` flipped and everything else kept; all other tasks are unchanged |
| `DailyTasks.ToggleTwice` | src/hooks/useDailyTasks.tsx:155-161 | toggling the same id twice restores the list |
| `DailyTasks.ToggleUnknown` | src/hooks/useDailyTasks.tsx:155-161 | toggling an id no task carries changes nothing |
| `DailyTasks.MergeData` | src/hooks/useDailyTasks.tsx:166 | `{ ...data, ...patch }`: each key present in the patch wins; other keys keep their old value; absent old data counts as empty |
| `DailyTasks.MergeCompose` | src/hooks/useDailyTasks.tsx:166 | two merges in a row are one merge of the combined patch, later keys winning |
| `DailyTasks.MergeIdempotent` | src/hooks/useDailyTasks.tsx:166 | merging the same patch twice is merging it once |
| `DailyTasks.MergeEmpty` | src/hooks/useDailyTasks.tsx:166 | merging an empty patch into existing data keeps it |
| `DailyTasks.UpdateTaskData` | src/hooks/useDailyTasks.tsx:163-169 | tasks with the id get their data merged with the patch, everything else kept; all other tasks are unchanged |
| `DailyTasks.UpdateTwice` | src/hooks/useDailyTasks.tsx:163-169 | applying the same data update twice is applying it once |
| `DailyTasks.CompletedCount` | src/hooks/useDailyTasks.tsx:171 | the count is the number of positions holding a completed task; so it is 0 exactly when none is completed and the full length exactly when all are |
| `DailyTasks.CompletionPercentage` | src/hooks/useDailyTasks.tsx:172 | the percentage is `Math.round(100 * completed / total)`: `n(2r-1) <= 200c < n(2r+1)`. It lies in 0..100, and for fewer than 200 tasks it is 100 exactly when all are completed |
| `DailyTasks.PercentBounds` | src/hooks/useDailyTasks.tsx:172 | the rounding bounds of `round(100c/n)` with `c <= n` give 0..100, 100 for `c = n`, and below 100 for `c < n < 200` |
| `DailyTasks.ThreeOfEleven` | src/hooks/useDailyTasks.tsx:172 | three of the eleven tasks done shows 27% |
| `Derivation.TotalDistance` | src/App.tsx:26-29 | the distance sum over the completed exercise tasks equals the sum over all tasks of each completed exercise task's distance (0 when missing) |
| `Derivation.TotalDuration` | src/App.tsx:26-30 | the same for duration |
| `Derivation.TotalCalories` | src/App.tsx:27-31 | 0 without a calories task; otherwise the first calories task's calories (0 when missing), whether completed or not |
| `Derivation.ExerciseTotalsDependOnCompletedOnly` | src/App.tsx:26-30 | lists that agree on which tasks are completed exercise tasks, and on their data, have the same distance and duration totals |
| `Derivation.UncompletedDataIgnored` | src/App.tsx:26-30 | updating the data of uncompleted tasks leaves distance and duration unchanged |
| `Derivation.CaloriesIgnoreToggle` | src/App.tsx:27-31 | toggling any task leaves the calories total unchanged |
| `Dashboard.DailySnapshot` | src/App.tsx:25-44 | the emitted record carries `now`, the completion percentage (0..100), the completed count (at most the task count), the task count and the three totals |
| `Dashboard.EffectRuns` | src/App.tsx:25-44 | the effect after a task change runs at most once per render, so at most one record per render is added |
| `Dashboard.StatsAfterChangeAsWrittenGrows` | src/App.tsx:25-44 | as written (a new `addDailyStats` each render, src/hooks/useStats.ts:24-32), one task change adds one record per render, for any number of renders, when the clock readings are distinct |
| `Dashboard.StatsAfterChangeRecordsOnce` | src/App.tsx:25-44 | with a stable `addDailyStats`, one task change records exactly one snapshot, taken at the first render, and the list grows by at most one |
| `StatsStore.AddGrowsByAtMostOne` | src/hooks/useStats.ts:24-32 | an upsert never shrinks the list and adds at most one record |
| `Dashboard.GreetingFor` | src/App.tsx:46-51 | morning exactly before 12, afternoon exactly from 12 to before 17, evening exactly from 17 |
| `Dashboard.MotivationFor` | src/App.tsx:53-59 | five disjoint, exhaustive bands: exactly 100, 80..99, 50..79, 25..49, below 25 |
| `Dashboard.PerfectDayIffAllDone` | src/App.tsx:53-59 | the "perfect day" message shows exactly when every task is completed (fewer than 200 tasks) |
| `DailySummary.CompletedTasks` | src/components/DailySummary.tsx:18 | the completed tasks in their original order: a subsequence of the list, all completed, containing every completed task as often as it occurs, as many as the completed count |
| `DailySummary.ShowsCompletedSection` | src/components/DailySummary.tsx:53 | the "Completed Today" section shows exactly when some task is completed |
| `DailySummary.DetailFor` | src/components/DailySummary.tsx:61-70 | distance and duration are shown exactly for exercise tasks with that value above 0, the separator exactly when both are, calories exactly for the calories task with calories above 0; the values shown are the task's |
| `StatsStore.LoadStats` | src/hooks/useStats.ts:9-18 | an absent or unparsable save gives the empty list, otherwise the saved list |
| `StatsStore.ReplaceDate` | src/hooks/useStats.ts:28 | every record with the new record's date string becomes the new record; the others stay; the length is kept |
| `StatsStore.AddDailyStats` | src/hooks/useStats.ts:24-32 | a new date string is appended at the end; an existing one is replaced in place wherever it occurs, nothing else changing; the record is in the result |
| `StatsStore.AddKeepsDatesDistinct` | src/hooks/useStats.ts:24-32 | pairwise-distinct date strings stay pairwise distinct after an add |
| `StatsStore.AddSameDateOverwrites` | src/hooks/useStats.ts:24-32 | a second add with the same date string overwrites the first, so adding a record twice is adding it once |
| `StatsStore.AppendedThenReplaced` | src/hooks/useStats.ts:26-30 | a record appended under a new date and then overwritten leaves the list with only the overwriting record appended |
| `StatsStore.ReplacedTwice` | src/hooks/useStats.ts:26-28 | two in-place replacements under the same date string equal the last one |
| `StatsStore.TwoInstantsTwoRecords` | src/hooks/useStats.ts:26 | two distinct date strings, even on the same calendar day, give two records |
| `StatsStore.Window` | src/hooks/useStats.ts:38 | the records whose date parses to an instant at or after the cutoff, each as often as stored, in stored order |
| `StatsStore.LaterCutoffNarrows` | src/hooks/useStats.ts:34-46 | a later cutoff selects a subsequence of an earlier one's window, and filtering one window by the other is the later window |
| `StatsStore.WeeklyStats` | src/hooks/useStats.ts:34-39 | exactly the records at or after seven days before `now`, each as often as stored, in stored order |
| `StatsStore.MonthlyStats` | src/hooks/useStats.ts:41-46 | exactly the records at or after the one-month-ago cutoff, each as often as stored, in stored order |
| `StatsStore.WeekWithinMonth` | src/hooks/useStats.ts:34-46 | when the month cutoff is no later than the week cutoff, the weekly records are a subsequence of the monthly ones |
| `Statistics.Average` | src/components/Statistics.tsx:12-15 | 0 for no values, otherwise the integer nearest the mean, halves rounded up |
| `Statistics.SumBounds` | src/components/Statistics.tsx:14 | a sum of values between `lo` and `hi` lies between `n*lo` and `n*hi` |
| `Statistics.AverageBounds` | src/components/Statistics.tsx:12-15 | the rounded average of a non-empty list lies between its bounds |
| `Statistics.AverageOfRates` | src/components/Statistics.tsx:17-18 | the weekly and monthly averages of percentages lie in 0..100 |
| `Statistics.MonthlyTotals` | src/components/Statistics.tsx:20-22 | the totals of no records are zero; the duration and calories totals of non-negative records are non-negative |
| `Statistics.NonNegativeSum` | src/components/Statistics.tsx:21-22 | a sum of non-negative terms is non-negative |
| `Statistics.TotalsAppend` | src/components/Statistics.tsx:20-22 | one more record adds its fields to each of the three totals |
| `Statistics.HoursExercised` | src/components/Statistics.tsx:111 | the whole number of hours nearest the minutes total, halves rounded up; not negative for a non-negative total |
| `Statistics.RateDot` | src/components/Statistics.tsx:148-152 | four disjoint, exhaustive bands: at least 90, 70..89, 50..69, below 50 |
| `Streaks.Insert` | src/components/Statistics.tsx:30 | inserting keeps every element and adds one; the head is the new element or the old head |
| `Streaks.InsertSorted` | src/components/Statistics.tsx:30 | inserting into a sorted list keeps it sorted, and strictly sorted when keys are distinct |
| `Streaks.Sort` | src/components/Statistics.tsx:30 | the sorted copy is a permutation of the records in key order, strictly ordered when keys are distinct |
| `Streaks.InsertKeepsKeyOrder` | src/components/Statistics.tsx:30 | an inserted element goes before the elements of its own key and leaves the order of every key's elements alone |
| `Streaks.SortStable` | src/components/Statistics.tsx:30 | the sort is stable, as `Array.prototype.sort` must be: for every key, its records keep their stored order |
| `Streaks.NewestFirst` | src/components/Statistics.tsx:30 | the copy sorted newest first is a permutation of the records in descending time order |
| `Streaks.OldestFirst` | src/components/Statistics.tsx:47 | the copy sorted oldest first is a permutation of the records in ascending time order |
| `Streaks.StrictAscendingUnique` | src/components/Statistics.tsx:47 | two strictly ascending arrangements of the same records are equal |
| `Streaks.DescendingIsReversedAscending` | src/components/Statistics.tsx:27-61 | with distinct timestamps, the newest-first order is the oldest-first order reversed |
| `Streaks.CurrentStreak` | src/components/Statistics.tsx:27-42 | 0 for no records; otherwise the newest-first prefix of that length has rates of at least 80, and the next record, if any, does not |
| `Streaks.LongestStreak` | src/components/Statistics.tsx:44-61 | 0 for no records; otherwise the length of some run of rates of at least 80 in oldest-first order, and no such run is longer |
| `Streaks.RunEndingAt` | src/components/Statistics.tsx:51-57 | the running counter is at least the length of every qualifying run ending at the current record |
| `Streaks.StreaksBounded` | src/components/Statistics.tsx:27-61 | both streaks are at most the number of records |
| `Streaks.LongestCoversAllIff` | src/components/Statistics.tsx:44-61 | the longest streak equals the number of records exactly when every record has a rate of at least 80 |
| `Streaks.CurrentAtMostLongest` | src/components/Statistics.tsx:27-61 | with distinct timestamps, the current streak is at most the longest |
| `Streaks.PrefixRunIsSuffixRun` | src/components/Statistics.tsx:27-61 | a qualifying prefix of the reversed order is a qualifying suffix of the original |
| `CalendarView.CompletionColour` | src/components/Calendar.tsx:34-40 | five disjoint, exhaustive bands: at least 90, 70..89, 50..69, 1..49, 0 or less |
| `CalendarView.StatsForDate` | src/components/Calendar.tsx:29-32 | none exactly when no record falls on that day; otherwise the first record in stored order that does |
| `CalendarView.DayCellMarks` | src/components/Calendar.tsx:45-76 | a cell is today's exactly when year, month and day are today's; it is missed exactly when it has no record and its midnight is before `now` |
| `CalendarView.DayCellStats` | src/components/Calendar.tsx:56 | a cell shows the day's lookup: none exactly when no record falls on it, else a stored record on that day |
| `CalendarView.BuildGrid` | src/components/Calendar.tsx:47-81 | the grid is `firstDay` blanks followed by the cells of days 1 to the month's length |
| `CalendarView.Blanks` | src/components/Calendar.tsx:50-52 | exactly `count` blank cells |
| `CalendarView.AppendDays` | src/components/Calendar.tsx:55-81 | the given cells unchanged, then one cell per day 1 to the month length, built in order |
| `CalendarView.GridShape` | src/components/Calendar.tsx:42-81 | fewer than seven blanks, all at the front; every other cell is numbered from 1 to the month's length in order |
| `CalendarView.AtMostOneToday` | src/components/Calendar.tsx:44-57 | at most one cell is today's, only in today's month, at the position of today's day |
| `CalendarView.MissedOnlyUpToToday` | src/components/Calendar.tsx:58-76 | the missed marker appears only on record-less days up to today: on every earlier one, and on today once the day has begun |
| `CalendarView.TodayByDayNumber` | src/components/Calendar.tsx:57 | for a real date, being today's cell is falling on today's day number |
| `CalendarView.October2026StartsThursday` | src/components/Calendar.tsx:13-15 | October 2026 starts on a Thursday, so its grid has four blanks |
| `CalendarView.TargetMonth` | src/components/Calendar.tsx:17-27 | the arrow asks for the month one before or one after the view's |
| `CalendarView.NavigateAsWritten` | src/components/Calendar.tsx:17-27 | `setMonth(m ± 1)` keeps the day of the month, overflowing from the first of the target month |
| `CalendarView.NavigateAsWrittenSkipsNovember` | src/components/Calendar.tsx:23 | from 31 October 2026, "next" lands on 1 December, two months on |
| `CalendarView.NavigateAsWrittenStaysInMarch` | src/components/Calendar.tsx:21 | from 31 March 2026, "previous" lands on 3 March |
| `CalendarView.NavigateAsWrittenReachesTargetIff` | src/components/Calendar.tsx:17-27 | as written, navigation reaches the target month exactly when the view's day exists in it |
| `CalendarView.NavigateMonth` | src/components/Calendar.tsx:17-27 | corrected navigation moves exactly one month, clamping the day to the target month's length; the day is kept exactly when it fits |
| `CalendarView.NavigateAgreesWhenDayFits` | src/components/Calendar.tsx:17-27 | when the day fits, corrected and as-written navigation agree |
| `CalendarView.NavigateThereAndBack` | src/components/Calendar.tsx:17-27 | "next" then "previous" returns to the view's month |
| `JournalStore.LoadEntries` | src/hooks/useJournal.ts:9-18 | an absent or unparsable save gives no entries, otherwise the saved list |
| `JournalStore.AddEntry` | src/hooks/useJournal.ts:24-30 | the new entry with the fresh id and the given fields comes first, followed by the old list |
| `JournalStore.ApplyPatch` | src/hooks/useJournal.ts:35 | each field present in the patch replaces the entry's; the others stay |
| `JournalStore.UpdateEntry` | src/hooks/useJournal.ts:32-38 | every entry with the id is patched; the others, the length and the order stay |
| `JournalStore.UpdateUnknownId` | src/hooks/useJournal.ts:32-38 | an update for an id no entry carries changes nothing |
| `JournalStore.UpdateNoChanges` | src/hooks/useJournal.ts:32-38 | an empty patch changes nothing |
| `JournalStore.UpdateTwice` | src/hooks/useJournal.ts:32-38 | the same update twice is the update once, when the patch keeps the id |
| `JournalStore.UpdateRenamingIsNotRepeatable` | src/hooks/useJournal.ts:35 | a patch that changes the id puts the entry out of reach of a later update under the old id |
| `JournalStore.DeleteEntry` | src/hooks/useJournal.ts:40-42 | exactly the entries without the id remain, each as often as before, in order |
| `JournalStore.DeleteUnknownId` | src/hooks/useJournal.ts:40-42 | deleting an id no entry carries changes nothing |
| `JournalStore.DeleteIdempotent` | src/hooks/useJournal.ts:40-42 | deleting twice is deleting once |
| `JournalStore.DeleteAfterAdd` | src/hooks/useJournal.ts:24-42 | deleting the id just added also removes older entries that share it |
| `JournalStore.AddThenDelete` | src/hooks/useJournal.ts:24-42 | adding under an unused id and deleting that id restores the list |
| `JournalStore.TodayEntry` | src/hooks/useJournal.ts:44-47 | none exactly when no entry falls on today; otherwise the first entry in stored order that does |
| `JournalStore.AddedTodayIsTodayEntry` | src/hooks/useJournal.ts:24-47 | an entry just added with today's date is today's entry |
| `JournalForm.TrimStart` | src/components/Journal.tsx:19 | strips exactly the leading ECMAScript white space: what it drops is white space, and what it keeps does not start with white space |
| `JournalForm.TrimEnd` | src/components/Journal.tsx:19 | strips exactly the trailing ECMAScript white space |
| `JournalForm.LeadingWhitespace` | src/components/Journal.tsx:19 | the number of leading white-space characters: all before it are white space, the one at it is not |
| `JournalForm.Trim` | src/components/Journal.tsx:19 | `s.trim()` is the slice of `s` right after its leading white space, followed in `s` only by white space, and neither starting nor ending with white space |
| `JournalForm.TrimDetermined` | src/components/Journal.tsx:19 | any string with those properties is, character by character, the trimmed string |
| `JournalForm.TrimStartDropsLeading` | src/components/Journal.tsx:19 | stripping the front drops exactly the leading white space |
| `JournalForm.TrimEmptyIff` | src/components/Journal.tsx:19 | a string trims to empty exactly when it is all white space |
| `JournalForm.TrimStartAllWhitespace` | src/components/Journal.tsx:19 | a string of white space trims to nothing from the front |
| `JournalForm.KeptHighlights` | src/components/Journal.tsx:24 | exactly the highlights with non-blank text, each as often as typed, in order, stored untrimmed |
| `JournalForm.SaveEntry` | src/components/Journal.tsx:18-29 | blank content changes nothing. Otherwise the entry is added with `now` as its date and the kept highlights, the draft resets to ('', good, ['']), and the form closes |
| `JournalForm.SavedEntryShape` | src/components/Journal.tsx:18-29 | a saved entry holds the untrimmed content and only non-blank highlights, becomes today's entry, and hides the "New Entry" button |
| `JournalForm.AddHighlight` | src/components/Journal.tsx:40-42 | exactly one empty highlight is appended; content and mood stay |
| `JournalForm.UpdateHighlight` | src/components/Journal.tsx:44-49 | only the highlight at the index changes; the length stays |
| `JournalForm.RemoveHighlight` | src/components/Journal.tsx:51-56 | the highlight at the index is dropped and the others keep their order; an index outside the list changes nothing |
| `JournalForm.ApplyEdit` | src/components/Journal.tsx:129 | with removal offered only when more than one highlight exists, an edit never empties the list |
| `JournalForm.EditsKeepAHighlight` | src/components/Journal.tsx:129 | any sequence of page edits from a draft with a highlight leaves at least one |
| `JournalForm.NewEntryButtonIff` | src/components/Journal.tsx:66 | the "New Entry" button shows exactly when no entry falls on today |
| `SettingsStore.UpdateSettings` | src/hooks/useSettings.ts:31-33 | each field present in the update replaces the current one; absent fields keep their values |
| `SettingsStore.LoadSettings` | src/hooks/useSettings.ts:16-25 | no usable save gives the defaults ('07:00', notifications on, light, Monday); a save lays its present fields over the defaults |
| `SettingsStore.SaveLoadRoundTrip` | src/hooks/useSettings.ts:16-29 | saving settings and loading them back gives the same settings |
| `SettingsStore.UpdateNoChanges` | src/hooks/useSettings.ts:31-33 | an empty update changes nothing |
| `SettingsStore.UpdateIdempotent` | src/hooks/useSettings.ts:31-33 | the same update twice is the update once |
| `SettingsStore.UpdateCompose` | src/hooks/useSettings.ts:31-33 | two updates in a row are one update with the later fields winning |
| `SettingsStore.PartialSaveKeepsDefaults` | src/hooks/useSettings.ts:6-20 | a save holding only the theme loads with the default value for every other field |

## Left out

- Reading and writing `localStorage` and `JSON.parse` are not modelled; a load is an `Option` of parsed records (see above). The service worker, build configuration, swipe navigation and the purely presentational components (task card, stat card, quick actions, settings page) are not part of this model.
- React effect scheduling is modelled only for the dashboard's stats effect: a render re-runs it when its `addDailyStats` instance is new. Development-mode double invocation of effects is not modelled, and a session start is an explicit call sequence.
- JavaScript `Date` is reduced to integers. Time zones, daylight saving time and the special treatment of years 0-99 by `new Date(y, m, d)` are outside the model. The parse of date strings is a parameter.
- StatsStore.WeeklyStats: the cutoff is `now` minus seven 24-hour days in local milliseconds; `setDate(getDate() - 7)` across a daylight-saving change is not modelled.
- StatsStore.MonthlyStats: the one-month-ago cutoff is a parameter; `setMonth(getMonth() - 1)` with its day-of-month overflow is not computed.
- Streaks.CurrentStreak: sorting uses a total `time: string -> int`; an unparsable date (a `NaN` comparator in the source) is not modelled.
- Streaks.LongestStreak: as for `CurrentStreak`, the timestamp of every record is assumed to be a number.
- Streaks.Sort: its own contract gives the order and the permutation. Stability is stated separately by `Streaks.SortStable`: records with equal timestamps keep their stored order, as `Array.prototype.sort` guarantees.
- DailyTasks.CompletionPercentage: requires a non-empty list. The source divides by zero (`NaN`) for an empty one; the task list always has eleven entries.
- Dashboard.DailySnapshot: requires a non-empty task list, for the same reason.
- Floating point is not modelled: distance is a `real`, and other numbers are integers. `Math.round` is exact on rationals, so for 11 tasks (no half-way cases) it agrees with the source. `toFixed(1)` and `toLocaleString` are display formatting.
- Values outside a field's declared type (an unknown mood, theme or task type from a hand-edited save, a key explicitly set to `undefined`) are not modelled; saved records are well typed.
- Statistics.MonthlyTotals: its contract states the empty and non-negative cases. The rest is stated by `Statistics.TotalsAppend`, which gives the sum record by record.
- The mood and content setters and the edit/delete buttons of `Journal.tsx` are direct calls of `JournalStore.UpdateEntry` and `JournalStore.DeleteEntry` or single-field record updates; they have no logic beyond those.
- Icons, CSS classes and display strings are modelled as enum labels (`Colour`, `DotColour`, `Greeting`, `Motivation`).
- JournalStore.UpdateTwice: holds only when the patch keeps the id. `JournalStore.UpdateRenamingIsNotRepeatable` shows why.

## Findings

| source | as written | input that shows it | evidently intended | confidence | as-written member | corrected member |
|---|---|---|---|---|---|---|
| src/hooks/useDailyTasks.tsx:110-147 | The new-day reset is queued before the overlay of the saved list. It therefore resets the freshly built catalog, which is already reset, and the overlay then restores yesterday's saved `completed` and `data` | marker "Thu Oct 08 2026", today "Fri Oct 09 2026", save with the wake-up task completed: after start-up the wake-up task is still completed | on a new day, the checklist starts uncompleted with exercise and calorie data zeroed | high; not executed | `DailyTasks.StartupAsWritten` (`DailyTasks.StartupAsWrittenKeepsYesterday`) | `DailyTasks.Startup` |
| src/App.tsx:25-44 | The effect lists `addDailyStats` among its dependencies, but `useStats` creates a new `addDailyStats` on every render (src/hooks/useStats.ts:24). Each run updates the stats, which re-renders the app, which runs the effect again with a fresh `new Date().toISOString()`. The rendering never settles | one tick of the wake-up task; renders at distinct instants t0, t1, t2, ... append one snapshot each, so the stats list grows without end | one snapshot per change of the task list | high; not executed | `Dashboard.StatsAfterChangeAsWritten` (`Dashboard.StatsAfterChangeAsWrittenGrows`) | `Dashboard.StatsAfterChange` (`Dashboard.StatsAfterChangeRecordsOnce`) |
| src/components/Calendar.tsx:17-27 | `setMonth(getMonth() ± 1)` keeps the day of the month, so a day the target month lacks overflows: navigation skips or repeats a month | view 31 October 2026, "next": December 2026 is shown; view 31 March 2026, "previous": March is shown again | each arrow moves exactly one month | high; not executed | `CalendarView.NavigateAsWritten` (`CalendarView.NavigateAsWrittenSkipsNovember`, `CalendarView.NavigateAsWrittenStaysInMarch`) | `CalendarView.NavigateMonth` |

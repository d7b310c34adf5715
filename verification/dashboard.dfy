/**
 * The dashboard (`App.tsx`): the daily statistics record it derives from
 * the task list, the effect that hands that record to the stats store, and
 * the two banded messages it shows. The current time is a parameter.
 */
module Dashboard {
  import opened Types
  import opened DailyTasks
  import opened Derivation
  import opened StatsStore

  /** The stats record for the current task list, keyed by `now` (the ISO
      timestamp taken when the record is derived, not a calendar day). */
  function DailySnapshot(tasks: seq<DailyTask>, now: string): (r: DailyStats)
    requires |tasks| > 0
    ensures r.date == now
    ensures r.completionRate == CompletionPercentage(tasks) && 0 <= r.completionRate <= 100
    ensures r.tasksCompleted == CompletedCount(tasks) && 0 <= r.tasksCompleted <= r.totalTasks == |tasks|
    ensures r.totalDistance == TotalDistance(tasks)
    ensures r.totalDuration == TotalDuration(tasks)
    ensures r.totalCalories == TotalCalories(tasks)
  {
    DailyStats(now, CompletionPercentage(tasks), TotalDistance(tasks), TotalDuration(tasks),
               TotalCalories(tasks), CompletedCount(tasks), |tasks|)
  }

  // ---------------------------------------------------------------------
  // The effect that records the snapshot
  // ---------------------------------------------------------------------

  /** Which instance of the `addDailyStats` function the render with the
      given number sees. The effect runs again whenever the instance differs
      from the previous render's. */
  type Instances = nat -> nat

  /** As written, `useStats` builds a new `addDailyStats` on every render. */
  function FreshInstances(): Instances {
    (render: nat) => render
  }

  /** A memoised callback keeps one instance for the whole session. */
  function StableInstance(): Instances {
    (render: nat) => 0
  }

  /** The stats list after the renders that follow one change of the task
      list, from render `i` on; `instants[k]` is the clock reading of render
      `k`. The change itself makes render 0 run the effect. A later render
      runs it only when its `addDailyStats` instance is new. Each run
      records a snapshot, and the stats update causes the next render. A
      render that skips the effect updates nothing, so rendering stops. */
  function EffectRuns(tasks: seq<DailyTask>, stats: seq<DailyStats>, instants: seq<string>,
                      instances: Instances, i: nat): (r: seq<DailyStats>)
    requires |tasks| > 0 && i <= |instants|
    ensures |r| <= |stats| + |instants| - i
    decreases |instants| - i
  {
    if i == |instants| then stats
    else if i > 0 && instances(i) == instances(i - 1) then stats
    else EffectRuns(tasks, AddDailyStats(stats, DailySnapshot(tasks, instants[i])), instants, instances, i + 1)
  }

  /** The stats after a task change, as written: the effect depends on the
      fresh `addDailyStats` of each render. */
  function StatsAfterChangeAsWritten(tasks: seq<DailyTask>, stats: seq<DailyStats>, instants: seq<string>): seq<DailyStats>
    requires |tasks| > 0
  {
    EffectRuns(tasks, stats, instants, FreshInstances(), 0)
  }

  /** As written, every render records a new snapshot: with distinct clock
      readings that no record carries yet, one task change adds one record
      per render, however many renders there are. */
  lemma StatsAfterChangeAsWrittenGrows(tasks: seq<DailyTask>, stats: seq<DailyStats>, instants: seq<string>)
    requires |tasks| > 0
    requires forall j, l :: 0 <= j < l < |instants| ==> instants[j] != instants[l]
    requires forall j, s :: 0 <= j < |instants| && 0 <= s < |stats| ==> stats[s].date != instants[j]
    ensures |StatsAfterChangeAsWritten(tasks, stats, instants)| == |stats| + |instants|
  {
    FreshRunsAppend(tasks, stats, instants, 0);
  }

  lemma {:induction false} FreshRunsAppend(tasks: seq<DailyTask>, stats: seq<DailyStats>, instants: seq<string>, i: nat)
    requires |tasks| > 0 && i <= |instants|
    requires forall j, l :: i <= j < l < |instants| ==> instants[j] != instants[l]
    requires forall j, s :: i <= j < |instants| && 0 <= s < |stats| ==> stats[s].date != instants[j]
    ensures |EffectRuns(tasks, stats, instants, FreshInstances(), i)| == |stats| + |instants| - i
    decreases |instants| - i
  {
    if i < |instants| {
      var d := DailySnapshot(tasks, instants[i]);
      assert forall s :: 0 <= s < |stats| ==> stats[s].date != d.date;
      var next := AddDailyStats(stats, d);
      assert next == stats + [d];
      if i > 0 {
        assert FreshInstances()(i) != FreshInstances()(i - 1);
      }
      assert EffectRuns(tasks, stats, instants, FreshInstances(), i)
             == EffectRuns(tasks, next, instants, FreshInstances(), i + 1);
      LaterInstantsStayFresh(stats, d, instants, i);
      FreshRunsAppend(tasks, next, instants, i + 1);
    }
  }

  /** The clock readings after render `i` are still unused once render
      `i`'s snapshot is appended. */
  lemma LaterInstantsStayFresh(stats: seq<DailyStats>, d: DailyStats, instants: seq<string>, i: nat)
    requires i < |instants| && d.date == instants[i]
    requires forall j, l :: i <= j < l < |instants| ==> instants[j] != instants[l]
    requires forall j, s :: i <= j < |instants| && 0 <= s < |stats| ==> stats[s].date != instants[j]
    ensures forall j, s :: i + 1 <= j < |instants| && 0 <= s < |stats + [d]| ==> (stats + [d])[s].date != instants[j]
  {
  }

  /** The evident intent: the effect runs once per task change, with a
      stable `addDailyStats`. */
  function StatsAfterChange(tasks: seq<DailyTask>, stats: seq<DailyStats>, instants: seq<string>): seq<DailyStats>
    requires |tasks| > 0
  {
    EffectRuns(tasks, stats, instants, StableInstance(), 0)
  }

  /** One task change records exactly one snapshot, taken at the first
      render, whatever number of renders follow. */
  lemma StatsAfterChangeRecordsOnce(tasks: seq<DailyTask>, stats: seq<DailyStats>, instants: seq<string>)
    requires |tasks| > 0 && |instants| > 0
    ensures StatsAfterChange(tasks, stats, instants) == AddDailyStats(stats, DailySnapshot(tasks, instants[0]))
    ensures |StatsAfterChange(tasks, stats, instants)| <= |stats| + 1
  {
    var once := AddDailyStats(stats, DailySnapshot(tasks, instants[0]));
    StableStopsAfterFirst(tasks, once, instants);
    assert StatsAfterChange(tasks, stats, instants) == EffectRuns(tasks, once, instants, StableInstance(), 1);
    AddGrowsByAtMostOne(stats, DailySnapshot(tasks, instants[0]));
  }

  /** With a stable instance, the render after the first skips the effect. */
  lemma StableStopsAfterFirst(tasks: seq<DailyTask>, stats: seq<DailyStats>, instants: seq<string>)
    requires |tasks| > 0 && |instants| > 0
    ensures EffectRuns(tasks, stats, instants, StableInstance(), 1) == stats
  {
    if |instants| > 1 {
      assert StableInstance()(1) == StableInstance()(0);
    }
  }

  datatype Greeting = GoodMorning | GoodAfternoon | GoodEvening

  /** `getGreeting`: morning before noon, afternoon before five, evening
      after. */
  function GreetingFor(hour: int): (r: Greeting)
    ensures r == GoodMorning <==> hour < 12
    ensures r == GoodAfternoon <==> 12 <= hour < 17
    ensures r == GoodEvening <==> 17 <= hour
  {
    if hour < 12 then GoodMorning
    else if hour < 17 then GoodAfternoon
    else GoodEvening
  }

  datatype Motivation = PerfectDay | AlmostThere | GreatProgress | GoodStart | ReadyToStart

  /** `getMotivationalMessage`: one message per band of the completion
      percentage; exactly one band applies to any value. */
  function MotivationFor(percentage: int): (r: Motivation)
    ensures r == PerfectDay <==> percentage == 100
    ensures r == AlmostThere <==> percentage >= 80 && percentage != 100
    ensures r == GreatProgress <==> 50 <= percentage < 80
    ensures r == GoodStart <==> 25 <= percentage < 50
    ensures r == ReadyToStart <==> percentage < 25
  {
    if percentage == 100 then PerfectDay
    else if percentage >= 80 then AlmostThere
    else if percentage >= 50 then GreatProgress
    else if percentage >= 25 then GoodStart
    else ReadyToStart
  }

  /** With every task done the dashboard shows the perfect-day message, and
      only then (for the store's list of fewer than 200 tasks). */
  lemma PerfectDayIffAllDone(tasks: seq<DailyTask>)
    requires 0 < |tasks| < 200
    ensures MotivationFor(CompletionPercentage(tasks)) == PerfectDay
        <==> forall i :: 0 <= i < |tasks| ==> tasks[i].completed
  {
  }
}

/**
 * The daily summary card (`DailySummary.tsx`): the list of completed tasks
 * and which per-task details it displays. Its totals are the shared ones of
 * the `Derivation` module.
 */
module DailySummary {
  import opened Common
  import opened Types
  import opened DailyTasks

  /** The completed tasks, in list order. */
  function CompletedTasks(tasks: seq<DailyTask>): (r: seq<DailyTask>)
    ensures SubsequenceOf(r, tasks)
    ensures |r| == CompletedCount(tasks)
    ensures forall i :: 0 <= i < |r| ==> r[i].completed
    ensures forall i :: 0 <= i < |tasks| && tasks[i].completed ==> tasks[i] in r
    ensures forall t :: multiset(r)[t] == if t.completed then multiset(tasks)[t] else 0
  {
    FilterMultiset(tasks, (t: DailyTask) => t.completed);
    Filter(tasks, (t: DailyTask) => t.completed)
  }

  /** The "Completed Today" section is rendered when the list is non-empty,
      that is, when at least one task is completed. */
  function ShowsCompletedSection(tasks: seq<DailyTask>): (r: bool)
    ensures r <==> exists i :: 0 <= i < |tasks| && tasks[i].completed
  {
    |CompletedTasks(tasks)| > 0
  }

  /** What the card prints after a completed task's title: the distance and
      the duration of an exercise when positive, with a separator only
      between the two, or the calories of the calories task when positive. */
  datatype Detail = Detail(distance: Option<real>, separator: bool, duration: Option<int>, calories: Option<int>)

  function DetailFor(t: DailyTask): (r: Detail)
    ensures r.distance.Some? <==> t.kind == Exercise && t.data.Some? && t.data.value.distance.Some? && t.data.value.distance.value > 0.0
    ensures r.duration.Some? <==> t.kind == Exercise && t.data.Some? && t.data.value.duration.Some? && t.data.value.duration.value > 0
    ensures r.separator <==> r.distance.Some? && r.duration.Some?
    ensures r.calories.Some? <==> t.kind == Calories && t.data.Some? && t.data.value.calories.Some? && t.data.value.calories.value > 0
    ensures r.distance.Some? ==> r.distance == t.data.value.distance
    ensures r.duration.Some? ==> r.duration == t.data.value.duration
    ensures r.calories.Some? ==> r.calories == t.data.value.calories
  {
    if t.data.None? then Detail(None, false, None, None)
    else
      var d := t.data.value;
      var distance := t.kind == Exercise && d.distance.Some? && d.distance.value > 0.0;
      var duration := t.kind == Exercise && d.duration.Some? && d.duration.value > 0;
      var separator := t.kind == Exercise && d.distance.Some? && d.distance.value > 0.0
                       && d.duration.Some? && d.duration.value > 0;
      var calories := t.kind == Calories && d.calories.Some? && d.calories.value > 0;
      Detail(if distance then d.distance else None,
             separator,
             if duration then d.duration else None,
             if calories then d.calories else None)
  }
}

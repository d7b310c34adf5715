/**
 * The exercise and calorie totals derived from the task list. The dashboard
 * (`App.tsx`) and the daily summary card (`DailySummary.tsx`) compute them
 * with the same expressions, so both call sites use these functions.
 */
module Derivation {
  import opened Common
  import opened Types
  import opened DailyTasks

  /** A task whose distance and duration are counted: a completed exercise. */
  predicate CountsAsExercise(t: DailyTask) {
    t.kind == Exercise && t.completed
  }

  /** `task.data?.distance || 0`: a missing value counts as zero. */
  function DistanceOf(t: DailyTask): real {
    if t.data.Some? then t.data.value.distance.GetOr(0.0) else 0.0
  }

  /** `task.data?.duration || 0`. */
  function DurationOf(t: DailyTask): int {
    if t.data.Some? then t.data.value.duration.GetOr(0) else 0
  }

  /** `task.data?.calories || 0`. */
  function CaloriesOf(t: DailyTask): int {
    if t.data.Some? then t.data.value.calories.GetOr(0) else 0
  }

  /** What one task adds to the distance total: its distance if it is a
      completed exercise, nothing otherwise. */
  function DistanceContribution(t: DailyTask): real {
    if CountsAsExercise(t) then DistanceOf(t) else 0.0
  }

  /** What one task adds to the duration total. */
  function DurationContribution(t: DailyTask): int {
    if CountsAsExercise(t) then DurationOf(t) else 0
  }

  /** Sum of distances over the completed exercise tasks (filter, then
      reduce), which is the sum of every task's contribution. */
  function TotalDistance(tasks: seq<DailyTask>): (r: real)
    ensures r == SumReal(tasks, DistanceContribution)
  {
    SumRealFilter(tasks, CountsAsExercise, DistanceOf, DistanceContribution);
    SumReal(Filter(tasks, CountsAsExercise), DistanceOf)
  }

  /** Sum of durations over the completed exercise tasks, which is the sum
      of every task's contribution. */
  function TotalDuration(tasks: seq<DailyTask>): (r: int)
    ensures r == SumInt(tasks, DurationContribution)
  {
    SumIntFilter(tasks, CountsAsExercise, DurationOf, DurationContribution);
    SumInt(Filter(tasks, CountsAsExercise), DurationOf)
  }

  /** The calories value of the first calories-typed task, completed or not;
      zero when there is no such task or it has no value. */
  function TotalCalories(tasks: seq<DailyTask>): (r: int)
    ensures (forall i :: 0 <= i < |tasks| ==> tasks[i].kind != Calories) ==> r == 0
    ensures forall i :: 0 <= i < |tasks| && tasks[i].kind == Calories
                        && (forall j :: 0 <= j < i ==> tasks[j].kind != Calories)
                        ==> r == CaloriesOf(tasks[i])
  {
    match FindFirst(tasks, (t: DailyTask) => t.kind == Calories)
    case None => 0
    case Some(t) => CaloriesOf(t)
  }

  /** Two task lists that agree, position by position, on which tasks are
      completed exercises and on those tasks' distance and duration have the
      same exercise totals: nothing else about a task contributes. */
  lemma {:induction false} ExerciseTotalsDependOnCompletedOnly(a: seq<DailyTask>, b: seq<DailyTask>)
    requires |a| == |b|
    requires forall i :: 0 <= i < |a| ==> CountsAsExercise(a[i]) == CountsAsExercise(b[i])
    requires forall i :: 0 <= i < |a| && CountsAsExercise(a[i]) ==>
               DistanceOf(a[i]) == DistanceOf(b[i]) && DurationOf(a[i]) == DurationOf(b[i])
    ensures TotalDistance(a) == TotalDistance(b)
    ensures TotalDuration(a) == TotalDuration(b)
  {
    if |a| > 0 {
      ExerciseTotalsDependOnCompletedOnly(a[1..], b[1..]);
      assert TotalDistance(a[1..]) == TotalDistance(b[1..]);
    }
  }

  /** Entering distance or duration on tasks that are not completed (for
      instance an exercise not yet ticked) leaves both exercise totals
      unchanged. */
  lemma UncompletedDataIgnored(tasks: seq<DailyTask>, id: string, patch: TaskData)
    requires forall i :: 0 <= i < |tasks| && tasks[i].id == id ==> !tasks[i].completed
    ensures TotalDistance(UpdateTaskData(tasks, id, patch)) == TotalDistance(tasks)
    ensures TotalDuration(UpdateTaskData(tasks, id, patch)) == TotalDuration(tasks)
  {
    var updated := UpdateTaskData(tasks, id, patch);
    assert forall i :: 0 <= i < |tasks| ==> SameShape(tasks[i], updated[i]);
    ExerciseTotalsDependOnCompletedOnly(tasks, updated);
  }

  /** The calories total ignores completion: toggling any task leaves it
      unchanged. */
  lemma CaloriesIgnoreToggle(tasks: seq<DailyTask>, id: string)
    ensures TotalCalories(Toggle(tasks, id)) == TotalCalories(tasks)
  {
    var toggled := Toggle(tasks, id);
    assert forall i :: 0 <= i < |tasks| ==> SameShape(tasks[i], toggled[i]);
    match FindIndex(tasks, (t: DailyTask) => t.kind == Calories)
    case None =>
    case Some(i) =>
      assert CaloriesOf(toggled[i]) == CaloriesOf(tasks[i]);
  }
}

/**
 * The task store of `useDailyTasks`: the fixed eleven-task catalog, the
 * once-per-day rollover keyed on a stored day marker, the overlay of saved
 * completion state onto the catalog, the two user operations (toggle and
 * data update) and the derived completion figures.
 *
 * Storage is modelled as values: a load is an `Option` of the parsed saved
 * list (`None` when the slot is absent or does not parse), and what is
 * written back after every change is the task list itself (the icon, the
 * one field left out of the saved form, is not modelled).
 */
module DailyTasks {
  import opened Common
  import opened Types

  /** Data of an exercise task after a reset. */
  const ExerciseDefault := TaskData(Some(0.0), Some(0), None)

  /** Data of the calories task after a reset. */
  const CaloriesDefault := TaskData(None, None, Some(0))

  /** No two tasks share an id. */
  ghost predicate DistinctIds(tasks: seq<DailyTask>) {
    forall i, j :: 0 <= i < j < |tasks| ==> tasks[i].id != tasks[j].id
  }

  /** Same identity and display fields: only `completed` and `data` may differ. */
  predicate SameShape(a: DailyTask, b: DailyTask) {
    && a.id == b.id
    && a.title == b.title
    && a.description == b.description
    && a.timeTarget == b.timeTarget
    && a.kind == b.kind
  }

  /** `after` is `before` task by task, with at most `completed` and `data`
      changed: same length, same order, same ids, kinds and texts. */
  ghost predicate Preserves(before: seq<DailyTask>, after: seq<DailyTask>) {
    |after| == |before| && forall i :: 0 <= i < |before| ==> SameShape(before[i], after[i])
  }

  /** `after` is `before` as a new day leaves it: uncompleted, exercise data
      zeroed, calories zeroed, a simple task's data untouched. */
  ghost predicate IsReset(before: DailyTask, after: DailyTask) {
    && SameShape(before, after)
    && !after.completed
    && after.data == match before.kind
                     case Exercise => Some(ExerciseDefault)
                     case Calories => Some(CaloriesDefault)
                     case Simple => before.data
  }

  /** The fixed checklist the store starts from, in display order. */
  function Catalog(): (r: seq<DailyTask>)
    ensures |r| == 11
  {
    [ DailyTask("wake-up", "Wake up by 7:00 AM", Some("Start the day early and energized"),
                false, Some("By 7:00 AM"), Simple, None),
      DailyTask("cycle-10", "Cycle 10 miles", Some("Morning cardio session"),
                false, Some("45-60 minutes"), Exercise, Some(ExerciseDefault)),
      DailyTask("walk-pack", "Walk 1 mile with pack", Some("Build endurance and strength"),
                false, Some("15-20 minutes"), Exercise, Some(ExerciseDefault)),
      DailyTask("homework", "Do homework", Some("Complete daily assignments"),
                false, None, Simple, None),
      DailyTask("boy-scouts", "Work on Boy Scouts Project", Some("Make progress on current project"),
                false, None, Simple, None),
      DailyTask("standing-work", "Do all work while standing", Some("Maintain good posture and health"),
                false, None, Simple, None),
      DailyTask("calories", "Track daily calorie intake", Some("Monitor nutrition and health"),
                false, None, Calories, Some(CaloriesDefault)),
      DailyTask("cycle-5", "Cycle 5 miles", Some("Evening exercise session"),
                false, Some("25-30 minutes"), Exercise, Some(ExerciseDefault)),
      DailyTask("tsa-work", "Do TSA work", Some("Technology Student Association tasks"),
                false, None, Simple, None),
      DailyTask("software-dev", "Work on Software Development", Some("Code practice and projects"),
                false, None, Simple, None),
      DailyTask("journal", "Journal", Some("Reflect on the day and plan tomorrow"),
                false, Some("10-15 minutes"), Simple, None) ]
  }

  /** A short fingerprint of an id: its length and first two characters. */
  function IdKey(id: string): (int, char, char)
    requires |id| >= 2
  {
    (|id|, id[0], id[1])
  }

  /** The fingerprints of the catalog's ids, in catalog order. */
  lemma CatalogKeys()
    ensures forall i :: 0 <= i < 11 ==> |Catalog()[i].id| >= 2
    ensures [IdKey(Catalog()[0].id), IdKey(Catalog()[1].id), IdKey(Catalog()[2].id), IdKey(Catalog()[3].id),
             IdKey(Catalog()[4].id), IdKey(Catalog()[5].id), IdKey(Catalog()[6].id), IdKey(Catalog()[7].id),
             IdKey(Catalog()[8].id), IdKey(Catalog()[9].id), IdKey(Catalog()[10].id)]
         == [(7, 'w', 'a'), (8, 'c', 'y'), (9, 'w', 'a'), (8, 'h', 'o'), (10, 'b', 'o'), (13, 's', 't'),
             (8, 'c', 'a'), (7, 'c', 'y'), (8, 't', 's'), (12, 's', 'o'), (7, 'j', 'o')]
  {
    var c := Catalog();
    assert c[0].id == "wake-up" && c[1].id == "cycle-10" && c[2].id == "walk-pack";
    assert c[3].id == "homework" && c[4].id == "boy-scouts" && c[5].id == "standing-work";
    assert c[6].id == "calories" && c[7].id == "cycle-5" && c[8].id == "tsa-work";
    assert c[9].id == "software-dev" && c[10].id == "journal";
  }

  /** The catalog's ids are pairwise distinct. */
  lemma CatalogIdsDistinct()
    ensures DistinctIds(Catalog())
  {
    var c := Catalog();
    CatalogKeys();
    var keys := seq(11, i requires 0 <= i < 11 => IdKey(c[i].id));
    forall i, j | 0 <= i < j < 11
      ensures c[i].id != c[j].id
    {
      assert keys[i] != keys[j];
    }
  }

  /** Every catalog task starts uncompleted with its reset data (exercise
      zeros, calories zero, no data for a simple task), and exactly one task,
      the seventh, tracks calories. */
  lemma CatalogStartsReset()
    ensures forall i :: 0 <= i < 11 ==> IsReset(Catalog()[i], Catalog()[i])
    ensures forall i :: 0 <= i < 11 && Catalog()[i].kind == Simple ==> Catalog()[i].data == None
    ensures forall i :: 0 <= i < 11 && Catalog()[i].kind == Calories ==> i == 6
    ensures Catalog()[6].kind == Calories
  {
  }

  // ---------------------------------------------------------------------
  // Daily rollover
  // ---------------------------------------------------------------------

  /** One task as the new-day reset leaves it. */
  function ResetTask(t: DailyTask): (r: DailyTask)
    ensures IsReset(t, r)
  {
    t.(completed := false,
       data := match t.kind
               case Exercise => Some(ExerciseDefault)
               case Calories => Some(CaloriesDefault)
               case Simple => t.data)
  }

  /** The tasks and the stored day marker after the new-day check. */
  datatype RolloverOutcome = RolloverOutcome(tasks: seq<DailyTask>, lastReset: string)

  /** The new-day check: when the stored marker (absent, or any other day
      string) differs from `today`, every task is reset; either way the
      marker ends up equal to `today`. */
  function Rollover(tasks: seq<DailyTask>, lastReset: Option<string>, today: string): (r: RolloverOutcome)
    ensures r.lastReset == today
    ensures Preserves(tasks, r.tasks)
    ensures lastReset == Some(today) ==> r.tasks == tasks
    ensures lastReset != Some(today) ==> forall i :: 0 <= i < |tasks| ==> IsReset(tasks[i], r.tasks[i])
  {
    if lastReset != Some(today) then
      RolloverOutcome(seq(|tasks|, i requires 0 <= i < |tasks| => ResetTask(tasks[i])), today)
    else
      RolloverOutcome(tasks, lastReset.value)
  }

  /** Once the marker says today, running the check again changes nothing. */
  lemma RolloverIdempotent(tasks: seq<DailyTask>, lastReset: Option<string>, today: string)
    ensures var once := Rollover(tasks, lastReset, today);
            Rollover(once.tasks, Some(once.lastReset), today) == once
  {
  }

  /** Resetting already-reset tasks is the identity, so even two resets in a
      row (marker never written) agree with one. */
  lemma ResetTwice(tasks: seq<DailyTask>, lastReset: Option<string>, today: string)
    ensures Rollover(Rollover(tasks, lastReset, today).tasks, lastReset, today)
         == Rollover(tasks, lastReset, today)
  {
    var once := Rollover(tasks, lastReset, today);
    var twice := Rollover(once.tasks, lastReset, today);
    if lastReset != Some(today) {
      forall i | 0 <= i < |tasks|
        ensures twice.tasks[i] == once.tasks[i]
      {
        assert IsReset(tasks[i], once.tasks[i]);
        assert IsReset(once.tasks[i], twice.tasks[i]);
      }
    }
  }

  /** The catalog is already in its reset state, so a rollover applied to
      it changes no task, whatever the marker says. */
  lemma RolloverOfCatalog(lastReset: Option<string>, today: string)
    ensures Rollover(Catalog(), lastReset, today).tasks == Catalog()
  {
    var c := Catalog();
    var r := Rollover(c, lastReset, today).tasks;
    CatalogStartsReset();
    forall i | 0 <= i < |c|
      ensures r[i] == c[i]
    {
      assert IsReset(c[i], c[i]);
      if lastReset != Some(today) {
        assert IsReset(c[i], r[i]);
      }
    }
  }

  // ---------------------------------------------------------------------
  // Overlay of saved state
  // ---------------------------------------------------------------------

  /** One task with the saved `completed` and `data` of the first saved
      entry carrying its id copied onto it, if there is one. */
  function OverlayTask(t: DailyTask, saved: seq<DailyTask>): DailyTask {
    match FindFirst(saved, (s: DailyTask) => s.id == t.id)
    case Some(s) => t.(completed := s.completed, data := s.data)
    case None => t
  }

  /** The load step: the saved list (if it parsed) is matched to the current
      tasks by id. Catalog order, ids and texts are kept; saved entries only
      supply `completed` and `data`, verbatim (absent data stays absent). */
  function Overlay(tasks: seq<DailyTask>, saved: Option<seq<DailyTask>>): (r: seq<DailyTask>)
    ensures Preserves(tasks, r)
    ensures saved.None? ==> r == tasks
    ensures saved.Some? ==>
      forall i, j :: 0 <= i < |tasks| && 0 <= j < |saved.value| && saved.value[j].id == tasks[i].id
                  && (forall k :: 0 <= k < j ==> saved.value[k].id != tasks[i].id)
                  ==> r[i].completed == saved.value[j].completed && r[i].data == saved.value[j].data
    ensures saved.Some? ==>
      forall i :: 0 <= i < |tasks| && (forall j :: 0 <= j < |saved.value| ==> saved.value[j].id != tasks[i].id)
                  ==> r[i] == tasks[i]
  {
    if saved.None? then tasks
    else seq(|tasks|, i requires 0 <= i < |tasks| => OverlayTask(tasks[i], saved.value))
  }

  /** A saved entry whose id no task carries contributes nothing, wherever
      it sits in the saved list. */
  lemma OverlayIgnoresUnknown(tasks: seq<DailyTask>, a: seq<DailyTask>, x: DailyTask, b: seq<DailyTask>)
    requires forall i :: 0 <= i < |tasks| ==> tasks[i].id != x.id
    ensures Overlay(tasks, Some(a + [x] + b)) == Overlay(tasks, Some(a + b))
  {
    var r1 := Overlay(tasks, Some(a + [x] + b));
    var r2 := Overlay(tasks, Some(a + b));
    forall i | 0 <= i < |tasks|
      ensures r1[i] == r2[i]
    {
      FindIndexSkip(a, x, b, (s: DailyTask) => s.id == tasks[i].id);
    }
  }

  /** Saving a reachable task list and loading it over the catalog gives the
      same list back: the persisted form round-trips. */
  lemma OverlayRoundTrip(tasks: seq<DailyTask>)
    requires Preserves(Catalog(), tasks)
    ensures Overlay(Catalog(), Some(tasks)) == tasks
  {
    var c := Catalog();
    var r := Overlay(c, Some(tasks));
    CatalogIdsDistinct();
    forall i | 0 <= i < |c|
      ensures r[i] == tasks[i]
    {
      assert tasks[i].id == c[i].id;
      forall k | 0 <= k < i
        ensures tasks[k].id != c[i].id
      {
        assert tasks[k].id == c[k].id;
      }
    }
  }

  // ---------------------------------------------------------------------
  // Session start
  // ---------------------------------------------------------------------

  /** The store's state once a session has started. */
  datatype Session = Session(tasks: seq<DailyTask>, lastReset: string)

  /** Session start in the order the two effects are written: the new-day
      check runs first, on the freshly built catalog, and the saved list is
      overlaid afterwards. */
  function StartupAsWritten(lastReset: Option<string>, today: string, saved: Option<seq<DailyTask>>): (r: Session)
    ensures r.lastReset == today
    ensures Preserves(Catalog(), r.tasks)
  {
    var rolled := Rollover(Catalog(), lastReset, today);
    Session(Overlay(rolled.tasks, saved), rolled.lastReset)
  }

  /** As written, the new-day check has no effect on the outcome: the
      result is the saved state overlaid on the catalog, whatever the
      marker. On a new day, every task found in the saved list keeps its
      saved `completed` and `data`. */
  lemma StartupAsWrittenIgnoresMarker(lastReset: Option<string>, today: string, saved: Option<seq<DailyTask>>)
    ensures StartupAsWritten(lastReset, today, saved).tasks == Overlay(Catalog(), saved)
  {
    RolloverOfCatalog(lastReset, today);
  }

  /** A concrete run of the as-written start: yesterday's save has the
      wake-up task completed, the marker says yesterday, and after a start
      today the task is still completed. */
  lemma StartupAsWrittenKeepsYesterday()
    ensures var saved := [Catalog()[0].(completed := true)];
            var s := StartupAsWritten(Some("Thu Oct 08 2026"), "Fri Oct 09 2026", Some(saved));
            s.tasks[0].completed
  {
    var saved := [Catalog()[0].(completed := true)];
    StartupAsWrittenIgnoresMarker(Some("Thu Oct 08 2026"), "Fri Oct 09 2026", Some(saved));
    assert saved[0].id == Catalog()[0].id;
  }

  /** Session start with the saved state loaded first and the new-day check
      applied to it: a new day starts from a reset checklist, the same day
      resumes the saved state. */
  function Startup(lastReset: Option<string>, today: string, saved: Option<seq<DailyTask>>): (r: Session)
    ensures r.lastReset == today
    ensures Preserves(Catalog(), r.tasks)
    ensures lastReset == Some(today) ==> r.tasks == Overlay(Catalog(), saved)
    ensures lastReset != Some(today) ==> forall i :: 0 <= i < |r.tasks| ==> !r.tasks[i].completed
    ensures lastReset != Some(today) ==>
      forall i :: 0 <= i < |r.tasks| && r.tasks[i].kind == Exercise ==> r.tasks[i].data == Some(ExerciseDefault)
  {
    var loaded := Overlay(Catalog(), saved);
    var rolled := Rollover(loaded, lastReset, today);
    assert forall i :: 0 <= i < |loaded| ==> SameShape(loaded[i], rolled.tasks[i]);
    Session(rolled.tasks, rolled.lastReset)
  }

  // ---------------------------------------------------------------------
  // User operations
  // ---------------------------------------------------------------------

  /** `toggleTask`: flips `completed` on every task with the given id and
      leaves every other task as it was. */
  function Toggle(tasks: seq<DailyTask>, id: string): (r: seq<DailyTask>)
    ensures Preserves(tasks, r)
    ensures forall i :: 0 <= i < |tasks| && tasks[i].id != id ==> r[i] == tasks[i]
    ensures forall i :: 0 <= i < |tasks| && tasks[i].id == id ==>
              r[i].completed == !tasks[i].completed && r[i].data == tasks[i].data
  {
    seq(|tasks|, i requires 0 <= i < |tasks| =>
      if tasks[i].id == id then tasks[i].(completed := !tasks[i].completed) else tasks[i])
  }

  /** Toggling the same id twice restores the list. */
  lemma ToggleTwice(tasks: seq<DailyTask>, id: string)
    ensures Toggle(Toggle(tasks, id), id) == tasks
  {
    var once := Toggle(tasks, id);
    var twice := Toggle(once, id);
    forall i | 0 <= i < |tasks|
      ensures twice[i] == tasks[i]
    {
      assert SameShape(tasks[i], once[i]);
    }
  }

  /** Toggling an id no task carries is a no-op. */
  lemma ToggleUnknown(tasks: seq<DailyTask>, id: string)
    requires forall i :: 0 <= i < |tasks| ==> tasks[i].id != id
    ensures Toggle(tasks, id) == tasks
  {
  }

  /** A patch overrides the keys it has; every other key keeps its value.
      Absent data counts as an empty object. */
  function MergeData(current: Option<TaskData>, patch: TaskData): (r: TaskData)
    ensures r.distance == if patch.distance.Some? then patch.distance
                          else if current.Some? then current.value.distance else None
    ensures r.duration == if patch.duration.Some? then patch.duration
                          else if current.Some? then current.value.duration else None
    ensures r.calories == if patch.calories.Some? then patch.calories
                          else if current.Some? then current.value.calories else None
  {
    var base := current.GetOr(TaskData(None, None, None));
    TaskData(
      if patch.distance.Some? then patch.distance else base.distance,
      if patch.duration.Some? then patch.duration else base.duration,
      if patch.calories.Some? then patch.calories else base.calories)
  }

  /** Two successive patches: the keys of the second win. */
  function Combine(first: TaskData, second: TaskData): TaskData {
    MergeData(Some(first), second)
  }

  /** Merging `p` then `q` is merging their combination once. */
  lemma MergeCompose(current: Option<TaskData>, p: TaskData, q: TaskData)
    ensures MergeData(Some(MergeData(current, p)), q) == MergeData(current, Combine(p, q))
  {
  }

  /** Re-applying the same patch changes nothing more. */
  lemma MergeIdempotent(current: Option<TaskData>, p: TaskData)
    ensures MergeData(Some(MergeData(current, p)), p) == MergeData(current, p)
  {
  }

  /** An empty patch leaves present data as it is. */
  lemma MergeEmpty(d: TaskData)
    ensures MergeData(Some(d), TaskData(None, None, None)) == d
  {
  }

  /** `updateTaskData`: shallow-merges the patch into the data of every task
      with the given id; other tasks and all other fields are unchanged. */
  function UpdateTaskData(tasks: seq<DailyTask>, id: string, patch: TaskData): (r: seq<DailyTask>)
    ensures Preserves(tasks, r)
    ensures forall i :: 0 <= i < |tasks| && tasks[i].id != id ==> r[i] == tasks[i]
    ensures forall i :: 0 <= i < |tasks| && tasks[i].id == id ==>
              r[i].completed == tasks[i].completed && r[i].data == Some(MergeData(tasks[i].data, patch))
  {
    seq(|tasks|, i requires 0 <= i < |tasks| =>
      if tasks[i].id == id then tasks[i].(data := Some(MergeData(tasks[i].data, patch))) else tasks[i])
  }

  /** Applying the same update twice is applying it once. */
  lemma UpdateTwice(tasks: seq<DailyTask>, id: string, patch: TaskData)
    ensures UpdateTaskData(UpdateTaskData(tasks, id, patch), id, patch) == UpdateTaskData(tasks, id, patch)
  {
    var once := UpdateTaskData(tasks, id, patch);
    var twice := UpdateTaskData(once, id, patch);
    forall i | 0 <= i < |tasks|
      ensures twice[i] == once[i]
    {
      assert SameShape(tasks[i], once[i]);
      MergeIdempotent(tasks[i].data, patch);
    }
  }

  // ---------------------------------------------------------------------
  // Derived figures
  // ---------------------------------------------------------------------

  /** `completedCount`: how many tasks are completed. */
  function CompletedCount(tasks: seq<DailyTask>): (r: nat)
    ensures r <= |tasks|
    ensures r == 0 <==> forall i :: 0 <= i < |tasks| ==> !tasks[i].completed
    ensures r == |tasks| <==> forall i :: 0 <= i < |tasks| ==> tasks[i].completed
    ensures r == |set i | 0 <= i < |tasks| && tasks[i].completed|
  {
    var isDone := (t: DailyTask) => t.completed;
    var done := Filter(tasks, isDone);
    FilterFull(tasks, isDone);
    FilterCount(tasks, isDone);
    assert Passing(tasks, isDone, |tasks|) == set i | 0 <= i < |tasks| && tasks[i].completed;
    |done|
  }

  /** `completionPercentage`: `Math.round(completed / total * 100)`. The
      store's list is never empty (it is the eleven-task catalog). */
  function CompletionPercentage(tasks: seq<DailyTask>): (r: int)
    requires |tasks| > 0
    ensures 0 <= r <= 100
    ensures |tasks| < 200 ==> (r == 100 <==> forall i :: 0 <= i < |tasks| ==> tasks[i].completed)
    ensures r == 0 ==> 200 * CompletedCount(tasks) < |tasks|
    ensures |tasks| * (2 * r - 1) <= 200 * CompletedCount(tasks) < |tasks| * (2 * r + 1)
  {
    var c := CompletedCount(tasks);
    var n := |tasks|;
    var r := RoundDiv(100 * c, n);
    PercentBounds(c, n, r);
    r
  }

  /** Arithmetic behind `CompletionPercentage`'s contract. */
  lemma PercentBounds(c: int, n: int, r: int)
    requires 0 <= c <= n && n > 0
    requires n * (2 * r - 1) <= 200 * c < n * (2 * r + 1)
    ensures 0 <= r <= 100
    ensures c == n ==> r == 100
    ensures n < 200 && c < n ==> r < 100
    ensures r == 0 ==> 200 * c < n
  {
    MulMonotone(n, 2 * r + 1, 0);
    MulMonotone(n, 2 * r - 1, 200);
    MulMonotone(n, 2 * r + 1, 200);
    MulMonotone(n, 2 * r - 1, 198);
  }

  /** With three of the eleven catalog tasks done, the percentage is 27. */
  lemma ThreeOfEleven(tasks: seq<DailyTask>)
    requires |tasks| == 11 && CompletedCount(tasks) == 3
    ensures CompletionPercentage(tasks) == 27
  {
    var r := CompletionPercentage(tasks);
    assert 11 * (2 * r - 1) <= 600 < 11 * (2 * r + 1);
  }
}

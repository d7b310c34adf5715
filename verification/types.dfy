/**
 * The record shapes the tracker stores and passes around: a daily task with
 * its optional numeric sub-data, a journal entry, one day's statistics and
 * the user's settings. The task icon (a rendered element) is not modelled.
 */
module Types {
  import opened Common

  /** Which sub-data a task carries: none, exercise distance/duration, or
      calories. (`type` in the source; `kind` here.) */
  datatype TaskKind = Simple | Exercise | Calories

  /** The optional `data` object of a task. Every key may be absent. Distance
      is a fractional number of miles; duration (minutes) and calories are
      whole numbers. */
  datatype TaskData = TaskData(distance: Option<real>, duration: Option<int>, calories: Option<int>)

  datatype DailyTask = DailyTask(
    id: string,
    title: string,
    description: Option<string>,
    completed: bool,
    timeTarget: Option<string>,
    kind: TaskKind,
    data: Option<TaskData>)

  datatype Mood = Great | Good | Okay | Bad

  datatype JournalEntry = JournalEntry(
    id: string,
    date: string,
    content: string,
    mood: Mood,
    highlights: seq<string>)

  /** One recorded snapshot of the day's progress, keyed by its `date`
      string (an ISO timestamp written at recording time). */
  datatype DailyStats = DailyStats(
    date: string,
    completionRate: int,
    totalDistance: real,
    totalDuration: int,
    totalCalories: int,
    tasksCompleted: int,
    totalTasks: int)

  datatype Theme = Light | Dark

  datatype WeekStart = Sunday | Monday

  datatype Settings = Settings(
    wakeUpTime: string,
    notifications: bool,
    theme: Theme,
    weekStartsOn: WeekStart)

  /** A date-string parser: local-time milliseconds of the instant a stored
      date string denotes, or `None` for an Invalid Date. */
  type Parser = string -> Option<int>
}

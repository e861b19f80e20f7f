/** The records of the tracker: a task, the record of the current period,
    and the entries of the history archive (lib/types.ts). */
module Types {

  datatype Option<+T> = None | Some(value: T)

  /** The four granularities a period can have. */
  datatype Timeframe = Day | Week | Month | Year

  /** One of the (usually three) task slots of a period. */
  datatype Task = Task(id: string, text: string, completed: bool, createdAt: string)

  /** The record of the period in progress (`CurrentDay`, reused for week, month
      and year). `date` is the period identifier; `completedAt` is an opaque
      timestamp token. */
  datatype PeriodRecord = PeriodRecord(date: string, tasks: seq<Task>, completedAt: Option<string>)

  /** An archived period, keyed by (date, timeframe). */
  datatype HistoryEntry = HistoryEntry(
    date: string,
    timeframe: Timeframe,
    tasks: seq<Task>,
    completed: bool,
    completedAt: Option<string>)

  /** A history entry as it is found in storage: entries written by older
      versions of the application carry no timeframe. */
  datatype StoredEntry = StoredEntry(
    date: string,
    timeframe: Option<Timeframe>,
    tasks: seq<Task>,
    completed: bool,
    completedAt: Option<string>)

  /** `tasks.every(task => task.completed)`. */
  function AllCompleted(tasks: seq<Task>): (all: bool)
    ensures all <==> forall i :: 0 <= i < |tasks| ==> tasks[i].completed
  {
    if tasks == [] then true else tasks[0].completed && AllCompleted(tasks[1..])
  }

  /** The record invariant: a completion time is present exactly when every
      task is completed. */
  predicate CompletionConsistent(r: PeriodRecord) {
    r.completedAt.Some? <==> AllCompleted(r.tasks)
  }
}

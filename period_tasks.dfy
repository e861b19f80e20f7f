/** The four task hooks (hooks/useDailyTasks.ts, useWeeklyTasks.ts,
    useMonthlyTasks.ts, useYearlyTasks.ts). They differ only in their storage
    keys, in how they compute the identifier of the period in progress and in
    the form of their staleness test, so they are one controller with a
    timeframe. */
module PeriodTasks {
  import opened Types
  import opened DateUtils
  import opened Storage
  import opened History

  /** The identifier of the period in progress: the day, the Monday of the
      week, the month or the year. */
  function PeriodId(tf: Timeframe, now: Clock): (id: string)
    ensures id != ""
    ensures tf == Timeframe.Day ==> id == TodayDate(now)
    ensures tf == Week ==> id == CurrentWeek(now)
    ensures tf == Month ==> id == CurrentMonth(now)
    ensures tf == Year ==> id == CurrentYear(now)
  {
    match tf
    case Day => TodayDate(now)
    case Week => CurrentWeek(now)
    case Month => CurrentMonth(now)
    case Year => CurrentYear(now)
  }

  /** The rollover test on the stored last-reset marker. A missing marker and
      the empty string are both falsy. The daily hook compares with today's
      date directly; the others use isNewWeek, isNewMonth and isNewYear. */
  predicate NeedsReset(tf: Timeframe, marker: Option<string>, now: Clock) {
    marker.None? || marker.value == "" ||
    match tf
    case Day => marker.value != TodayDate(now)
    case Week => IsNewWeek(marker.value, now)
    case Month => IsNewMonth(marker.value, now)
    case Year => IsNewYear(marker.value, now)
  }

  /** The rollover test against a known period identifier: a missing or empty
      marker is falsy, and any other marker is stale unless it is the
      identifier. */
  predicate Stale(marker: Option<string>, periodId: string) {
    marker.None? || marker.value == "" || marker.value != periodId
  }

  /** All four tests come to the same thing: a reset is due exactly when the
      marker is not the identifier of the period in progress. */
  lemma NeedsResetIffStale(tf: Timeframe, marker: Option<string>, now: Clock)
    ensures NeedsReset(tf, marker, now) <==> Stale(marker, PeriodId(tf, now))
    ensures NeedsReset(tf, marker, now) <==> marker != Some(PeriodId(tf, now))
  {
  }

  /** Whether a stored record belongs to the period in progress (the daily hook
      asks isToday, the others compare with the period identifier). */
  predicate IsCurrentPeriod(tf: Timeframe, date: string, now: Clock) {
    match tf
    case Day => IsToday(date, now)
    case Week => date == CurrentWeek(now)
    case Month => date == CurrentMonth(now)
    case Year => date == CurrentYear(now)
  }

  lemma IsCurrentPeriodIffId(tf: Timeframe, date: string, now: Clock)
    ensures IsCurrentPeriod(tf, date, now) <==> date == PeriodId(tf, now)
  {
  }

  // ---------------------------------------------------------------------------
  // Task list updates

  /** The fields an `updateTask` call supplies (`Partial<DayTask>`). */
  datatype TaskPatch = TaskPatch(
    id: Option<string>,
    text: Option<string>,
    completed: Option<bool>,
    createdAt: Option<string>)

  /** `{ ...task, ...updates }`: supplied fields win, the others are kept. */
  function ApplyPatch(t: Task, p: TaskPatch): Task {
    Task(
      if p.id.Some? then p.id.value else t.id,
      if p.text.Some? then p.text.value else t.text,
      if p.completed.Some? then p.completed.value else t.completed,
      if p.createdAt.Some? then p.createdAt.value else t.createdAt)
  }

  /** The task list after `updateTask(id, patch)`: every task with that id is
      patched, every other task is kept. */
  function PatchTasks(tasks: seq<Task>, id: string, p: TaskPatch): (r: seq<Task>)
    ensures |r| == |tasks|
    ensures forall i :: 0 <= i < |r| ==> r[i] == if tasks[i].id == id then ApplyPatch(tasks[i], p) else tasks[i]
  {
    if tasks == [] then []
    else [if tasks[0].id == id then ApplyPatch(tasks[0], p) else tasks[0]] + PatchTasks(tasks[1..], id, p)
  }

  /** The task list after `toggleTask(id)`: exactly the tasks with that id
      change, and only in their completion flag. */
  function ToggleTasks(tasks: seq<Task>, id: string): (r: seq<Task>)
    ensures |r| == |tasks|
    ensures forall i :: 0 <= i < |r| ==>
      && r[i].id == tasks[i].id && r[i].text == tasks[i].text && r[i].createdAt == tasks[i].createdAt
      && (r[i].completed <==> (tasks[i].completed != (tasks[i].id == id)))
  {
    if tasks == [] then []
    else
      var t := tasks[0];
      [if t.id == id then t.(completed := !t.completed) else t] + ToggleTasks(tasks[1..], id)
  }

  /** The task list after `updateTaskText(id, text)`: the matching tasks get
      the new text; nothing else changes. */
  function UpdateText(tasks: seq<Task>, id: string, text: string): (r: seq<Task>)
    ensures |r| == |tasks|
    ensures forall i :: 0 <= i < |r| ==>
      && r[i].id == tasks[i].id && r[i].completed == tasks[i].completed && r[i].createdAt == tasks[i].createdAt
      && r[i].text == (if tasks[i].id == id then text else tasks[i].text)
  {
    if tasks == [] then []
    else
      var t := tasks[0];
      [if t.id == id then t.(text := text) else t] + UpdateText(tasks[1..], id, text)
  }

  /** Toggling the same task twice restores the list. */
  lemma {:induction false} ToggleTwice(tasks: seq<Task>, id: string)
    ensures ToggleTasks(ToggleTasks(tasks, id), id) == tasks
  {
    if tasks != [] {
      ToggleTwice(tasks[1..], id);
      assert ToggleTasks(tasks, id)[1..] == ToggleTasks(tasks[1..], id);
    }
  }

  /** A toggle is an update that flips `completed` on a task with that id
      (ids being unique in a task list, the patch is the same for each). */
  lemma ToggleIsPatch(tasks: seq<Task>, i: nat, id: string)
    requires i < |tasks| && tasks[i].id == id
    requires forall j :: 0 <= j < |tasks| && j != i ==> tasks[j].id != id
    ensures ToggleTasks(tasks, id) == PatchTasks(tasks, id, TaskPatch(None, None, Some(!tasks[i].completed), None))
  {
    var p := TaskPatch(None, None, Some(!tasks[i].completed), None);
    var a, b := ToggleTasks(tasks, id), PatchTasks(tasks, id, p);
    forall j | 0 <= j < |tasks| ensures a[j] == b[j] {
      if j != i {
        assert a[j].completed == tasks[j].completed;
      }
    }
  }

  /** Editing text never changes whether the period is complete. */
  lemma UpdateTextKeepsCompletion(tasks: seq<Task>, id: string, text: string)
    ensures AllCompleted(UpdateText(tasks, id, text)) == AllCompleted(tasks)
  {
    var r := UpdateText(tasks, id, text);
    if AllCompleted(r) {
      forall i | 0 <= i < |tasks| ensures tasks[i].completed {
        assert r[i].completed;
      }
    }
  }

  /** `completedAt` as the hooks recompute it after a change to the tasks:
      a fresh timestamp exactly when every task is completed. */
  function CompletionStamp(tasks: seq<Task>, stamp: string): (c: Option<string>)
    ensures c.Some? <==> forall i :: 0 <= i < |tasks| ==> tasks[i].completed
    ensures c.Some? ==> c.value == stamp
  {
    if AllCompleted(tasks) then Some(stamp) else None
  }

  /** The state of one task hook. `archive` is the `onArchive` callback: the
      history's `addToHistory` with this timeframe, or none. The clock and the
      timestamp `new Date().toISOString()` are parameters. */
  class PeriodController {
    const timeframe: Timeframe
    const store: KeyValueStore
    const archive: HistoryStore?
    var current: Option<PeriodRecord>
    var isInitialized: bool

    constructor (timeframe: Timeframe, store: KeyValueStore, archive: HistoryStore?)
      ensures this.timeframe == timeframe && this.store == store && this.archive == archive
      ensures current == None && !isInitialized
    {
      this.timeframe := timeframe;
      this.store := store;
      this.archive := archive;
      current := None;
      isInitialized := false;
    }

    /** The stored last-reset marker of this timeframe. */
    function Marker(): Option<string>
      reads store
    {
      store.GetText(MarkerKey(timeframe))
    }

    /** The stored period record of this timeframe. */
    function Stored(): Option<PeriodRecord>
      reads store
    {
      store.GetRecord(RecordKey(timeframe))
    }

    /** The archive's history, or the empty list without an archive. */
    function Archived(): seq<HistoryEntry>
      reads archive
    {
      if archive == null then [] else archive.history
    }

    /** The mount effect, run when the identifier of the period in progress
        is periodId. On a stale marker the previous period's record, when one
        is stored and belongs to another period, is archived, the marker is
        set to periodId and the state is emptied. Otherwise a stored record of
        the period in progress is loaded. */
    method Initialize(periodId: string)
      modifies this, store, archive
      ensures isInitialized
      ensures store.writable == old(store.writable)
      ensures store.writable ==> Marker() == Some(periodId)
      ensures Stale(old(Marker()), periodId) ==>
        && current == None
        && store.items == old(store.Put(MarkerKey(timeframe), Text(periodId)))
      ensures Stale(old(Marker()), periodId) && old(Stored()).Some? &&
              old(Stored()).value.date != periodId && archive != null ==>
        Archived() == AddEntry(old(Archived()), MakeEntry(old(Stored()).value, timeframe))
      ensures !(Stale(old(Marker()), periodId) && old(Stored()).Some? && old(Stored()).value.date != periodId) ==>
        Archived() == old(Archived())
      ensures !Stale(old(Marker()), periodId) ==>
        && current == (if old(Stored()).Some? && old(Stored()).value.date == periodId then old(Stored()) else None)
        && store.items == old(store.items)
    {
      var marker := store.GetText(MarkerKey(timeframe));
      var stored := store.GetRecord(RecordKey(timeframe));
      if Stale(marker, periodId) {
        if stored.Some? && stored.value.date != periodId && archive != null {
          archive.AddToHistory(stored.value, timeframe);
        }
        var _ := store.SetItem(MarkerKey(timeframe), Text(periodId));
        current := None;
      } else if stored.Some? && stored.value.date == periodId {
        current := stored;
      } else {
        current := None;
      }
      isInitialized := true;
    }

    /** The save effect, run when the identifier of the period in progress is
        periodId. Once initialised, a record is written back and re-archived
        (adding or replacing its history entry); without a record, a stored
        record is cleared only when it belongs to another period. */
    method Persist(periodId: string)
      modifies store, archive
      ensures store.writable == old(store.writable)
      ensures Marker() == old(Marker())
      ensures isInitialized && current.Some? && store.writable ==> Stored() == current
      ensures !isInitialized ==> store.items == old(store.items)
      ensures isInitialized && current.Some? ==>
        store.items == old(store.Put(RecordKey(timeframe), Record(current.value)))
      ensures isInitialized && current.None? ==>
        store.items ==
          if old(Stored()).Some? && old(Stored()).value.date != periodId
          then old(store.Put(RecordKey(timeframe), Null))
          else old(store.items)
      ensures isInitialized && current.Some? && archive != null ==>
        Archived() == AddEntry(old(Archived()), MakeEntry(current.value, timeframe))
      ensures !(isInitialized && current.Some?) ==> Archived() == old(Archived())
    {
      KeysDistinct(timeframe, timeframe);
      if !isInitialized {
        return;
      }
      if current.Some? {
        var _ := store.SetItem(RecordKey(timeframe), Record(current.value));
        if archive != null {
          archive.AddToHistory(current.value, timeframe);
        }
      } else {
        var stored := store.GetRecord(RecordKey(timeframe));
        if stored.Some? && stored.value.date != periodId {
          var _ := store.SetItem(RecordKey(timeframe), Null);
        }
      }
    }

    /** `setTasks(tasks)`: a new record dated with the identifier of the
        period in progress. */
    method SetTasks(tasks: seq<Task>, periodId: string, stamp: string)
      modifies this
      ensures isInitialized == old(isInitialized)
      ensures current.Some? && current.value.date == periodId && current.value.tasks == tasks
      ensures CompletionConsistent(current.value)
      ensures current.value.completedAt.Some? ==> current.value.completedAt.value == stamp
    {
      current := Some(PeriodRecord(periodId, tasks, CompletionStamp(tasks, stamp)));
    }

    /** `updateTask(id, patch)`: no effect without a record; otherwise the
        matching tasks are patched and completion is recomputed. */
    method UpdateTask(id: string, patch: TaskPatch, stamp: string)
      modifies this
      ensures isInitialized == old(isInitialized)
      ensures current.Some? <==> old(current).Some?
      ensures current.Some? ==>
        && current.value.date == old(current).value.date
        && current.value.tasks == PatchTasks(old(current).value.tasks, id, patch)
        && CompletionConsistent(current.value)
        && (current.value.completedAt.Some? ==> current.value.completedAt.value == stamp)
    {
      if current.None? {
        return;
      }
      var tasks := PatchTasks(current.value.tasks, id, patch);
      current := Some(current.value.(tasks := tasks, completedAt := CompletionStamp(tasks, stamp)));
    }

    /** `toggleTask(id)`: no effect without a record; otherwise the matching
        tasks flip and completion is recomputed. */
    method ToggleTask(id: string, stamp: string)
      modifies this
      ensures isInitialized == old(isInitialized)
      ensures current.Some? <==> old(current).Some?
      ensures current.Some? ==>
        && current.value.date == old(current).value.date
        && current.value.tasks == ToggleTasks(old(current).value.tasks, id)
        && CompletionConsistent(current.value)
        && (current.value.completedAt.Some? ==> current.value.completedAt.value == stamp)
    {
      if current.None? {
        return;
      }
      var tasks := ToggleTasks(current.value.tasks, id);
      current := Some(current.value.(tasks := tasks, completedAt := CompletionStamp(tasks, stamp)));
    }

    /** `updateTaskText(id, text)`: no effect without a record; otherwise only
        the text changes, so date, completion time and consistency are kept. */
    method UpdateTaskText(id: string, text: string)
      modifies this
      ensures isInitialized == old(isInitialized)
      ensures current.Some? <==> old(current).Some?
      ensures current.Some? ==>
        && current.value.date == old(current).value.date
        && current.value.completedAt == old(current).value.completedAt
        && current.value.tasks == UpdateText(old(current).value.tasks, id, text)
        && (CompletionConsistent(old(current).value) ==> CompletionConsistent(current.value))
    {
      if current.None? {
        return;
      }
      UpdateTextKeepsCompletion(current.value.tasks, id, text);
      current := Some(current.value.(tasks := UpdateText(current.value.tasks, id, text)));
    }

    /** `isCompleted`: false without a record; with a consistent record it is
        the presence of a completion time. */
    function IsCompleted(): (c: bool)
      reads this
      ensures c <==> current.Some? && forall i :: 0 <= i < |current.value.tasks| ==> current.value.tasks[i].completed
      ensures current.Some? && CompletionConsistent(current.value) ==> (c <==> current.value.completedAt.Some?)
    {
      current.Some? && AllCompleted(current.value.tasks)
    }

    /** The `tasks` the hook exposes. */
    function Tasks(): (tasks: Option<seq<Task>>)
      reads this
      ensures tasks.Some? <==> current.Some?
      ensures tasks.Some? ==> tasks.value == current.value.tasks
    {
      if current.Some? then Some(current.value.tasks) else None
    }

    /** `resetDay` / `resetWeek` / `resetMonth` / `resetYear`: the record is
        dropped from the state and cleared in storage. */
    method Reset()
      modifies this, store
      ensures current == None
      ensures isInitialized == old(isInitialized)
      ensures store.items == old(store.Put(RecordKey(timeframe), Null)) && store.writable == old(store.writable)
      ensures store.writable ==> Stored() == None
    {
      current := None;
      var _ := store.SetItem(RecordKey(timeframe), Null);
    }
  }

  /** `useDailyTasks(onArchive)`. */
  method UseDailyTasks(store: KeyValueStore, archive: HistoryStore?) returns (c: PeriodController)
    ensures fresh(c) && c.timeframe == Timeframe.Day && c.store == store && c.archive == archive
    ensures c.current == None && !c.isInitialized
  {
    c := new PeriodController(Timeframe.Day, store, archive);
  }

  /** `useWeeklyTasks(onArchive)`. */
  method UseWeeklyTasks(store: KeyValueStore, archive: HistoryStore?) returns (c: PeriodController)
    ensures fresh(c) && c.timeframe == Week && c.store == store && c.archive == archive
    ensures c.current == None && !c.isInitialized
  {
    c := new PeriodController(Week, store, archive);
  }

  /** `useMonthlyTasks(onArchive)`. */
  method UseMonthlyTasks(store: KeyValueStore, archive: HistoryStore?) returns (c: PeriodController)
    ensures fresh(c) && c.timeframe == Month && c.store == store && c.archive == archive
    ensures c.current == None && !c.isInitialized
  {
    c := new PeriodController(Month, store, archive);
  }

  /** `useYearlyTasks(onArchive)`. */
  method UseYearlyTasks(store: KeyValueStore, archive: HistoryStore?) returns (c: PeriodController)
    ensures fresh(c) && c.timeframe == Year && c.store == store && c.archive == archive
    ensures c.current == None && !c.isInitialized
  {
    c := new PeriodController(Year, store, archive);
  }
}

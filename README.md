# Three tasks per period: rollover and archive

This project models, in Dafny, the core of a client-side tracker that holds
three tasks per day, week, month and year. It covers three parts:

- **Period identifiers** (`lib/dateUtils.ts`). The day is `YYYY-MM-DD` with an
  unpadded year. The week is the Monday of the current week in the same
  layout. The month is `YYYY-MM` and the year is `YYYY`. Identifiers are
  ordered by `compareDates`, which is `b.localeCompare(a)`.
- **The four task hooks** (`hooks/useDailyTasks.ts`, `useWeeklyTasks.ts`,
  `useMonthlyTasks.ts`, `useYearlyTasks.ts`). Each keeps the record of the
  period in progress, a last-reset marker and a copy of the record in the
  browser's key-value store. On mount it either rolls over to a new period
  (archiving the previous record), loads the stored record, or starts empty.
  On every change it writes the record back and re-archives it. The hooks
  differ only in their keys, their identifier function and the form of their
  staleness test, so they are one class, `PeriodTasks.PeriodController`, with
  a `Timeframe`.
- **The history archive** (`hooks/useHistory.ts`). This is a list of entries
  keyed by (date, timeframe). `addToHistory` replaces the entry with the same
  key or puts the new one in front, sorts the list newest first and cuts it
  to 90 entries. `pastHistory` hides the entries of the periods in progress.
  On load, entries without a timeframe are taken as days.

Modules, in dependency order:

- `Types` (`types.dfy`): tasks, period records and history entries.
- `DateUtils` (`date_utils.dfy`): the clock as calendar fields, decimal
  formatting, the identifiers, string order and week arithmetic.
- `DateSort` (`sort.dfy`): the stable newest-first sort.
- `Storage` (`storage.dfy`): storage keys and the key-value store.
- `History` (`history.dfy`): the archive.
- `PeriodTasks` (`period_tasks.dfy`): the controller.

The state that the source updates in place is modelled as classes:

- `Storage.KeyValueStore` holds `localStorage`. A write that fails leaves it
  unchanged.
- `History.HistoryStore` holds the history list.
- `PeriodTasks.PeriodController` holds the period record and the
  `isInitialized` flag.

Each hook's `onArchive` callback is a reference to the `HistoryStore`. The
controller calls its `AddToHistory` with its own timeframe, which is what each
page passes as the callback.

The doc comment on `compareDates` says the result is negative when `a < b`.
The body returns `b.localeCompare(a)`, which is negative when `a > b`, and the
history is sorted with it newest first. The model follows the body:
`DateUtils.CompareDatesOrder` and `DateUtils.CompareDatesIsChronological`
state the order it produces.

## Model

| member | source | states |
|---|---|---|
| Types.AllCompleted | hooks/useHistory.ts:52 | `tasks.every(t => t.completed)`: true exactly when every task is completed (true for no tasks) |
| DateUtils.DaysInMonth | lib/dateUtils.ts:62 | the month lengths `new Date` normalises with: 28 to 31 days, and February has 29 exactly in leap years |
| DateUtils.NatToStringRoundTrip | lib/dateUtils.ts:7-8 | the decimal digits `String(n)` produces read back as n |
| DateUtils.PadStartSpec | lib/dateUtils.ts:7-8 | `padStart` keeps the string as the suffix of the result and fills every position in front with the fill character |
| DateUtils.Pad2RoundTrip | lib/dateUtils.ts:7-8 | `String(n).padStart(2, '0')` for n < 100 is two digits that read back as n |
| DateUtils.TodayDateLayout | lib/dateUtils.ts:4-10 | the day identifier is the unpadded year, '-', a two-digit one-based month, '-', and a two-digit day; each field reads back as its number |
| DateUtils.FormatDateInjective | lib/dateUtils.ts:4-10 | distinct calendar dates get distinct identifiers |
| DateUtils.TodayDateIdentifiesDay | lib/dateUtils.ts:4-10 | two clock readings give the same day identifier exactly when they fall on the same calendar date |
| DateUtils.IsTodayIffSameDate | lib/dateUtils.ts:15-17 | `isToday` of a formatted date holds exactly when that date is today's year, month and day |
| DateUtils.LocaleCompareIsLexOrder | lib/dateUtils.ts:23 | `localeCompare` on identifiers is negative, zero or positive exactly as x is lexicographically below, equal to or above y |
| DateUtils.CompareDatesOrder | lib/dateUtils.ts:22-24 | `compareDates(a, b)` is negative exactly when a is lexicographically above b, zero exactly when a == b, and antisymmetric |
| DateUtils.CompareDatesTransitive | lib/dateUtils.ts:22-24 | the "may stand before" relation of `compareDates` is transitive, so it is a total preorder to sort by |
| DateUtils.CompareDatesIsChronological | lib/dateUtils.ts:22-24 | for four-digit years, a day or week identifier sorts before another exactly when it is the later calendar date, and compares equal exactly when it is the same date |
| DateUtils.NormalizeDay | lib/dateUtils.ts:62 | `new Date(year, month, d)` carries a day number outside the month into earlier or later months and always yields a valid calendar date |
| DateUtils.DaysBeforeIntoPrevMonth | lib/dateUtils.ts:61-62 | stepping back past the first of the month lands in the previous month, and in December of the previous year from January, with that month's true length |
| DateUtils.CurrentWeekIsMonday | lib/dateUtils.ts:58-67 | the week identifier is the date `(weekday + 6) % 7` days before today: at most six days back, six on a Sunday, and a Monday; it is formatted like a day identifier |
| DateUtils.WeekStable | lib/dateUtils.ts:58-67 | from one day to the next the week identifier stays the same, except when the new day is a Monday, so `isNewWeek` does not fire within a week |
| DateUtils.WeekChangesOnMonday | lib/dateUtils.ts:58-67 | from Sunday to Monday the week identifier changes, so `isNewWeek` fires on the first day of a week |
| DateUtils.MonthIdIsDayPrefix | lib/dateUtils.ts:72-77 | the month identifier is the day identifier without its `-DD` field, so a prefix of it |
| DateUtils.YearIdIsMonthPrefix | lib/dateUtils.ts:82-84 | the year identifier is the month identifier without its `-MM` field, and a prefix of the day identifier |
| DateUtils.MonthIdentifies | lib/dateUtils.ts:72-77 | two clock readings give the same month identifier exactly when they fall in the same month of the same year |
| DateUtils.YearIdentifies | lib/dateUtils.ts:82-84 | two clock readings give the same year identifier exactly when they fall in the same year |
| DateUtils.FormatYearDate | lib/dateUtils.ts:133-135 | a year identifier is displayed unchanged |
| DateSort.SortByDatePermutes | hooks/useHistory.ts:79 | the sort is a permutation: it keeps every entry, as often as it occurs |
| DateSort.SortByDateSorted | hooks/useHistory.ts:79 | after sorting, `compareDates` is at most zero on every adjacent pair (newest first) |
| DateSort.SortByDateStable | hooks/useHistory.ts:79 | the sort is stable: for every date, the entries with that date come out in the order in which they went in |
| DateSort.SortByDateOfSorted | hooks/useHistory.ts:35-37 | a list that is already newest first comes back unchanged, so sorting on load is a no-op on a saved history |
| DateSort.SortedPairwise | hooks/useHistory.ts:79 | in a sorted list every earlier entry may stand before every later one, not only neighbours |
| Storage.RecordKey | lib/constants.ts:2-5 | the key of each timeframe's record is not the history key |
| Storage.MarkerKey | lib/constants.ts:7-10 | the key of each timeframe's last-reset marker is not the history key |
| Storage.KeysDistinct | lib/constants.ts:1-11 | the nine keys are pairwise distinct: no record key is a marker key, and different timeframes use different keys |
| Storage.ReadBack | lib/storage.ts:5-16 | `getStorageItem` after a write: with working writes the written key reads as the value when it is of the kind asked for and as absent otherwise (so writing `null` clears it); other keys, and every key when writes fail, read as before |
| Storage.KeyValueStore.SetItem | lib/storage.ts:18-28 | `setStorageItem` stores the value under the key when writes work, changes nothing when they fail, and reports which happened |
| History.FindIndex | hooks/useHistory.ts:64-66 | `findIndex` on (date, timeframe): -1 exactly when no entry has the key, otherwise the first index that has it |
| History.MakeEntry | hooks/useHistory.ts:52-60 | the archived entry copies date, tasks and `completedAt`, takes the given timeframe, and is `completed` exactly when every task is |
| History.AddEntryContents | hooks/useHistory.ts:69-86 | with an entry of the same key, that entry is replaced and the length is unchanged; otherwise the entry is put in front; sorting keeps the contents and truncation keeps a prefix |
| History.AddEntrySortedAndBounded | hooks/useHistory.ts:79-84 | the result is newest first and has min(90, n) entries, n being the length before truncation |
| History.AddEntryEvictsOldest | hooks/useHistory.ts:82-84 | every entry cut off by truncation may stand after every retained entry |
| History.AddEntryKeepsKeysUnique | hooks/useHistory.ts:64-76 | a history without two entries for one (date, timeframe) still has none after `addToHistory` |
| History.SortKeepsFirstKey | hooks/useHistory.ts:79 | the stable sort keeps, for each key, which entry with that key comes first |
| History.AddEntryRecords | hooks/useHistory.ts:62-87 | after `addToHistory` the new entry is the first entry with its key, unless the history already held 90 other entries that are all strictly newer |
| History.AddEntryIdempotent | hooks/useHistory.ts:62-87 | archiving the same record with the same timeframe twice gives the same history as archiving it once |
| History.CurrentIds | hooks/useHistory.ts:107-109 | the identifiers `pastHistory` compares with are the current week, month and year, and the one `isToday` compares with |
| History.PastHistory | hooks/useHistory.ts:106-125 | an entry is kept exactly when it is in the history and is not the entry of its timeframe's period in progress |
| History.PastHistoryAppend | hooks/useHistory.ts:111 | the filter keeps the original order: it distributes over concatenation |
| History.Migrate | hooks/useHistory.ts:25-33 | an entry without a timeframe becomes a day entry; every other field, and every entry with a timeframe, is unchanged |
| History.MigrateStored | hooks/useHistory.ts:25-33 | migration leaves a history written with timeframes unchanged |
| History.ReloadSaved | hooks/useHistory.ts:22-48 | a newest-first history that was saved is read back, migrated and sorted into itself |
| History.HistoryStore.constructor | hooks/useHistory.ts:19 | the history starts empty |
| History.HistoryStore.Load | hooks/useHistory.ts:22-41 | the history becomes the stored entries (none when nothing is stored), migrated and sorted newest first |
| History.HistoryStore.Save | hooks/useHistory.ts:44-48 | a non-empty history is written under the history key; an empty one is not written |
| History.HistoryStore.AddToHistory | hooks/useHistory.ts:50-90 | the new history is the upsert, sort and truncation of the old one; it is newest first, at most 90 long, and keeps keys unique |
| History.HistoryStore.ClearHistory | hooks/useHistory.ts:92-95 | the history becomes empty and the empty list is written |
| History.HistoryStore.ArchiveCurrentDay | hooks/useHistory.ts:98-103 | a stored day record is archived as a day entry; without one the history is unchanged |
| History.HistoryStore.Past | hooks/useHistory.ts:106-125 | the `pastHistory` view of the current history |
| PeriodTasks.PeriodId | hooks/useWeeklyTasks.ts:18 | the identifier of the period in progress is never empty and is the day, week, month or year identifier for the timeframe |
| PeriodTasks.NeedsResetIffStale | lib/dateUtils.ts:89-105 | the daily test `!last \|\| last !== today` and the tests through `isNewWeek`, `isNewMonth` and `isNewYear` each hold exactly when the marker is not the identifier of the period in progress; `Stale` is that test against the identifier |
| PeriodTasks.IsCurrentPeriodIffId | hooks/useDailyTasks.ts:34 | the daily hook's `isToday(stored.date)` and the others' `stored.date === id` are the same test on the period identifier |
| PeriodTasks.PatchTasks | hooks/useDailyTasks.ts:86-88 | `updateTask` patches exactly the tasks with the id, each field taken from the patch when supplied; all other tasks stay as they are |
| PeriodTasks.ToggleTasks | hooks/useDailyTasks.ts:105-107 | `toggleTask` flips `completed` exactly on the tasks with the id; ids, texts, creation times and the task count are unchanged |
| PeriodTasks.UpdateText | hooks/useDailyTasks.ts:124-126 | `updateTaskText` sets the text of exactly the tasks with the id and changes nothing else |
| PeriodTasks.ToggleTwice | hooks/useDailyTasks.ts:101-118 | toggling the same id twice restores the task list |
| PeriodTasks.ToggleIsPatch | hooks/useDailyTasks.ts:82-118 | when ids are unique, toggling a task is the `updateTask` that sets its `completed` to the opposite |
| PeriodTasks.UpdateTextKeepsCompletion | hooks/useDailyTasks.ts:120-134 | editing text never changes whether every task is completed |
| PeriodTasks.CompletionStamp | hooks/useDailyTasks.ts:73-78 | `completedAt` is the fresh timestamp exactly when every task is completed, and absent otherwise |
| PeriodTasks.PeriodController.constructor | hooks/useDailyTasks.ts:12-14 | a hook starts with no record and not initialised |
| PeriodTasks.PeriodController.Initialize | hooks/useDailyTasks.ts:17-49 | given the identifier of the period in progress: on a stale or missing marker, the marker becomes that identifier, the record becomes null, and the stored record is archived once exactly when it exists and belongs to another period; otherwise the stored record is loaded exactly when it belongs to the period in progress; the flag is set, and afterwards (with working writes) the marker is current |
| PeriodTasks.PeriodController.Persist | hooks/useDailyTasks.ts:52-69 | nothing before initialisation; a record is written and re-archived; without a record, the stored one is cleared only when it belongs to another period; the marker is untouched |
| PeriodTasks.PeriodController.SetTasks | hooks/useDailyTasks.ts:71-80 | the record becomes the given tasks dated with the identifier of the period in progress, with `completedAt` set exactly when every task is completed; `isInitialized` keeps its value, so a following save writes the record |
| PeriodTasks.PeriodController.UpdateTask | hooks/useDailyTasks.ts:82-99 | `isInitialized` keeps its value; no effect on the record without one; otherwise the tasks are patched, the date kept, and `completedAt` set exactly when every task is completed |
| PeriodTasks.PeriodController.ToggleTask | hooks/useDailyTasks.ts:101-118 | `isInitialized` keeps its value; no effect on the record without one; otherwise the matching tasks flip, the date is kept, and `completedAt` is recomputed |
| PeriodTasks.PeriodController.UpdateTaskText | hooks/useDailyTasks.ts:120-134 | `isInitialized` keeps its value; no effect on the record without one; otherwise only texts change; date and `completedAt` are kept, and so is their consistency |
| PeriodTasks.PeriodController.IsCompleted | hooks/useDailyTasks.ts:136-138 | false without a record, otherwise every task is completed; on a consistent record, the same as having `completedAt` |
| PeriodTasks.PeriodController.Tasks | hooks/useDailyTasks.ts:146 | the exposed tasks are null exactly when there is no record |
| PeriodTasks.PeriodController.Reset | hooks/useDailyTasks.ts:140-143 | the record becomes null and null is written to the stored record, which then reads as absent; `isInitialized` keeps its value |
| PeriodTasks.UseDailyTasks | hooks/useDailyTasks.ts:12-14 | a day controller on the shared store and archive, empty and not initialised |
| PeriodTasks.UseWeeklyTasks | hooks/useWeeklyTasks.ts:12-14 | a week controller: week keys, the Monday identifier, the `isNewWeek` test |
| PeriodTasks.UseMonthlyTasks | hooks/useMonthlyTasks.ts:12-14 | a month controller: month keys, the `YYYY-MM` identifier, the `isNewMonth` test |
| PeriodTasks.UseYearlyTasks | hooks/useYearlyTasks.ts:12-14 | a year controller: year keys, the `YYYY` identifier, the `isNewYear` test |

## Left out

- The clock is not read. The identifier functions take the local calendar fields of "now" (year, month, day, day of the week) as a `Clock` parameter. The `new Date().toISOString()` timestamp is a string parameter.
- Years 0 to 99 are excluded from `Clock`, because `new Date(year, month, day)` reads them as 1900 to 1999.
- PeriodTasks.PeriodController.Initialize: takes the identifier of the period in progress, not the clock. The hook computes it from the clock (`PeriodTasks.PeriodId`), and `PeriodTasks.NeedsResetIffStale` and `PeriodTasks.IsCurrentPeriodIffId` show that its clock-based tests are comparisons with that identifier. `Persist` and `SetTasks` take the identifier in the same way.
- `localeCompare` is taken as plain character order. It agrees with locale collation on identifiers made of digits and '-'.
- `Array.prototype.sort` is modelled as a stable insertion sort on a sequence, not in place. The array it sorts is a fresh copy, so no aliasing is lost.
- `localStorage` and `JSON.parse`/`JSON.stringify` are modelled as a map from keys to parsed values. A missing key, a stored `null`, text that does not parse and a value of the wrong kind all read as absent. A stored record without a `date` field, which the source would archive with an undefined date, is read as absent too. A marker that is not a string reads as absent; like the source, the model then resets.
- Storage.KeyValueStore.SetItem: whether writes fail is one flag of the store that no operation changes. A quota failure that rejects one write (a large record) but accepts another (a short marker) is not represented; no proved property depends on writes failing together.
- Running without a browser window is modelled only as failing writes. `removeStorageItem` and `clearStorage` are not used by the core.
- The `setTimeout(..., 0)` deferrals and React's effect scheduling are not modelled. Mounting is one step that sets the record and then `isInitialized`. The save effects (`Persist`, `HistoryStore.Save`) are separate steps that the caller runs after a change.
- Several tabs writing the same store at once are not modelled.
- History entries with a timeframe other than day, week, month and year are not representable. This leaves out the `default` arm of `pastHistory`.
- An `updateTask` patch that sets a field to `undefined` explicitly is not modelled. A patch field is either supplied with a value or absent.
- History.AddEntryIdempotent: requires the history to hold at most 90 entries. Every history produced by `addToHistory` does, but a longer stored list loaded from storage need not.
- History.AddEntryRecords: requires the same bound of 90 entries, for the same reason.
- DateUtils.CompareDatesIsChronological: stated for four-digit years only. With years of different lengths, string order is not date order.
- `formatDate`, `formatWeekDate`, `formatMonthDate` and `getRelativeDate` are not modelled. They depend on locale formatting and on floating-point millisecond arithmetic.
- The pages, the presentational components and the static metadata are not modelled. This includes the task form's rule that only non-empty texts are submitted, which `SetTasks` does not require.

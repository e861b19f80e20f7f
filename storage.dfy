/** The browser's key-value store (lib/storage.ts) and the keys the hooks use
    (lib/constants.ts). A value is held already parsed; a value that does not
    parse, a stored JSON `null` and a missing key all read as absent. */
module Storage {
  import opened Types

  const CurrentDayKey := "daylist:current-day"
  const CurrentWeekKey := "daylist:current-week"
  const CurrentMonthKey := "daylist:current-month"
  const CurrentYearKey := "daylist:current-year"
  const HistoryKey := "daylist:history"
  const LastResetDateKey := "daylist:last-reset-date"
  const LastResetWeekKey := "daylist:last-reset-week"
  const LastResetMonthKey := "daylist:last-reset-month"
  const LastResetYearKey := "daylist:last-reset-year"

  /** The key under which a timeframe keeps its period record. */
  function RecordKey(tf: Timeframe): (key: string)
    ensures key != HistoryKey
  {
    match tf
    case Day => CurrentDayKey
    case Week => CurrentWeekKey
    case Month => CurrentMonthKey
    case Year => CurrentYearKey
  }

  /** The key under which a timeframe keeps its last-reset marker. */
  function MarkerKey(tf: Timeframe): (key: string)
    ensures key != HistoryKey
  {
    match tf
    case Day => LastResetDateKey
    case Week => LastResetWeekKey
    case Month => LastResetMonthKey
    case Year => LastResetYearKey
  }

  /** The nine keys are pairwise distinct, so the four controllers and the
      history never overwrite each other's values. */
  lemma KeysDistinct(a: Timeframe, b: Timeframe)
    ensures RecordKey(a) != MarkerKey(b)
    ensures RecordKey(a) == RecordKey(b) <==> a == b
    ensures MarkerKey(a) == MarkerKey(b) <==> a == b
  {
    assert RecordKey(a)[8] == 'c' && MarkerKey(b)[8] == 'l';
    assert RecordKey(a) == RecordKey(b) ==> RecordKey(a)[16] == RecordKey(b)[16];
    assert MarkerKey(a) == MarkerKey(b) ==> MarkerKey(a)[19] == MarkerKey(b)[19];
  }

  /** A stored value, as `JSON.parse` returns it. */
  datatype Value =
    | Text(text: string)
    | Record(record: PeriodRecord)
    | Entries(entries: seq<StoredEntry>)
    | Null
    | Unparseable

  /** `getStorageItem` of a string: a missing key and a value of another kind
      read as absent. */
  function ReadText(items: map<string, Value>, key: string): Option<string> {
    if key in items && items[key].Text? then Some(items[key].text) else None
  }

  /** `getStorageItem` of a period record. */
  function ReadRecord(items: map<string, Value>, key: string): Option<PeriodRecord> {
    if key in items && items[key].Record? then Some(items[key].record) else None
  }

  /** `getStorageItem` of a history. */
  function ReadEntries(items: map<string, Value>, key: string): Option<seq<StoredEntry>> {
    if key in items && items[key].Entries? then Some(items[key].entries) else None
  }

  class KeyValueStore {
    var items: map<string, Value>
    /** False when writes fail (quota exceeded, no browser): they are then no-ops. */
    var writable: bool

    constructor (items: map<string, Value>, writable: bool)
      ensures this.items == items && this.writable == writable
    {
      this.items := items;
      this.writable := writable;
    }

    /** The contents after writing v under key. */
    function Put(key: string, v: Value): map<string, Value>
      reads this
    {
      if writable then items[key := v] else items
    }

    /** `setStorageItem(key, v)`: reports whether the write took place. */
    method SetItem(key: string, v: Value) returns (ok: bool)
      modifies this
      ensures items == old(Put(key, v)) && writable == old(writable)
      ensures ok == writable
    {
      ok := writable;
      if writable {
        items := items[key := v];
      }
    }

    /** `getStorageItem<string>(key)`. */
    function GetText(key: string): Option<string>
      reads this
    {
      ReadText(items, key)
    }

    /** `getStorageItem<CurrentDay>(key)`. */
    function GetRecord(key: string): Option<PeriodRecord>
      reads this
    {
      ReadRecord(items, key)
    }

    /** `getStorageItem<History>(key)`. */
    function GetEntries(key: string): Option<seq<StoredEntry>>
      reads this
    {
      ReadEntries(items, key)
    }
  }

  /** Reading back after `setStorageItem(key, v)`: on a store whose writes
      work, the key reads as v when v is of the kind asked for and as absent
      otherwise (so writing `null` clears it); every other key, and every key
      of a store whose writes fail, reads as before. */
  lemma ReadBack(s: KeyValueStore, key: string, v: Value, other: string)
    ensures ReadText(s.Put(key, v), other) ==
      if s.writable && other == key then (if v.Text? then Some(v.text) else None)
      else ReadText(s.items, other)
    ensures ReadRecord(s.Put(key, v), other) ==
      if s.writable && other == key then (if v.Record? then Some(v.record) else None)
      else ReadRecord(s.items, other)
    ensures ReadEntries(s.Put(key, v), other) ==
      if s.writable && other == key then (if v.Entries? then Some(v.entries) else None)
      else ReadEntries(s.items, other)
  {
  }
}

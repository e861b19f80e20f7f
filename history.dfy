/** The history archive (hooks/useHistory.ts): a list of entries keyed by
    (date, timeframe), kept newest first and at most MAX_HISTORY_DAYS long. */
module History {
  import opened Types
  import opened DateUtils
  import opened DateSort
  import opened Storage

  /** MAX_HISTORY_DAYS (lib/constants.ts). */
  const MaxHistoryDays := 90

  predicate HasKey(e: HistoryEntry, date: string, tf: Timeframe) {
    e.date == date && e.timeframe == tf
  }

  /** No two entries share a (date, timeframe) key. */
  predicate UniqueKeys(h: seq<HistoryEntry>) {
    forall i, j :: 0 <= i < j < |h| ==> !HasKey(h[j], h[i].date, h[i].timeframe)
  }

  /** `findIndex` of the first entry with key (date, tf), or -1. */
  function FindIndex(h: seq<HistoryEntry>, date: string, tf: Timeframe): (i: int)
    ensures -1 <= i < |h|
    ensures i == -1 <==> forall j :: 0 <= j < |h| ==> !HasKey(h[j], date, tf)
    ensures 0 <= i ==> HasKey(h[i], date, tf) && forall j :: 0 <= j < i ==> !HasKey(h[j], date, tf)
  {
    if h == [] then -1
    else if HasKey(h[0], date, tf) then 0
    else
      var i := FindIndex(h[1..], date, tf);
      if i == -1 then -1 else i + 1
  }

  /** The entry `addToHistory` builds from a period record. */
  function MakeEntry(day: PeriodRecord, tf: Timeframe): (e: HistoryEntry)
    ensures e.date == day.date && e.timeframe == tf && e.tasks == day.tasks
    ensures e.completed <==> forall i :: 0 <= i < |day.tasks| ==> day.tasks[i].completed
    ensures e.completedAt == day.completedAt
  {
    HistoryEntry(day.date, tf, day.tasks, AllCompleted(day.tasks), day.completedAt)
  }

  /** The list before sorting: e replaces the first entry with its key, or is
      put in front when there is none. */
  function Upserted(h: seq<HistoryEntry>, e: HistoryEntry): seq<HistoryEntry> {
    var i := FindIndex(h, e.date, e.timeframe);
    if i >= 0 then h[i := e] else [e] + h
  }

  /** `slice(0, MAX_HISTORY_DAYS)` when the list is longer than that. */
  function Truncated(s: seq<HistoryEntry>): seq<HistoryEntry> {
    if |s| > MaxHistoryDays then s[..MaxHistoryDays] else s
  }

  /** The history after `addToHistory` has stored entry e. */
  function AddEntry(h: seq<HistoryEntry>, e: HistoryEntry): seq<HistoryEntry> {
    Truncated(SortByDate(Upserted(h, e)))
  }

  // ---------------------------------------------------------------------------
  // What addToHistory guarantees

  lemma UpsertedReplaces(h: seq<HistoryEntry>, e: HistoryEntry)
    requires FindIndex(h, e.date, e.timeframe) >= 0
    ensures var i := FindIndex(h, e.date, e.timeframe);
      |Upserted(h, e)| == |h| && multiset(Upserted(h, e)) == multiset(h) - multiset{h[i]} + multiset{e}
  {
    var i := FindIndex(h, e.date, e.timeframe);
    assert h == h[..i] + [h[i]] + h[i + 1..];
    assert h[i := e] == h[..i] + [e] + h[i + 1..];
  }

  /** An existing entry with the same key is replaced and nothing is added;
      otherwise the entry is put in front. Sorting keeps the contents;
      truncation keeps a prefix of the sorted list. */
  lemma AddEntryContents(h: seq<HistoryEntry>, e: HistoryEntry)
    ensures var i, u := FindIndex(h, e.date, e.timeframe), Upserted(h, e);
      && (i >= 0 ==> |u| == |h| && multiset(u) == multiset(h) - multiset{h[i]} + multiset{e})
      && (i < 0 ==> u == [e] + h)
      && multiset(SortByDate(u)) == multiset(u)
      && AddEntry(h, e) == SortByDate(u)[..|AddEntry(h, e)|]
  {
    var u := Upserted(h, e);
    if FindIndex(h, e.date, e.timeframe) >= 0 {
      UpsertedReplaces(h, e);
    }
    SortByDatePermutes(u);
    var s := SortByDate(u);
    if |s| <= MaxHistoryDays {
      assert s[..|s|] == s;
    }
  }

  /** After addToHistory the list is newest first and holds at most 90 entries:
      exactly min(90, n) where n is the length before truncation. */
  lemma AddEntrySortedAndBounded(h: seq<HistoryEntry>, e: HistoryEntry)
    ensures var r, n := AddEntry(h, e), |Upserted(h, e)|;
      && SortedDesc(r)
      && |r| == (if n > MaxHistoryDays then MaxHistoryDays else n)
      && |r| <= MaxHistoryDays
  {
    var s := SortByDate(Upserted(h, e));
    SortByDateSorted(Upserted(h, e));
    if |s| > MaxHistoryDays {
      SortedPrefix(s, MaxHistoryDays);
    }
  }

  /** Truncation evicts only entries that are no newer than any retained one. */
  lemma AddEntryEvictsOldest(h: seq<HistoryEntry>, e: HistoryEntry)
    ensures var s, r := SortByDate(Upserted(h, e)), AddEntry(h, e);
      && r == s[..|r|]
      && forall i, j :: 0 <= i < |r| <= j < |s| ==> NewerOrSame(s[i], s[j])
  {
    var s := SortByDate(Upserted(h, e));
    SortByDateSorted(Upserted(h, e));
    SortedPairwise(s);
  }

  /** No entry of t has key (date, tf). */
  predicate NoKey(t: seq<HistoryEntry>, date: string, tf: Timeframe) {
    forall j :: 0 <= j < |t| ==> !HasKey(t[j], date, tf)
  }

  lemma UniqueCons(a: HistoryEntry, t: seq<HistoryEntry>)
    ensures UniqueKeys([a] + t) <==> NoKey(t, a.date, a.timeframe) && UniqueKeys(t)
  {
    var s := [a] + t;
    assert forall j :: 0 <= j < |t| ==> s[j + 1] == t[j];
    if NoKey(t, a.date, a.timeframe) && UniqueKeys(t) {
      forall i, j | 0 <= i < j < |s| ensures !HasKey(s[j], s[i].date, s[i].timeframe) {
        if i > 0 {
          assert s[i] == t[i - 1];
        }
      }
    }
    if UniqueKeys(s) {
      forall i, j | 0 <= i < j < |t| ensures !HasKey(t[j], t[i].date, t[i].timeframe) {
        assert s[i + 1] == t[i];
      }
      forall j | 0 <= j < |t| ensures !HasKey(t[j], a.date, a.timeframe) {
        assert s[0] == a && s[j + 1] == t[j];
        assert !HasKey(s[j + 1], s[0].date, s[0].timeframe);
      }
    }
  }

  lemma {:induction false} NoKeyFirst(t: seq<HistoryEntry>, date: string, tf: Timeframe)
    ensures NoKey(t, date, tf) <==> FirstWithKey(t, date, tf) == None
  {
    if t != [] {
      NoKeyFirst(t[1..], date, tf);
      assert forall j :: 0 <= j < |t[1..]| ==> t[1..][j] == t[j + 1];
    }
  }

  lemma {:induction false} InsertKeepsKeysUnique(x: HistoryEntry, t: seq<HistoryEntry>)
    requires UniqueKeys(t) && NoKey(t, x.date, x.timeframe)
    ensures UniqueKeys(Insert(x, t))
  {
    if t != [] && !NewerOrSame(x, t[0]) {
      var t' := t[1..];
      assert t == [t[0]] + t';
      UniqueCons(t[0], t');
      assert NoKey(t', x.date, x.timeframe) by {
        assert forall j :: 0 <= j < |t'| ==> t'[j] == t[j + 1];
      }
      InsertKeepsKeysUnique(x, t');
      NoKeyFirst(t', t[0].date, t[0].timeframe);
      NoKeyFirst(Insert(x, t'), t[0].date, t[0].timeframe);
      InsertFirstKey(x, t', t[0].date, t[0].timeframe);
      UniqueCons(t[0], Insert(x, t'));
    } else {
      UniqueCons(x, t);
    }
  }

  lemma {:induction false} SortKeepsKeysUnique(s: seq<HistoryEntry>)
    requires UniqueKeys(s)
    ensures UniqueKeys(SortByDate(s))
  {
    if s != [] {
      var s' := s[1..];
      assert s == [s[0]] + s';
      UniqueCons(s[0], s');
      SortKeepsKeysUnique(s');
      NoKeyFirst(s', s[0].date, s[0].timeframe);
      NoKeyFirst(SortByDate(s'), s[0].date, s[0].timeframe);
      SortFirstWithKey(s', s[0].date, s[0].timeframe);
      InsertKeepsKeysUnique(s[0], SortByDate(s'));
    }
  }

  /** addToHistory never creates a second entry for a (date, timeframe) key. */
  lemma AddEntryKeepsKeysUnique(h: seq<HistoryEntry>, e: HistoryEntry)
    requires UniqueKeys(h)
    ensures UniqueKeys(AddEntry(h, e))
  {
    var u := Upserted(h, e);
    if FindIndex(h, e.date, e.timeframe) < 0 {
      UniqueCons(e, h);
    } else {
      SameKeysUnique(h, u);
    }
    SortKeepsKeysUnique(u);
    UniquePrefix(SortByDate(u), |AddEntry(h, e)|);
  }

  /** Uniqueness depends only on the keys at each position. */
  lemma SameKeysUnique(h: seq<HistoryEntry>, u: seq<HistoryEntry>)
    requires UniqueKeys(h) && |u| == |h|
    requires forall j :: 0 <= j < |h| ==> u[j].date == h[j].date && u[j].timeframe == h[j].timeframe
    ensures UniqueKeys(u)
  {
  }

  lemma UniquePrefix(s: seq<HistoryEntry>, n: nat)
    requires UniqueKeys(s) && n <= |s|
    ensures UniqueKeys(s[..n])
  {
    assert forall j :: 0 <= j < n ==> s[..n][j] == s[j];
  }

  // ---------------------------------------------------------------------------
  // Stability, and repeated archival

  /** The first entry with key (date, tf), if any. */
  function FirstWithKey(s: seq<HistoryEntry>, date: string, tf: Timeframe): Option<HistoryEntry> {
    if s == [] then None
    else if HasKey(s[0], date, tf) then Some(s[0])
    else FirstWithKey(s[1..], date, tf)
  }

  /** FindIndex points at the first entry with the key. */
  lemma {:induction false} FindIndexFirst(s: seq<HistoryEntry>, date: string, tf: Timeframe)
    ensures var i := FindIndex(s, date, tf);
      && (i == -1 <==> FirstWithKey(s, date, tf) == None)
      && (i >= 0 ==> FirstWithKey(s, date, tf) == Some(s[i]))
  {
    if s != [] && !HasKey(s[0], date, tf) {
      FindIndexFirst(s[1..], date, tf);
    }
  }

  /** Insert puts x before every other entry with its key, and leaves the
      first entry of every other key as it was. */
  lemma {:induction false} InsertFirstKey(x: HistoryEntry, t: seq<HistoryEntry>, date: string, tf: Timeframe)
    ensures FirstWithKey(Insert(x, t), date, tf) ==
      if HasKey(x, date, tf) then Some(x) else FirstWithKey(t, date, tf)
  {
    if t != [] && !NewerOrSame(x, t[0]) {
      CompareDatesOrder(x.date, t[0].date);
      InsertFirstKey(x, t[1..], date, tf);
      assert Insert(x, t)[1..] == Insert(x, t[1..]);
    }
  }

  /** The stable sort keeps, for every key, which entry with that key comes first. */
  lemma {:induction false} SortKeepsFirstKey(s: seq<HistoryEntry>, date: string, tf: Timeframe)
    ensures var r := SortByDate(s);
      && (FindIndex(r, date, tf) == -1 <==> FindIndex(s, date, tf) == -1)
      && (FindIndex(s, date, tf) >= 0 ==> r[FindIndex(r, date, tf)] == s[FindIndex(s, date, tf)])
  {
    SortFirstWithKey(s, date, tf);
    FindIndexFirst(s, date, tf);
    FindIndexFirst(SortByDate(s), date, tf);
  }

  lemma {:induction false} SortFirstWithKey(s: seq<HistoryEntry>, date: string, tf: Timeframe)
    ensures FirstWithKey(SortByDate(s), date, tf) == FirstWithKey(s, date, tf)
  {
    if s != [] {
      SortFirstWithKey(s[1..], date, tf);
      InsertFirstKey(s[0], SortByDate(s[1..]), date, tf);
    }
  }

  /** The first entry with a key that occurs in a prefix is found in the prefix. */
  lemma FindIndexPrefix(s: seq<HistoryEntry>, n: nat, date: string, tf: Timeframe)
    requires n <= |s|
    ensures var p := FindIndex(s, date, tf);
      (0 <= p < n ==> FindIndex(s[..n], date, tf) == p) && (p == -1 || p >= n ==> FindIndex(s[..n], date, tf) == -1)
  {
    var t := s[..n];
    assert forall j :: 0 <= j < n ==> t[j] == s[j];
  }

  /** Archiving a record stores the new entry as the first one with its key,
      unless truncation evicted it. */
  lemma AddEntryFirstKey(h: seq<HistoryEntry>, e: HistoryEntry)
    ensures var s := SortByDate(Upserted(h, e));
      var p := FindIndex(s, e.date, e.timeframe);
      0 <= p && s[p] == e
  {
    var u := Upserted(h, e);
    var i := FindIndex(h, e.date, e.timeframe);
    if i >= 0 {
      assert FindIndex(u, e.date, e.timeframe) == i by {
        assert u[i] == e;
        forall j | 0 <= j < i ensures !HasKey(u[j], e.date, e.timeframe) {
          assert u[j] == h[j];
        }
      }
    }
    SortKeepsFirstKey(u, e.date, e.timeframe);
  }

  /** A key that is not in t is first found where Insert places x. */
  lemma InsertNewKey(x: HistoryEntry, t: seq<HistoryEntry>)
    requires FindIndex(t, x.date, x.timeframe) == -1
    ensures FindIndex(Insert(x, t), x.date, x.timeframe) == InsertPos(x, t)
  {
    InsertAt(x, t);
    var s, pos := Insert(x, t), InsertPos(x, t);
    forall j | 0 <= j < pos ensures !HasKey(s[j], x.date, x.timeframe) {
      assert s[j] == t[j];
    }
  }

  /** The new entry is dropped by truncation only when it was added to a full
      history of 90 entries that are all strictly newer; the result is then
      the old history, sorted. */
  lemma EvictedIsOldest(h: seq<HistoryEntry>, e: HistoryEntry)
    requires |h| <= MaxHistoryDays
    requires FindIndex(SortByDate(Upserted(h, e)), e.date, e.timeframe) >= |AddEntry(h, e)|
    ensures FindIndex(h, e.date, e.timeframe) == -1 && |h| == MaxHistoryDays
    ensures AddEntry(h, e) == SortByDate(h)
    ensures forall j :: 0 <= j < |h| ==> !NewerOrSame(e, SortByDate(h)[j])
  {
    var u := Upserted(h, e);
    var s := SortByDate(u);
    var t := SortByDate(h);
    AddEntrySortedAndBounded(h, e);
    assert FindIndex(h, e.date, e.timeframe) == -1;
    assert u == [e] + h;
    assert s == Insert(e, t) by {
      assert u[1..] == h;
    }
    SortKeepsFirstKey(h, e.date, e.timeframe);
    InsertNewKey(e, t);
    InsertPosSpec(e, t);
    InsertOldest(e, t);
    assert s[..MaxHistoryDays] == t;
  }

  /** After archiving, the entry is in the history as the first (and, given
      unique keys, the only) entry with its key, unless the history already
      held 90 other entries, all newer. */
  lemma AddEntryRecords(h: seq<HistoryEntry>, e: HistoryEntry)
    requires |h| <= MaxHistoryDays
    ensures var r := AddEntry(h, e);
      || (FindIndex(r, e.date, e.timeframe) >= 0 && r[FindIndex(r, e.date, e.timeframe)] == e)
      || (FindIndex(h, e.date, e.timeframe) == -1 && |h| == MaxHistoryDays &&
          forall j :: 0 <= j < |r| ==> !NewerOrSame(e, r[j]))
  {
    var s := SortByDate(Upserted(h, e));
    var r := AddEntry(h, e);
    AddEntryFirstKey(h, e);
    AddEntryEvictsOldest(h, e);
    FindIndexPrefix(s, |r|, e.date, e.timeframe);
    if FindIndex(s, e.date, e.timeframe) >= |r| {
      EvictedIsOldest(h, e);
    }
  }

  /** Re-adding an entry that a sorted, bounded history already holds first
      under its key changes nothing. */
  lemma AddEntryPresent(r: seq<HistoryEntry>, e: HistoryEntry)
    requires SortedDesc(r) && |r| <= MaxHistoryDays
    requires FindIndex(r, e.date, e.timeframe) >= 0 && r[FindIndex(r, e.date, e.timeframe)] == e
    ensures AddEntry(r, e) == r
  {
    assert Upserted(r, e) == r;
    SortByDateOfSorted(r);
  }

  /** Adding to a full sorted history an entry with a new key that is older
      than all of it changes nothing. */
  lemma AddEntryOldest(r: seq<HistoryEntry>, e: HistoryEntry)
    requires SortedDesc(r) && |r| == MaxHistoryDays
    requires FindIndex(r, e.date, e.timeframe) == -1
    requires forall j :: 0 <= j < |r| ==> !NewerOrSame(e, r[j])
    ensures AddEntry(r, e) == r
  {
    assert Upserted(r, e) == [e] + r;
    SortByDateOfSorted(r);
    assert SortByDate([e] + r) == Insert(e, r) by {
      assert ([e] + r)[1..] == r;
    }
    InsertOldest(e, r);
    assert (r + [e])[..MaxHistoryDays] == r;
  }

  /** Archiving the same record twice gives the history archiving it once gives.
      It needs the history to be within the bound, which every addToHistory
      result is. */
  lemma AddEntryIdempotent(h: seq<HistoryEntry>, e: HistoryEntry)
    requires |h| <= MaxHistoryDays
    ensures AddEntry(AddEntry(h, e), e) == AddEntry(h, e)
  {
    var s := SortByDate(Upserted(h, e));
    var r := AddEntry(h, e);
    AddEntrySortedAndBounded(h, e);
    AddEntryFirstKey(h, e);
    AddEntryEvictsOldest(h, e);
    FindIndexPrefix(s, |r|, e.date, e.timeframe);
    if FindIndex(s, e.date, e.timeframe) < |r| {
      AddEntryPresent(r, e);
    } else {
      EvictedIsOldest(h, e);
      SortKeepsFirstKey(h, e.date, e.timeframe);
      AddEntryOldest(r, e);
    }
  }

  // ---------------------------------------------------------------------------
  // pastHistory

  /** The identifiers of the periods in progress, computed once per filter. */
  datatype PeriodIds = PeriodIds(today: string, week: string, month: string, year: string)

  function CurrentIds(now: Clock): (ids: PeriodIds)
    ensures ids.week == CurrentWeek(now) && ids.month == CurrentMonth(now) && ids.year == CurrentYear(now)
    ensures forall date :: IsToday(date, now) <==> date == ids.today
  {
    PeriodIds(TodayDate(now), CurrentWeek(now), CurrentMonth(now), CurrentYear(now))
  }

  /** Whether e is the entry of the period in progress for its timeframe. */
  predicate IsCurrentEntry(e: HistoryEntry, ids: PeriodIds) {
    match e.timeframe
    case Day => e.date == ids.today
    case Week => e.date == ids.week
    case Month => e.date == ids.month
    case Year => e.date == ids.year
  }

  /** `pastHistory`: the history without the entries of periods in progress. */
  function PastHistory(h: seq<HistoryEntry>, ids: PeriodIds): (r: seq<HistoryEntry>)
    ensures |r| <= |h|
    ensures forall e :: e in r <==> e in h && !IsCurrentEntry(e, ids)
  {
    if h == [] then []
    else (if IsCurrentEntry(h[0], ids) then [] else [h[0]]) + PastHistory(h[1..], ids)
  }

  /** The filter keeps the original order: it distributes over concatenation. */
  lemma {:induction false} PastHistoryAppend(a: seq<HistoryEntry>, b: seq<HistoryEntry>, ids: PeriodIds)
    ensures PastHistory(a + b, ids) == PastHistory(a, ids) + PastHistory(b, ids)
  {
    if a == [] {
      assert a + b == b;
    } else {
      assert (a + b)[0] == a[0];
      assert (a + b)[1..] == a[1..] + b;
      PastHistoryAppend(a[1..], b, ids);
    }
  }

  // ---------------------------------------------------------------------------
  // Loading and saving

  /** Load-time migration of one stored entry: no timeframe means a day. */
  function MigrateEntry(s: StoredEntry): HistoryEntry {
    HistoryEntry(s.date, if s.timeframe.Some? then s.timeframe.value else Timeframe.Day, s.tasks, s.completed, s.completedAt)
  }

  /** The load-time migration of the stored history. */
  function Migrate(stored: seq<StoredEntry>): (h: seq<HistoryEntry>)
    ensures |h| == |stored|
    ensures forall i :: 0 <= i < |h| ==>
      && h[i].timeframe == (if stored[i].timeframe.None? then Timeframe.Day else stored[i].timeframe.value)
      && h[i].date == stored[i].date && h[i].tasks == stored[i].tasks
      && h[i].completed == stored[i].completed && h[i].completedAt == stored[i].completedAt
  {
    if stored == [] then [] else [MigrateEntry(stored[0])] + Migrate(stored[1..])
  }

  /** An entry as it is written to storage. */
  function Store(e: HistoryEntry): StoredEntry {
    StoredEntry(e.date, Some(e.timeframe), e.tasks, e.completed, e.completedAt)
  }

  function StoreAll(h: seq<HistoryEntry>): (stored: seq<StoredEntry>)
    ensures |stored| == |h|
  {
    if h == [] then [] else [Store(h[0])] + StoreAll(h[1..])
  }

  /** Migration leaves entries written by this version as they are. */
  lemma {:induction false} MigrateStored(h: seq<HistoryEntry>)
    ensures Migrate(StoreAll(h)) == h
  {
    if h != [] {
      MigrateStored(h[1..]);
    }
  }

  /** A saved history that is newest first is read back unchanged. */
  lemma ReloadSaved(h: seq<HistoryEntry>)
    requires SortedDesc(h)
    ensures SortByDate(Migrate(StoreAll(h))) == h
  {
    MigrateStored(h);
    SortByDateOfSorted(h);
  }

  /** The state of `useHistory`, on top of the shared key-value store. */
  class HistoryStore {
    const store: KeyValueStore
    var history: seq<HistoryEntry>

    constructor (store: KeyValueStore)
      ensures this.store == store && history == []
    {
      this.store := store;
      history := [];
    }

    /** The stored history, or the empty list when there is none. */
    function StoredHistory(): seq<StoredEntry>
      reads this, store
    {
      var stored := store.GetEntries(HistoryKey);
      if stored.Some? then stored.value else []
    }

    /** The mount effect: read the stored history, migrate it, sort it. */
    method Load()
      modifies this
      ensures history == SortByDate(Migrate(StoredHistory()))
      ensures SortedDesc(history)
    {
      var stored := store.GetEntries(HistoryKey);
      var entries := if stored.Some? then stored.value else [];
      var migrated := Migrate(entries);
      history := SortByDate(migrated);
      SortByDateSorted(migrated);
    }

    /** The save effect: a non-empty history is written to storage. */
    method Save()
      modifies store
      ensures store.items == if |history| > 0 then old(store.Put(HistoryKey, Entries(StoreAll(history)))) else old(store.items)
      ensures store.writable == old(store.writable)
    {
      if |history| > 0 {
        var _ := store.SetItem(HistoryKey, Entries(StoreAll(history)));
      }
    }

    /** `addToHistory(day, timeframe)`. */
    method AddToHistory(day: PeriodRecord, timeframe: Timeframe)
      modifies this
      ensures history == AddEntry(old(history), MakeEntry(day, timeframe))
      ensures SortedDesc(history) && |history| <= MaxHistoryDays
      ensures UniqueKeys(old(history)) ==> UniqueKeys(history)
    {
      var entry := MakeEntry(day, timeframe);
      var existingIndex := FindIndex(history, entry.date, entry.timeframe);
      var updated: seq<HistoryEntry>;
      if existingIndex >= 0 {
        updated := history[existingIndex := entry];
      } else {
        updated := [entry] + history;
      }
      updated := SortByDate(updated);
      if |updated| > MaxHistoryDays {
        updated := updated[..MaxHistoryDays];
      }
      AddEntrySortedAndBounded(history, entry);
      if UniqueKeys(history) {
        AddEntryKeepsKeysUnique(history, entry);
      }
      history := updated;
    }

    /** `clearHistory()`: the history is emptied and the empty list stored. */
    method ClearHistory()
      modifies this, store
      ensures history == []
      ensures store.items == old(store.Put(HistoryKey, Entries([])))
      ensures store.writable == old(store.writable)
    {
      history := [];
      var _ := store.SetItem(HistoryKey, Entries([]));
    }

    /** `archiveCurrentDay()`: the stored day record, if any, is archived as a day. */
    method ArchiveCurrentDay()
      modifies this
      ensures var stored := store.GetRecord(CurrentDayKey);
        history == if stored.Some? then AddEntry(old(history), MakeEntry(stored.value, Timeframe.Day)) else old(history)
    {
      var stored := store.GetRecord(CurrentDayKey);
      if stored.Some? {
        AddToHistory(stored.value, Timeframe.Day);
      }
    }

    /** The `pastHistory` view. */
    function Past(now: Clock): (r: seq<HistoryEntry>)
      reads this
      ensures forall e :: e in r <==> e in history && !IsCurrentEntry(e, CurrentIds(now))
    {
      PastHistory(history, CurrentIds(now))
    }
  }
}

/** `Array.prototype.sort` with the `compareDates` comparator on entry dates, as
    hooks/useHistory.ts uses it. The built-in sort is stable, so it is modelled
    as insertion sort: entries with equal dates keep their relative order. */
module DateSort {
  import opened Types
  import opened DateUtils

  /** `compareDates(a.date, b.date) <= 0`: a may stand before b. */
  predicate NewerOrSame(a: HistoryEntry, b: HistoryEntry) {
    CompareDates(a.date, b.date) <= 0
  }

  /** Newest first: compareDates is at most zero on every adjacent pair. */
  predicate SortedDesc(s: seq<HistoryEntry>) {
    forall i :: 0 <= i < |s| - 1 ==> NewerOrSame(s[i], s[i + 1])
  }

  /** Inserts x, which stands before every element of t in the input, into the
      sorted t: before the first element x may precede. */
  function Insert(x: HistoryEntry, t: seq<HistoryEntry>): (r: seq<HistoryEntry>)
    ensures |r| == |t| + 1
  {
    if t == [] then [x]
    else if NewerOrSame(x, t[0]) then [x] + t
    else
      [t[0]] + Insert(x, t[1..])
  }

  /** The stable sort of s, newest first. */
  function SortByDate(s: seq<HistoryEntry>): (r: seq<HistoryEntry>)
    ensures |r| == |s|
  {
    if s == [] then []
    else Insert(s[0], SortByDate(s[1..]))
  }

  lemma {:induction false} InsertPermutes(x: HistoryEntry, t: seq<HistoryEntry>)
    ensures multiset(Insert(x, t)) == multiset(t) + multiset{x}
  {
    if t != [] && !NewerOrSame(x, t[0]) {
      InsertPermutes(x, t[1..]);
      assert t == [t[0]] + t[1..];
    }
  }

  /** The sort is a permutation: it keeps every entry, as often as it occurs. */
  lemma {:induction false} SortByDatePermutes(s: seq<HistoryEntry>)
    ensures multiset(SortByDate(s)) == multiset(s)
  {
    if s != [] {
      SortByDatePermutes(s[1..]);
      InsertPermutes(s[0], SortByDate(s[1..]));
      assert s == [s[0]] + s[1..];
    }
  }

  /** The position at which Insert places x. */
  function InsertPos(x: HistoryEntry, t: seq<HistoryEntry>): (p: nat)
    ensures p <= |t|
  {
    if t == [] || NewerOrSame(x, t[0]) then 0 else 1 + InsertPos(x, t[1..])
  }

  /** Insert places x after the entries it may not stand before, and before
      the first one it may. */
  lemma {:induction false} InsertPosSpec(x: HistoryEntry, t: seq<HistoryEntry>)
    ensures var p := InsertPos(x, t);
      && (forall q :: 0 <= q < p ==> !NewerOrSame(x, t[q]))
      && (p < |t| ==> NewerOrSame(x, t[p]))
  {
    if t != [] && !NewerOrSame(x, t[0]) {
      InsertPosSpec(x, t[1..]);
      var p := InsertPos(x, t);
      forall q | 1 <= q < p ensures !NewerOrSame(x, t[q]) {
        assert t[q] == t[1..][q - 1];
      }
      if p < |t| {
        assert t[p] == t[1..][p - 1];
      }
    }
  }

  lemma {:induction false} InsertAt(x: HistoryEntry, t: seq<HistoryEntry>)
    ensures Insert(x, t) == t[..InsertPos(x, t)] + [x] + t[InsertPos(x, t)..]
  {
    if t != [] && !NewerOrSame(x, t[0]) {
      InsertAt(x, t[1..]);
      assert t == [t[0]] + t[1..];
      SplitCons(t[0], t[1..], InsertPos(x, t[1..]), x);
    }
  }

  /** Putting a in front of a list split at p splits the longer list at p + 1. */
  lemma SplitCons(a: HistoryEntry, t: seq<HistoryEntry>, p: nat, x: HistoryEntry)
    requires p <= |t|
    ensures [a] + (t[..p] + [x] + t[p..]) == ([a] + t)[..p + 1] + [x] + ([a] + t)[p + 1..]
  {
    assert ([a] + t)[..p + 1] == [a] + t[..p];
    assert ([a] + t)[p + 1..] == t[p..];
  }

  /** An entry older than every element of t goes to the end. */
  lemma InsertOldest(x: HistoryEntry, t: seq<HistoryEntry>)
    requires forall q :: 0 <= q < |t| ==> !NewerOrSame(x, t[q])
    ensures Insert(x, t) == t + [x]
  {
    InsertAt(x, t);
    InsertPosSpec(x, t);
    assert t[..|t|] == t;
  }

  lemma {:induction false} InsertSorted(x: HistoryEntry, t: seq<HistoryEntry>)
    requires SortedDesc(t)
    ensures SortedDesc(Insert(x, t))
  {
    if t != [] && !NewerOrSame(x, t[0]) {
      var t' := t[1..];
      SortedTail(t);
      InsertSorted(x, t');
      var r := Insert(x, t');
      InsertHead(x, t');
      CompareDatesOrder(x.date, t[0].date);
      SortedCons(t[0], r);
    } else {
      SortedCons(x, t);
    }
  }

  /** Insert puts x or the old first element in front. */
  lemma InsertHead(x: HistoryEntry, t: seq<HistoryEntry>)
    ensures Insert(x, t)[0] == x || (t != [] && Insert(x, t)[0] == t[0])
  {
  }

  lemma SortedTail(t: seq<HistoryEntry>)
    requires SortedDesc(t) && t != []
    ensures SortedDesc(t[1..])
  {
    var t' := t[1..];
    forall i | 0 <= i < |t'| - 1 ensures NewerOrSame(t'[i], t'[i + 1]) {
      assert t'[i] == t[i + 1] && t'[i + 1] == t[i + 2];
    }
  }

  lemma SortedCons(a: HistoryEntry, r: seq<HistoryEntry>)
    requires SortedDesc(r) && (r != [] ==> NewerOrSame(a, r[0]))
    ensures SortedDesc([a] + r)
  {
    var s := [a] + r;
    forall i | 0 <= i < |s| - 1 ensures NewerOrSame(s[i], s[i + 1]) {
      if i > 0 {
        assert s[i] == r[i - 1] && s[i + 1] == r[i];
      }
    }
  }

  /** The sort yields entries in newest-first order. */
  lemma {:induction false} SortByDateSorted(s: seq<HistoryEntry>)
    ensures SortedDesc(SortByDate(s))
  {
    if s != [] {
      SortByDateSorted(s[1..]);
      InsertSorted(s[0], SortByDate(s[1..]));
    }
  }

  /** The entries of s dated d, in their order in s. */
  function WithDate(s: seq<HistoryEntry>, d: string): seq<HistoryEntry> {
    if s == [] then []
    else (if s[0].date == d then [s[0]] else []) + WithDate(s[1..], d)
  }

  /** Insert places x before every entry of t with x's date. */
  lemma {:induction false} InsertWithDate(x: HistoryEntry, t: seq<HistoryEntry>, d: string)
    ensures WithDate(Insert(x, t), d) == if x.date == d then [x] + WithDate(t, d) else WithDate(t, d)
  {
    if t == [] {
    } else if NewerOrSame(x, t[0]) {
      assert ([x] + t)[1..] == t;
    } else {
      CompareDatesOrder(x.date, t[0].date);
      InsertWithDate(x, t[1..], d);
      var r := Insert(x, t[1..]);
      assert ([t[0]] + r)[1..] == r;
    }
  }

  /** The sort is stable: for every date, the entries with that date come out
      in the order in which they went in. */
  lemma {:induction false} SortByDateStable(s: seq<HistoryEntry>, d: string)
    ensures WithDate(SortByDate(s), d) == WithDate(s, d)
  {
    if s != [] {
      SortByDateStable(s[1..], d);
      InsertWithDate(s[0], SortByDate(s[1..]), d);
    }
  }

  /** Sorting an already sorted list leaves it as it is (the sort is stable). */
  lemma {:induction false} SortByDateOfSorted(s: seq<HistoryEntry>)
    requires SortedDesc(s)
    ensures SortByDate(s) == s
  {
    if s != [] {
      SortedTail(s);
      SortByDateOfSorted(s[1..]);
      assert s[1..] == [] || NewerOrSame(s[0], s[1..][0]);
      assert s == [s[0]] + s[1..];
    }
  }

  /** Adjacent order extends to every pair, by transitivity of compareDates. */
  lemma {:induction false} SortedPairwise(s: seq<HistoryEntry>)
    requires SortedDesc(s)
    ensures forall i, j :: 0 <= i < j < |s| ==> NewerOrSame(s[i], s[j])
  {
    if |s| > 1 {
      var t := s[1..];
      SortedTail(s);
      SortedPairwise(t);
      forall i, j | 0 <= i < j < |s| ensures NewerOrSame(s[i], s[j]) {
        if i == 0 && j > 1 {
          assert NewerOrSame(s[1], s[j]) by { assert s[1] == t[0] && s[j] == t[j - 1]; }
          CompareDatesTransitive(s[0].date, s[1].date, s[j].date);
        } else if i > 0 {
          assert s[i] == t[i - 1] && s[j] == t[j - 1];
        }
      }
    }
  }

  /** A prefix of a sorted list is sorted. */
  lemma SortedPrefix(s: seq<HistoryEntry>, n: nat)
    requires SortedDesc(s) && n <= |s|
    ensures SortedDesc(s[..n])
  {
    forall i | 0 <= i < n - 1 ensures NewerOrSame(s[..n][i], s[..n][i + 1]) {
      assert s[..n][i] == s[i] && s[..n][i + 1] == s[i + 1];
    }
  }
}

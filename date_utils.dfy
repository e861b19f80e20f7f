/** Period identifiers (lib/dateUtils.ts). The wall clock is not read here: every
    function takes the local calendar fields of "now" as a `Clock` value. */
module DateUtils {

  /** A calendar day with its day of the week: full year, zero-based month
      (`getMonth()`), day of the month (`getDate()`) and day of the week
      (`getDay()`, 0 = Sunday). */
  datatype Day = Day(year: int, month0: int, day: int, weekday: int)

  /** A calendar date without its day of the week. */
  datatype CalendarDate = CalendarDate(year: int, month0: int, day: int)

  /** Leap years of the proleptic Gregorian calendar used by JavaScript dates. */
  predicate IsLeapYear(y: int) {
    (y % 4 == 0 && y % 100 != 0) || y % 400 == 0
  }

  function DaysInMonth(year: int, month0: int): (n: int)
    ensures 28 <= n <= 31
    ensures month0 == 1 ==> (n == 29 <==> IsLeapYear(year))
  {
    if month0 == 1 then (if IsLeapYear(year) then 29 else 28)
    else if month0 == 3 || month0 == 5 || month0 == 8 || month0 == 10 then 30
    else 31
  }

  predicate WellFormed(d: Day) {
    0 <= d.month0 < 12 && 1 <= d.day <= DaysInMonth(d.year, d.month0) && 0 <= d.weekday < 7
  }

  /** What the clock can report. Years 0..99 are excluded: the `Date`
      constructor reads them as 1900..1999. The day of the week is taken as
      the clock reports it, not derived from the date, so a weekday claim
      about a `Clock` (such as "that day is a Monday") is relative to it. */
  type Clock = d: Day | WellFormed(d) && d.year >= 100 witness Day(2024, 0, 1, 1)

  // ---------------------------------------------------------------------------
  // Decimal strings

  predicate IsDigit(c: char) {
    '0' <= c <= '9'
  }

  predicate AllDigits(s: string) {
    forall i :: 0 <= i < |s| ==> IsDigit(s[i])
  }

  function DigitChar(n: int): (c: char)
    requires 0 <= n < 10
    ensures IsDigit(c)
  {
    ('0' as int + n) as char
  }

  /** The value of a decimal digit (0 for any other character). */
  function DigitValue(c: char): (n: nat)
    ensures n < 10
    ensures IsDigit(c) ==> DigitChar(n) == c
  {
    if IsDigit(c) then c as int - '0' as int else 0
  }

  /** `String(n)` for a non-negative integer: its decimal digits. */
  function NatToString(n: nat): (s: string)
    ensures 1 <= |s|
    ensures n < 10 <==> |s| == 1
  {
    if n < 10 then [DigitChar(n)] else NatToString(n / 10) + [DigitChar(n % 10)]
  }

  lemma {:induction false} NatToStringDigits(n: nat)
    ensures AllDigits(NatToString(n))
  {
    if n >= 10 {
      NatToStringDigits(n / 10);
    }
  }

  /** `String(n)` for any integer. */
  function IntToString(n: int): (s: string)
    ensures 1 <= |s|
  {
    if n < 0 then "-" + NatToString(-n) else NatToString(n)
  }

  /** The number a string of decimal digits denotes. */
  function DigitsValue(s: string): nat {
    if s == [] then 0 else DigitsValue(s[..|s| - 1]) * 10 + DigitValue(s[|s| - 1])
  }

  /** Reading back the digits of `String(n)` gives n. */
  lemma {:induction false} NatToStringRoundTrip(n: nat)
    ensures DigitsValue(NatToString(n)) == n
  {
    if n >= 10 {
      var s := NatToString(n);
      assert s[..|s| - 1] == NatToString(n / 10);
      NatToStringRoundTrip(n / 10);
    }
  }

  lemma NatToStringInjective(a: nat, b: nat)
    requires NatToString(a) == NatToString(b)
    ensures a == b
  {
    NatToStringRoundTrip(a);
    NatToStringRoundTrip(b);
  }

  /** `s.padStart(width, fill)`. */
  function PadStart(s: string, width: nat, fill: char): (r: string)
    ensures |r| == if |s| >= width then |s| else width
    decreases width - |s|
  {
    if |s| >= width then s else PadStart([fill] + s, width, fill)
  }

  /** padStart keeps s as the suffix and fills the front. */
  lemma {:induction false} PadStartSpec(s: string, width: nat, fill: char)
    ensures var r := PadStart(s, width, fill);
      r[|r| - |s|..] == s && forall i :: 0 <= i < |r| - |s| ==> r[i] == fill
    decreases width - |s|
  {
    if |s| < width {
      PadStartSpec([fill] + s, width, fill);
      var r := PadStart(s, width, fill);
      assert r[|r| - |s| - 1..] == [fill] + s;
      assert r[|r| - |s|..] == ([fill] + s)[1..];
    }
  }

  /** `String(n).padStart(2, '0')`. */
  function Pad2(n: nat): string {
    PadStart(NatToString(n), 2, '0')
  }

  /** A leading zero does not change the value of a digit string. */
  lemma {:induction false} LeadingZeroValue(s: string)
    requires AllDigits(s)
    ensures AllDigits("0" + s) && DigitsValue("0" + s) == DigitsValue(s)
  {
    if s != [] {
      var t := "0" + s;
      assert t[..|t| - 1] == "0" + s[..|s| - 1];
      LeadingZeroValue(s[..|s| - 1]);
    }
  }

  lemma Pad2Length(n: nat)
    requires n < 100
    ensures |Pad2(n)| == 2
  {
    if n >= 10 {
      assert |NatToString(n / 10)| == 1;
    }
  }

  /** Month and day fields are two digits wide and read back as the number. */
  lemma Pad2RoundTrip(n: nat)
    requires n < 100
    ensures |Pad2(n)| == 2 && AllDigits(Pad2(n)) && DigitsValue(Pad2(n)) == n
  {
    var s := NatToString(n);
    NatToStringRoundTrip(n);
    NatToStringDigits(n);
    if n < 10 {
      assert Pad2(n) == PadStart("0" + s, 2, '0') == "0" + s;
      LeadingZeroValue(s);
    } else {
      assert |NatToString(n / 10)| == 1;
      assert Pad2(n) == s;
    }
  }

  // ---------------------------------------------------------------------------
  // Day identifiers

  /** The `${year}-${month}-${day}` layout shared by the day and week
      identifiers; the month is one-based. */
  function FormatDate(year: int, month0: nat, day: nat): string {
    IntToString(year) + "-" + Pad2(month0 + 1) + "-" + Pad2(day)
  }

  /** A formatted date splits back into its year string and its two-digit
      month (one-based) and day fields. */
  lemma FormatDateFields(year: int, month0: nat, day: nat)
    requires month0 < 12 && day < 100
    ensures var s, y := FormatDate(year, month0, day), IntToString(year);
      var n := |y|;
      && |s| == n + 6
      && s[..n] == y && s[n] == '-' && s[n + 3] == '-'
      && s[n + 1..n + 3] == Pad2(month0 + 1) && s[n + 4..] == Pad2(day)
  {
    Pad2Length(month0 + 1);
    Pad2Length(day);
    SplitFields(IntToString(year), Pad2(month0 + 1), Pad2(day));
  }

  lemma SplitFields(y: string, mm: string, dd: string)
    requires |mm| == 2 && |dd| == 2
    ensures var s, n := y + "-" + mm + "-" + dd, |y|;
      && |s| == n + 6
      && s[..n] == y && s[n] == '-' && s[n + 3] == '-'
      && s[n + 1..n + 3] == mm && s[n + 4..] == dd
  {
  }

  lemma SplitFieldsInjective(y1: string, mm1: string, dd1: string, y2: string, mm2: string, dd2: string)
    requires |mm1| == 2 && |dd1| == 2 && |mm2| == 2 && |dd2| == 2
    requires y1 + "-" + mm1 + "-" + dd1 == y2 + "-" + mm2 + "-" + dd2
    ensures y1 == y2 && mm1 == mm2 && dd1 == dd2
  {
    SplitFields(y1, mm1, dd1);
    SplitFields(y2, mm2, dd2);
  }

  /** Distinct dates (from year 0 on) have distinct identifiers. */
  lemma FormatDateInjective(y1: nat, m1: nat, d1: nat, y2: nat, m2: nat, d2: nat)
    requires m1 < 12 && d1 < 100 && m2 < 12 && d2 < 100
    requires FormatDate(y1, m1, d1) == FormatDate(y2, m2, d2)
    ensures y1 == y2 && m1 == m2 && d1 == d2
  {
    Pad2RoundTrip(m1 + 1);
    Pad2RoundTrip(d1);
    Pad2RoundTrip(m2 + 1);
    Pad2RoundTrip(d2);
    SplitFieldsInjective(IntToString(y1), Pad2(m1 + 1), Pad2(d1), IntToString(y2), Pad2(m2 + 1), Pad2(d2));
    assert NatToString(y1) == IntToString(y1) == IntToString(y2) == NatToString(y2);
    NatToStringInjective(y1, y2);
  }

  /** `getTodayDate()`: the local date as YYYY-MM-DD (the year unpadded). */
  function TodayDate(now: Clock): string {
    FormatDate(now.year, now.month0, now.day)
  }

  /** `isToday(date)`. */
  predicate IsToday(date: string, now: Clock) {
    date == TodayDate(now)
  }

  /** The layout of `getTodayDate()`: the unpadded year, then the one-based
      month and the day, each as two digits that read back as the number. */
  lemma TodayDateLayout(now: Clock)
    ensures var s, y := TodayDate(now), IntToString(now.year);
      var n := |y|;
      && |s| == n + 6
      && s[..n] == y && s[n] == '-' && s[n + 3] == '-'
      && AllDigits(s[n + 1..n + 3]) && DigitsValue(s[n + 1..n + 3]) == now.month0 + 1
      && AllDigits(s[n + 4..]) && DigitsValue(s[n + 4..]) == now.day
  {
    FormatDateFields(now.year, now.month0, now.day);
    Pad2RoundTrip(now.month0 + 1);
    Pad2RoundTrip(now.day);
  }

  /** `isToday` holds of a formatted date exactly when it is today's date. */
  lemma IsTodayIffSameDate(year: nat, month0: nat, day: nat, now: Clock)
    requires month0 < 12 && 1 <= day <= 31
    ensures IsToday(FormatDate(year, month0, day), now) <==>
      year == now.year && month0 == now.month0 && day == now.day
  {
    if IsToday(FormatDate(year, month0, day), now) {
      FormatDateInjective(year, month0, day, now.year, now.month0, now.day);
    }
  }

  /** The day identifier tells the calendar day apart: two clocks give the
      same identifier exactly when they are on the same date. */
  lemma TodayDateIdentifiesDay(a: Clock, b: Clock)
    ensures TodayDate(a) == TodayDate(b) <==> (a.year == b.year && a.month0 == b.month0 && a.day == b.day)
  {
    if TodayDate(a) == TodayDate(b) {
      FormatDateInjective(a.year, a.month0, a.day, b.year, b.month0, b.day);
    }
  }

  // ---------------------------------------------------------------------------
  // String order

  /** `x.localeCompare(y)` on identifier strings, taken as plain lexicographic
      order of characters. */
  function LocaleCompare(x: string, y: string): (c: int)
    ensures -1 <= c <= 1
  {
    if x == [] && y == [] then 0
    else if x == [] then -1
    else if y == [] then 1
    else if x[0] < y[0] then -1
    else if x[0] > y[0] then 1
    else LocaleCompare(x[1..], y[1..])
  }

  /** `compareDates(a, b)`, which is `b.localeCompare(a)`: newest first. */
  function CompareDates(a: string, b: string): int {
    LocaleCompare(b, a)
  }

  /** Length of the longest common prefix of x and y. */
  function CommonPrefix(x: string, y: string): (k: nat)
    ensures k <= |x| && k <= |y| && x[..k] == y[..k]
    ensures k < |x| && k < |y| ==> x[k] != y[k]
  {
    if x == [] || y == [] || x[0] != y[0] then 0 else 1 + CommonPrefix(x[1..], y[1..])
  }

  /** Lexicographic order: y properly extends x, or x has the smaller character
      where they first differ. */
  predicate LexLess(x: string, y: string) {
    var k := CommonPrefix(x, y);
    k < |y| && (k == |x| || x[k] < y[k])
  }

  lemma {:induction false} LocaleCompareIsLexOrder(x: string, y: string)
    ensures LocaleCompare(x, y) < 0 <==> LexLess(x, y)
    ensures LocaleCompare(x, y) == 0 <==> x == y
    ensures LocaleCompare(x, y) > 0 <==> LexLess(y, x)
  {
    if x != [] && y != [] && x[0] == y[0] {
      LocaleCompareIsLexOrder(x[1..], y[1..]);
      assert CommonPrefix(x, y) == 1 + CommonPrefix(x[1..], y[1..]);
      assert CommonPrefix(y, x) == 1 + CommonPrefix(y[1..], x[1..]);
      assert x == [x[0]] + x[1..] && y == [y[0]] + y[1..];
    }
  }

  lemma {:induction false} LocaleCompareTransitive(x: string, y: string, z: string)
    requires LocaleCompare(x, y) <= 0 && LocaleCompare(y, z) <= 0
    ensures LocaleCompare(x, z) <= 0
  {
    if x != [] && y != [] && z != [] && x[0] == y[0] == z[0] {
      LocaleCompareTransitive(x[1..], y[1..], z[1..]);
    }
  }

  lemma {:induction false} LocaleCompareAntisymmetric(x: string, y: string)
    ensures LocaleCompare(x, y) == -LocaleCompare(y, x)
  {
    if x != [] && y != [] && x[0] == y[0] {
      LocaleCompareAntisymmetric(x[1..], y[1..]);
    }
  }

  /** compareDates is negative exactly when a comes after b, zero exactly when
      they are equal, and antisymmetric: the order it sorts by is newest first. */
  lemma CompareDatesOrder(a: string, b: string)
    ensures CompareDates(a, b) < 0 <==> LexLess(b, a)
    ensures CompareDates(a, b) == 0 <==> a == b
    ensures CompareDates(a, b) == -CompareDates(b, a)
  {
    LocaleCompareIsLexOrder(b, a);
    LocaleCompareAntisymmetric(a, b);
  }

  lemma CompareDatesTransitive(a: string, b: string, c: string)
    requires CompareDates(a, b) <= 0 && CompareDates(b, c) <= 0
    ensures CompareDates(a, c) <= 0
  {
    LocaleCompareTransitive(c, b, a);
  }

  // ---------------------------------------------------------------------------
  // String order and the calendar

  /** -1, 0 or 1 as a is below, equal to or above b. */
  function NumCompare(a: int, b: int): (c: int)
    ensures c < 0 <==> a < b
    ensures c == 0 <==> a == b
    ensures -1 <= c <= 1
  {
    if a < b then -1 else if a > b then 1 else 0
  }

  lemma LocaleCompareCons(c: char, x: string, d: char, y: string)
    ensures LocaleCompare([c] + x, [d] + y) == if c < d then -1 else if c > d then 1 else LocaleCompare(x, y)
  {
    assert ([c] + x)[1..] == x && ([d] + y)[1..] == y;
  }

  /** Comparing two strings that start with fields of equal width: the first
      fields decide unless they are equal. */
  lemma {:induction false} LocaleCompareAppend(x1: string, r1: string, x2: string, r2: string)
    requires |x1| == |x2|
    ensures LocaleCompare(x1 + r1, x2 + r2) == if x1 == x2 then LocaleCompare(r1, r2) else LocaleCompare(x1, x2)
  {
    if x1 == [] {
      assert x1 + r1 == r1 && x2 + r2 == r2;
    } else {
      LocaleCompareAppend(x1[1..], r1, x2[1..], r2);
      assert x1 + r1 == [x1[0]] + (x1[1..] + r1);
      assert x2 + r2 == [x2[0]] + (x2[1..] + r2);
      LocaleCompareCons(x1[0], x1[1..] + r1, x2[0], x2[1..] + r2);
      assert x1 == [x1[0]] + x1[1..] && x2 == [x2[0]] + x2[1..];
      LocaleCompareCons(x1[0], x1[1..], x2[0], x2[1..]);
    }
  }

  lemma TwoDigits(n: nat)
    requires n < 100
    ensures Pad2(n) == [DigitChar(n / 10), DigitChar(n % 10)]
  {
    if n < 10 {
      assert NatToString(n) == [DigitChar(n)];
      assert PadStart([DigitChar(n)], 2, '0') == PadStart(['0', DigitChar(n)], 2, '0');
    } else {
      assert NatToString(n / 10) == [DigitChar(n / 10)];
      assert NatToString(n) == [DigitChar(n / 10), DigitChar(n % 10)];
    }
  }

  lemma FourDigits(n: nat)
    requires 1000 <= n < 10000
    ensures NatToString(n) == [DigitChar(n / 1000), DigitChar(n / 100 % 10), DigitChar(n / 10 % 10), DigitChar(n % 10)]
  {
    assert n / 10 / 10 == n / 100 && n / 100 / 10 == n / 1000;
    assert NatToString(n / 1000) == [DigitChar(n / 1000)];
    assert NatToString(n / 100) == [DigitChar(n / 1000), DigitChar(n / 100 % 10)];
    assert NatToString(n / 10) == [DigitChar(n / 1000), DigitChar(n / 100 % 10), DigitChar(n / 10 % 10)];
  }

  /** A number compares with another as its leading part does, and as its
      last digit does when the leading parts are equal. */
  lemma LastDigitOrder(a: nat, b: nat)
    ensures NumCompare(a, b) == if a / 10 != b / 10 then NumCompare(a / 10, b / 10) else NumCompare(a % 10, b % 10)
  {
    assert a == a / 10 * 10 + a % 10 && b == b / 10 * 10 + b % 10;
  }

  /** Comparing strings one character longer than others, position by position. */
  lemma LocaleCompareSnoc(x: string, c: char, y: string, d: char)
    requires |x| == |y|
    ensures LocaleCompare(x + [c], y + [d]) == if x != y then LocaleCompare(x, y) else NumCompare(c as int, d as int)
  {
    LocaleCompareAppend(x, [c], y, [d]);
    LocaleCompareCons(c, [], d, []);
  }

  /** Decimal strings of equal length compare as their numbers. */
  lemma {:induction false} EqualLengthOrder(a: nat, b: nat)
    requires |NatToString(a)| == |NatToString(b)|
    ensures LocaleCompare(NatToString(a), NatToString(b)) == NumCompare(a, b)
  {
    var sa, sb := NatToString(a), NatToString(b);
    if a < 10 {
      assert b < 10;
      assert sa == [] + [DigitChar(a)] && sb == [] + [DigitChar(b)];
      LocaleCompareSnoc([], DigitChar(a), [], DigitChar(b));
    } else {
      assert b >= 10;
      EqualLengthOrder(a / 10, b / 10);
      LocaleCompareSnoc(NatToString(a / 10), DigitChar(a % 10), NatToString(b / 10), DigitChar(b % 10));
      LastDigitOrder(a, b);
      if a / 10 == b / 10 {
        assert NatToString(a / 10) == NatToString(b / 10);
      } else {
        assert NatToString(a / 10) != NatToString(b / 10) by {
          NatToStringRoundTrip(a / 10);
          NatToStringRoundTrip(b / 10);
        }
      }
    }
  }

  lemma DigitPairOrder(a: nat, b: nat)
    requires a < 100 && b < 100
    ensures LocaleCompare([DigitChar(a / 10), DigitChar(a % 10)], [DigitChar(b / 10), DigitChar(b % 10)]) == NumCompare(a, b)
  {
    var x, y := [DigitChar(a / 10)], [DigitChar(b / 10)];
    assert x == [] + [DigitChar(a / 10)] && y == [] + [DigitChar(b / 10)];
    LocaleCompareSnoc([], DigitChar(a / 10), [], DigitChar(b / 10));
    LocaleCompareSnoc(x, DigitChar(a % 10), y, DigitChar(b % 10));
    LastDigitOrder(a, b);
  }

  /** Two-digit fields compare as their numbers. */
  lemma TwoDigitOrder(a: nat, b: nat)
    requires a < 100 && b < 100
    ensures LocaleCompare(Pad2(a), Pad2(b)) == NumCompare(a, b)
  {
    TwoDigits(a);
    TwoDigits(b);
    DigitPairOrder(a, b);
  }

  /** Four-digit years compare as their numbers. */
  lemma FourDigitOrder(a: nat, b: nat)
    requires 1000 <= a < 10000 && 1000 <= b < 10000
    ensures LocaleCompare(NatToString(a), NatToString(b)) == NumCompare(a, b)
  {
    FourDigits(a);
    FourDigits(b);
    EqualLengthOrder(a, b);
  }

  /** Whether the calendar date (y1, m1, d1) comes before (y2, m2, d2). */
  predicate EarlierDate(y1: int, m1: int, d1: int, y2: int, m2: int, d2: int) {
    y1 < y2 || (y1 == y2 && (m1 < m2 || (m1 == m2 && d1 < d2)))
  }

  /** For four-digit years, the order compareDates sorts day and week
      identifiers by is the calendar order, newest first: a sorts before b
      exactly when a is the later date. */
  lemma CompareDatesIsChronological(y1: nat, m1: nat, d1: nat, y2: nat, m2: nat, d2: nat)
    requires 1000 <= y1 < 10000 && 1000 <= y2 < 10000
    requires m1 < 12 && m2 < 12 && d1 < 100 && d2 < 100
    ensures CompareDates(FormatDate(y1, m1, d1), FormatDate(y2, m2, d2)) < 0 <==> EarlierDate(y2, m2, d2, y1, m1, d1)
    ensures CompareDates(FormatDate(y1, m1, d1), FormatDate(y2, m2, d2)) == 0 <==> (y1 == y2 && m1 == m2 && d1 == d2)
  {
    YearFieldFirst(y2, m2, d2, y1, m1, d1);
    MonthDayOrder(m2 + 1, d2, m1 + 1, d1);
  }

  /** Day identifiers with four-digit years compare by year first. */
  lemma YearFieldFirst(y1: nat, m1: nat, d1: nat, y2: nat, m2: nat, d2: nat)
    requires 1000 <= y1 < 10000 && 1000 <= y2 < 10000
    ensures LocaleCompare(FormatDate(y1, m1, d1), FormatDate(y2, m2, d2)) ==
      if y1 != y2 then NumCompare(y1, y2)
      else LocaleCompare("-" + Pad2(m1 + 1) + "-" + Pad2(d1), "-" + Pad2(m2 + 1) + "-" + Pad2(d2))
  {
    var r1, r2 := "-" + Pad2(m1 + 1) + "-" + Pad2(d1), "-" + Pad2(m2 + 1) + "-" + Pad2(d2);
    var s1, s2 := NatToString(y1), NatToString(y2);
    YearWidth(y1);
    YearWidth(y2);
    FourDigitOrder(y1, y2);
    FormatDateSplit(y1, m1, d1);
    FormatDateSplit(y2, m2, d2);
    FieldFirst(s1, r1, s2, r2, y1, y2);
  }

  lemma FormatDateSplit(y: nat, m: nat, d: nat)
    ensures FormatDate(y, m, d) == NatToString(y) + ("-" + Pad2(m + 1) + "-" + Pad2(d))
  {
    var a, b, c := Pad2(m + 1), Pad2(d), NatToString(y);
    assert c + "-" + a + "-" + b == c + ("-" + a + "-" + b);
  }

  lemma YearWidth(n: nat)
    requires 1000 <= n < 10000
    ensures |NatToString(n)| == 4
  {
    FourDigits(n);
  }

  /** Strings that start with equal-width fields standing for the numbers a and
      b, compared as those numbers. */
  lemma FieldFirst(s1: string, r1: string, s2: string, r2: string, a: int, b: int)
    requires |s1| == |s2| && LocaleCompare(s1, s2) == NumCompare(a, b)
    ensures LocaleCompare(s1 + r1, s2 + r2) == if a != b then NumCompare(a, b) else LocaleCompare(r1, r2)
  {
    LocaleCompareAppend(s1, r1, s2, r2);
    LocaleCompareIsLexOrder(s1, s2);
  }

  /** The month-and-day tail of a day identifier compares as (month, day). */
  lemma MonthDayOrder(m1: nat, d1: nat, m2: nat, d2: nat)
    requires m1 < 100 && d1 < 100 && m2 < 100 && d2 < 100
    ensures var c := LocaleCompare("-" + Pad2(m1) + "-" + Pad2(d1), "-" + Pad2(m2) + "-" + Pad2(d2));
      c == if m1 != m2 then NumCompare(m1, m2) else NumCompare(d1, d2)
  {
    var p1, p2 := Pad2(m1), Pad2(m2);
    var q1, q2 := Pad2(d1), Pad2(d2);
    Pad2RoundTrip(m1);
    Pad2RoundTrip(m2);
    TwoDigitOrder(m1, m2);
    TwoDigitOrder(d1, d2);
    assert "-" + p1 + "-" + q1 == [('-')] + (p1 + ([('-')] + q1));
    assert "-" + p2 + "-" + q2 == [('-')] + (p2 + ([('-')] + q2));
    LocaleCompareCons('-', p1 + ([('-')] + q1), '-', p2 + ([('-')] + q2));
    LocaleCompareAppend(p1, [('-')] + q1, p2, [('-')] + q2);
    LocaleCompareCons('-', q1, '-', q2);
    if m1 != m2 {
      assert p1 != p2 by {
        assert DigitsValue(p1) != DigitsValue(p2);
      }
    }
  }

  // ---------------------------------------------------------------------------
  // Week identifiers

  function PrevMonth(year: int, month0: int): (r: (int, int))
    requires 0 <= month0 < 12
    ensures 0 <= r.1 < 12
  {
    if month0 == 0 then (year - 1, 11) else (year, month0 - 1)
  }

  function NextMonth(year: int, month0: int): (r: (int, int))
    requires 0 <= month0 < 12
    ensures 0 <= r.1 < 12
  {
    if month0 == 11 then (year + 1, 0) else (year, month0 + 1)
  }

  /** `new Date(year, month0, d)` for a day number outside the month: the
      deficit or surplus is carried into the preceding or following months. */
  function NormalizeDay(year: int, month0: int, d: int): (r: CalendarDate)
    requires 0 <= month0 < 12
    ensures 0 <= r.month0 < 12 && 1 <= r.day <= DaysInMonth(r.year, r.month0)
    decreases d < 1, if d < 1 then 1 - d else d
  {
    if d < 1 then
      var (py, pm) := PrevMonth(year, month0);
      NormalizeDay(py, pm, d + DaysInMonth(py, pm))
    else if d > DaysInMonth(year, month0) then
      var (ny, nm) := NextMonth(year, month0);
      NormalizeDay(ny, nm, d - DaysInMonth(year, month0))
    else
      CalendarDate(year, month0, d)
  }

  /** The Monday computed by `getCurrentWeek`: the day number
      `getDate() - getDay() + (getDay() == 0 ? -6 : 1)` in the current month. */
  function MondayOf(now: Clock): CalendarDate {
    var diff := now.day - now.weekday + (if now.weekday == 0 then -6 else 1);
    NormalizeDay(now.year, now.month0, diff)
  }

  /** `getCurrentWeek()`: the Monday of the current week as YYYY-MM-DD. */
  function CurrentWeek(now: Clock): string {
    var m := MondayOf(now);
    FormatDate(m.year, m.month0, m.day)
  }

  /** The day before d, with its day of the week. */
  function Yesterday(d: Day): (r: Day)
    requires WellFormed(d)
    ensures WellFormed(r)
  {
    var w := (d.weekday + 6) % 7;
    if d.day > 1 then Day(d.year, d.month0, d.day - 1, w)
    else
      var (py, pm) := PrevMonth(d.year, d.month0);
      Day(py, pm, DaysInMonth(py, pm), w)
  }

  /** The day k days before d, stepping back one day at a time. */
  function DaysBefore(d: Day, k: nat): (r: Day)
    requires WellFormed(d)
    ensures WellFormed(r)
  {
    if k == 0 then d else Yesterday(DaysBefore(d, k - 1))
  }

  lemma {:induction false} DaysBeforeWeekday(d: Day, k: nat)
    requires WellFormed(d)
    ensures DaysBefore(d, k).weekday == (d.weekday - k) % 7
  {
    if k > 0 {
      DaysBeforeWeekday(d, k - 1);
      WeekdayBack(d.weekday - k);
    }
  }

  /** Going back one day from the weekday after a is weekday a. */
  lemma WeekdayBack(a: int)
    ensures ((a + 1) % 7 + 6) % 7 == a % 7
  {
    var q := (a + 1) / 7;
    assert (a + 1) % 7 == a + 1 - 7 * q;
    assert (a + 1 - 7 * q + 6) % 7 == (a + 7 * (1 - q)) % 7;
  }

  /** Stepping back fewer days than the day of the month stays in the month. */
  lemma {:induction false} DaysBeforeInMonth(d: Day, k: nat)
    requires WellFormed(d) && k < d.day
    ensures var r := DaysBefore(d, k); r.year == d.year && r.month0 == d.month0 && r.day == d.day - k
  {
    if k > 0 {
      DaysBeforeInMonth(d, k - 1);
    }
  }

  /** Stepping back at least the day of the month lands in the previous month. */
  lemma {:induction false} DaysBeforeIntoPrevMonth(d: Day, k: nat)
    requires WellFormed(d)
    requires var (py, pm) := PrevMonth(d.year, d.month0); d.day <= k < d.day + DaysInMonth(py, pm)
    ensures var (py, pm) := PrevMonth(d.year, d.month0);
      var r := DaysBefore(d, k);
      r.year == py && r.month0 == pm && r.day == DaysInMonth(py, pm) + d.day - k
  {
    if k == d.day {
      DaysBeforeInMonth(d, k - 1);
    } else {
      DaysBeforeIntoPrevMonth(d, k - 1);
    }
  }

  /** getCurrentWeek names the day (getDay() + 6) % 7 days before today: that
      day is a Monday, it is never after today, and on a Sunday it is the
      Monday six days earlier. */
  lemma CurrentWeekIsMonday(now: Clock)
    ensures var k := (now.weekday + 6) % 7;
      var monday := DaysBefore(now, k);
      && k <= 6
      && (now.weekday == 0 ==> k == 6)
      && monday.weekday == 1
      && MondayOf(now) == CalendarDate(monday.year, monday.month0, monday.day)
      && CurrentWeek(now) == FormatDate(monday.year, monday.month0, monday.day)
  {
    var k := (now.weekday + 6) % 7;
    DaysBeforeWeekday(now, k);
    assert (now.weekday - k) % 7 == 1;
    var diff := now.day - now.weekday + (if now.weekday == 0 then -6 else 1);
    assert diff == now.day - k;
    if k < now.day {
      DaysBeforeInMonth(now, k);
    } else {
      DaysBeforeIntoPrevMonth(now, k);
      var (py, pm) := PrevMonth(now.year, now.month0);
      assert NormalizeDay(now.year, now.month0, diff) == NormalizeDay(py, pm, diff + DaysInMonth(py, pm));
    }
  }

  /** Stepping back j days from yesterday is stepping back j + 1 days. */
  lemma {:induction false} DaysBeforeShift(d: Day, j: nat)
    requires WellFormed(d)
    ensures DaysBefore(Yesterday(d), j) == DaysBefore(d, j + 1)
  {
    if j > 0 {
      DaysBeforeShift(d, j - 1);
    }
  }

  /** The week identifier names the day (getDay() + 6) % 7 days back. */
  lemma WeekIdIsDaysBefore(now: Clock)
    ensures var m := DaysBefore(now, (now.weekday + 6) % 7);
      CurrentWeek(now) == FormatDate(m.year, m.month0, m.day)
  {
    CurrentWeekIsMonday(now);
  }

  /** The week identifier stays the same from one day to the next, except
      into a Monday. */
  lemma WeekStable(now: Clock)
    requires now.weekday != 1 && Yesterday(now).year >= 100
    ensures CurrentWeek(Yesterday(now)) == CurrentWeek(now)
  {
    var y: Clock := Yesterday(now);
    var k := (now.weekday + 6) % 7;
    WeekdayStep(now.weekday);
    assert y.weekday == k;
    var j: nat := k - 1;
    assert (y.weekday + 6) % 7 == j;
    WeekIdIsDaysBefore(now);
    WeekIdIsDaysBefore(y);
    DaysBeforeShift(now, j);
  }

  /** Off a Monday, the day before is one day nearer its week's Monday. */
  lemma WeekdayStep(w: int)
    requires 0 <= w < 7 && w != 1
    ensures 1 <= (w + 6) % 7 && ((w + 6) % 7 + 6) % 7 == (w + 6) % 7 - 1
  {
  }

  /** A week back is another calendar date, so it has another identifier. */
  lemma WeekBackDiffers(d: Day)
    requires WellFormed(d) && d.year >= 1
    ensures var m := DaysBefore(d, 7); FormatDate(m.year, m.month0, m.day) != FormatDate(d.year, d.month0, d.day)
  {
    var m := DaysBefore(d, 7);
    if d.day > 7 {
      DaysBeforeInMonth(d, 7);
    } else {
      DaysBeforeIntoPrevMonth(d, 7);
    }
    if FormatDate(m.year, m.month0, m.day) == FormatDate(d.year, d.month0, d.day) {
      FormatDateInjective(m.year, m.month0, m.day, d.year, d.month0, d.day);
    }
  }

  /** The week identifier changes from Sunday to Monday: the new week's
      Monday is today, the old week's is seven days earlier. */
  lemma WeekChangesOnMonday(now: Clock)
    requires now.weekday == 1 && Yesterday(now).year >= 100
    ensures CurrentWeek(Yesterday(now)) != CurrentWeek(now)
  {
    var y: Clock := Yesterday(now);
    assert (now.weekday + 6) % 7 == 0 && (y.weekday + 6) % 7 == 6;
    WeekIdIsDaysBefore(now);
    WeekIdIsDaysBefore(y);
    DaysBeforeShift(now, 6);
    WeekBackDiffers(now);
  }

  // ---------------------------------------------------------------------------
  // Month and year identifiers

  /** `getCurrentMonth()`: YYYY-MM, the month one-based and padded. */
  function CurrentMonth(now: Clock): string {
    IntToString(now.year) + "-" + Pad2(now.month0 + 1)
  }

  /** `getCurrentYear()`: the year, unpadded. */
  function CurrentYear(now: Clock): string {
    IntToString(now.year)
  }

  /** The month identifier is the day identifier without its day field. */
  lemma MonthIdIsDayPrefix(now: Clock)
    ensures TodayDate(now) == CurrentMonth(now) + "-" + Pad2(now.day)
    ensures TodayDate(now)[..|CurrentMonth(now)|] == CurrentMonth(now)
  {
    HeadOfThree(CurrentMonth(now), "-", Pad2(now.day));
  }

  /** The first of three concatenated strings is a prefix of the whole. */
  lemma HeadOfThree(a: string, b: string, c: string)
    ensures (a + b + c)[..|a|] == a
  {
    var s := a + b + c;
    assert forall i :: 0 <= i < |a| ==> s[..|a|][i] == a[i];
  }

  /** The first of five concatenated strings is a prefix of the whole. */
  lemma HeadOfFields(a: string, b: string, c: string, d: string, e: string)
    ensures (a + b + c + d + e)[..|a|] == a
  {
    var s := a + b + c + d + e;
    assert forall i :: 0 <= i < |a| ==> s[..|a|][i] == a[i];
  }

  /** The year identifier is the month identifier without its month field,
      and so a prefix of the day identifier too. */
  lemma YearIdIsMonthPrefix(now: Clock)
    ensures CurrentMonth(now) == CurrentYear(now) + "-" + Pad2(now.month0 + 1)
    ensures TodayDate(now)[..|CurrentYear(now)|] == CurrentYear(now)
  {
    HeadOfFields(CurrentYear(now), "-", Pad2(now.month0 + 1), "-", Pad2(now.day));
  }

  /** The month identifier tells months apart: two clocks give the same one
      exactly when they are in the same month of the same year. */
  lemma MonthIdentifies(a: Clock, b: Clock)
    ensures CurrentMonth(a) == CurrentMonth(b) <==> a.year == b.year && a.month0 == b.month0
  {
    if CurrentMonth(a) == CurrentMonth(b) {
      assert FormatDate(a.year, a.month0, 1) == CurrentMonth(a) + "-" + Pad2(1);
      assert FormatDate(b.year, b.month0, 1) == CurrentMonth(b) + "-" + Pad2(1);
      FormatDateInjective(a.year, a.month0, 1, b.year, b.month0, 1);
    }
  }

  /** The year identifier tells years apart. */
  lemma YearIdentifies(a: Clock, b: Clock)
    ensures CurrentYear(a) == CurrentYear(b) <==> a.year == b.year
  {
    if CurrentYear(a) == CurrentYear(b) {
      NatToStringInjective(a.year, b.year);
    }
  }

  /** `isNewWeek(lastWeek)`. */
  predicate IsNewWeek(lastWeek: string, now: Clock) {
    lastWeek != CurrentWeek(now)
  }

  /** `isNewMonth(lastMonth)`. */
  predicate IsNewMonth(lastMonth: string, now: Clock) {
    lastMonth != CurrentMonth(now)
  }

  /** `isNewYear(lastYear)`. */
  predicate IsNewYear(lastYear: string, now: Clock) {
    lastYear != CurrentYear(now)
  }

  /** `formatYearDate(yearId)`: a year identifier is displayed as it is. */
  function FormatYearDate(yearId: string): (shown: string)
    ensures shown == yearId
  {
    yearId
  }
}

/** Splitting a date range into periods and picking one date a period (`poms/common/utils.py`). */
module Periods {
  import opened Calendar
  import opened BusinessDays

  datatype Frequency = Daily | Weekly | Monthly | Quarterly | Yearly

  // ----- Periods

  /** The first day of period j: weeks start on Monday, and ordinal 1 is a Monday. */
  function PeriodStart(f: Frequency, j: int): Day {
    match f
    case Daily => j
    case Weekly => 7 * j + 1
    case Monthly => MonthStart(j)
    case Quarterly => MonthStart(3 * j)
    case Yearly => MonthStart(12 * j)
  }

  function PeriodEnd(f: Frequency, j: int): Day {
    PeriodStart(f, j + 1) - 1
  }

  function PeriodOf(f: Frequency, n: Day): (j: int)
    ensures PeriodStart(f, j) <= n <= PeriodEnd(f, j)
  {
    PeriodBracket(f, n);
    match f
    case Daily => n
    case Weekly => (n - 1) / 7
    case Monthly => MonthOf(n)
    case Quarterly => MonthOf(n) / 3
    case Yearly => MonthOf(n) / 12
  }

  lemma PeriodBracket(f: Frequency, n: Day)
    ensures var m := MonthOf(n);
            var j := match f case Daily => n case Weekly => (n - 1) / 7 case Monthly => m case Quarterly => m / 3 case Yearly => m / 12;
            PeriodStart(f, j) <= n < PeriodStart(f, j + 1)
  {
    hide MonthLength, MonthStart, MonthOf;
    var m := MonthOf(n);
    match f {
      case Quarterly =>
        MonthStartMonotone(3 * (m / 3), m);
        MonthStartMonotone(m + 1, 3 * (m / 3) + 3);
      case Yearly =>
        MonthStartMonotone(12 * (m / 12), m);
        MonthStartMonotone(m + 1, 12 * (m / 12) + 12);
      case _ =>
    }
  }

  lemma PeriodStartIncreases(f: Frequency, i: int, j: int)
    requires i <= j
    ensures PeriodStart(f, i) + (if f == Daily then 1 else 7) * (j - i) <= PeriodStart(f, j)
  {
    hide MonthLength, MonthStart, MonthOf;
    match f {
      case Monthly => MonthStartMonotone(i, j);
      case Quarterly => MonthStartMonotone(3 * i, 3 * j);
      case Yearly => MonthStartMonotone(12 * i, 12 * j);
      case _ =>
    }
  }

  lemma PeriodOfUnique(f: Frequency, n: Day, j: int)
    requires PeriodStart(f, j) <= n <= PeriodEnd(f, j)
    ensures PeriodOf(f, n) == j
  {
    hide PeriodStart, PeriodOf;
    var i := PeriodOf(f, n);
    if i < j {
      PeriodStartIncreases(f, i + 1, j);
    } else if j < i {
      PeriodStartIncreases(f, j + 1, i);
    }
  }

  /** A day that starts a period. */
  predicate IsAnchor(f: Frequency, n: Day) {
    PeriodStart(f, PeriodOf(f, n)) == n
  }

  /** Anchors in calendar terms. */
  lemma AnchorMeaning(f: Frequency, n: Day)
    ensures IsAnchor(f, n) <==>
              match f
              case Daily => true
              case Weekly => Weekday(n) == 0
              case Monthly => DayOf(n) == 1
              case Quarterly => DayOf(n) == 1 && MonthNumber(n) in {1, 4, 7, 10}
              case Yearly => DayOf(n) == 1 && MonthNumber(n) == 1
  {
    hide MonthLength, MonthStart, MonthOf;
    var m := MonthOf(n);
    match f {
      case Quarterly =>
        assert m % 12 == m - 12 * (m / 12);
        QuarterIndex(m);
        if 3 * (m / 3) < m {
          MonthStartMonotone(3 * (m / 3), m);
        }
      case Yearly =>
        if 12 * (m / 12) < m {
          MonthStartMonotone(12 * (m / 12), m);
        }
      case _ =>
    }
  }

  lemma QuarterIndex(m: int)
    ensures 3 * (m / 3) == m <==> m % 12 in {0, 3, 6, 9}
  {
    assert m == 12 * (m / 12) + m % 12;
    assert m == 3 * (4 * (m / 12) + (m % 12) / 3) + (m % 12) % 3;
  }

  // ----- The offset tables

  /** `calc_shift_date_map[f]`: except for days, the latest anchor strictly before the date. */
  function StartShift(f: Frequency, n: Day): Day {
    var j := PeriodOf(f, n);
    if f == Daily then n
    else if PeriodStart(f, j) == n then PeriodStart(f, j - 1)
    else PeriodStart(f, j)
  }

  /** `calc_shift_date_map["E" + f]`. */
  function EndShift(f: Frequency, n: Day): Day {
    var j := PeriodOf(f, n);
    match f
    case Daily => n
    case Weekly => if Weekday(n) != 6 then n + 6 else n
    case Monthly => PeriodEnd(f, j)
    case _ => if PeriodEnd(f, j) == n then PeriodEnd(f, j + 1) else PeriodEnd(f, j)
  }

  /** The dates an anchored offset of `frequency_map` stops at: period starts, or period ends. */
  function Mark(f: Frequency, start: bool, j: int): Day {
    if start || f == Daily then PeriodStart(f, j) else PeriodEnd(f, j)
  }

  lemma MarksIncrease(f: Frequency, start: bool, i: int, j: int)
    requires i < j
    ensures Mark(f, start, i) + (if f == Daily then 1 else 7) * (j - i) <= Mark(f, start, j)
  {
    hide PeriodStart;
    PeriodStartIncreases(f, i, j);
    PeriodStartIncreases(f, i + 1, j + 1);
  }

  function Marks(f: Frequency, start: bool, j: int, end: Day): seq<Day>
    decreases end - Mark(f, start, j)
  {
    MarksIncrease(f, start, j, j + 1);
    if end < Mark(f, start, j) then [] else [Mark(f, start, j)] + Marks(f, start, j + 1, end)
  }

  /** The plain week offset is not anchored: it steps seven days from wherever it starts. */
  function WeekSteps(n: Day, end: Day): seq<Day>
    decreases end - n
  {
    if end < n then [] else [n] + WeekSteps(n + 7, end)
  }

  /** The index of the first mark not before n, where `pd.date_range` rolls its start to. */
  function FirstMark(f: Frequency, start: bool, n: Day): int {
    var j := PeriodOf(f, n);
    if start && !IsAnchor(f, n) then j + 1 else j
  }

  /** `pd.date_range(start=n, end=end, freq=frequency_map[...]())`. */
  function DateRange(f: Frequency, start: bool, n: Day, end: Day): seq<Day> {
    if f == Weekly then WeekSteps(n, end) else Marks(f, start, FirstMark(f, start, n), end)
  }

  /** s holds the marks from number j on that are not after end. */
  ghost predicate AreMarks(s: seq<Day>, f: Frequency, start: bool, j: int, end: Day) {
    && (forall i | 0 <= i < |s| :: s[i] == Mark(f, start, j + i) <= end)
    && end < Mark(f, start, j + |s|)
  }

  lemma {:induction false} MarksAt(f: Frequency, start: bool, j: int, end: Day)
    ensures AreMarks(Marks(f, start, j, end), f, start, j, end)
    decreases end - Mark(f, start, j)
  {
    hide Mark, AreMarks;
    MarksIncrease(f, start, j, j + 1);
    if Mark(f, start, j) <= end {
      MarksAt(f, start, j + 1, end);
      MarksAtStep(f, start, j, end, Marks(f, start, j + 1, end));
    } else {
      NoMarks(f, start, j, end);
    }
  }

  lemma NoMarks(f: Frequency, start: bool, j: int, end: Day)
    requires end < Mark(f, start, j)
    ensures AreMarks([], f, start, j, end)
  {
  }

  lemma MarksAtStep(f: Frequency, start: bool, j: int, end: Day, rest: seq<Day>)
    requires Mark(f, start, j) <= end && AreMarks(rest, f, start, j + 1, end)
    ensures AreMarks([Mark(f, start, j)] + rest, f, start, j, end)
  {
    hide Mark;
    var s := [Mark(f, start, j)] + rest;
    assert j + 1 + |rest| == j + |s|;
    forall i | 0 <= i < |s|
      ensures s[i] == Mark(f, start, j + i) <= end
    {
      if i == 0 {
        assert j + i == j;
      } else {
        assert s[i] == rest[i - 1] == Mark(f, start, j + 1 + (i - 1));
        assert j + 1 + (i - 1) == j + i;
      }
    }
  }

  lemma {:induction false} WeekStepsAreMarks(j: int, end: Day)
    ensures WeekSteps(PeriodStart(Weekly, j), end) == Marks(Weekly, true, j, end)
    decreases end - PeriodStart(Weekly, j)
  {
    if PeriodStart(Weekly, j) <= end {
      WeekStepsAreMarks(j + 1, end);
    }
  }

  /** Except for days, the start offset goes to the latest anchor strictly before the date. */
  lemma StartShiftMeaning(f: Frequency, n: Day)
    ensures f == Daily ==> StartShift(f, n) == n
    ensures f != Daily ==>
              && IsAnchor(f, StartShift(f, n)) && StartShift(f, n) < n
              && forall a | IsAnchor(f, a) && a < n :: a <= StartShift(f, n)
  {
    hide PeriodStart, PeriodOf;
    var j := PeriodOf(f, n);
    var k := if PeriodStart(f, j) == n then j - 1 else j;
    PeriodStartIncreases(f, k, k + 1);
    PeriodOfUnique(f, PeriodStart(f, k), k);
    PeriodStartIncreases(f, j - 1, j);
    forall a | IsAnchor(f, a) && a < n && f != Daily
      ensures a <= StartShift(f, n)
    {
      var i := PeriodOf(f, a);
      if i <= k {
        PeriodStartIncreases(f, i, k);
      } else {
        PeriodStartIncreases(f, k + 1, i);
      }
    }
  }

  /** A day before an anchor. */
  predicate IsPeriodEnd(f: Frequency, a: Day) {
    IsAnchor(f, a + 1)
  }

  /**
   The end offset of months goes to the first month end not before the date, that of quarters and
   years to the first end strictly after it, and that of weeks six days on unless it is a Sunday.
   */
  lemma EndShiftMeaning(f: Frequency, n: Day)
    ensures f == Daily ==> EndShift(f, n) == n
    ensures f == Weekly ==> EndShift(f, n) == if Weekday(n) == 6 then n else n + 6
    ensures f != Daily && f != Weekly ==>
              var e := EndShift(f, n);
              && IsPeriodEnd(f, e) && (if f == Monthly then n <= e else n < e)
              && forall a | IsPeriodEnd(f, a) && (n < a || (f == Monthly && n == a)) :: e <= a
  {
    hide PeriodStart, PeriodOf;
    if f != Daily && f != Weekly {
      var j := PeriodOf(f, n);
      var k := if f != Monthly && PeriodEnd(f, j) == n then j + 1 else j;
      PeriodStartIncreases(f, j + 1, j + 2);
      PeriodStartIncreases(f, k + 1, k + 2);
      PeriodOfUnique(f, PeriodStart(f, k + 1), k + 1);
      forall a | IsPeriodEnd(f, a) && (n < a || (f == Monthly && n == a))
        ensures EndShift(f, n) <= a
      {
        var i := PeriodOf(f, a + 1);
        if k + 1 <= i {
          PeriodStartIncreases(f, k + 1, i);
        } else {
          PeriodStartIncreases(f, i, k);
          PeriodStartIncreases(f, i, j);
        }
      }
    }
  }

  // ----- split_date_range

  datatype Pair = Pair(first: Day, last: Day)

  function PairFor(f: Frequency, sd: Day, onlyBday: bool): Pair {
    var ed := EndShift(f, sd);
    if onlyBday then Pair(NextBusinessDay(sd), LastBusinessDay(ed)) else Pair(sd, ed)
  }

  /** Weekend days are dropped only from daily splits. */
  predicate Skipped(f: Frequency, d: Day, onlyBday: bool) {
    onlyBday && f == Daily && !IsBusinessDay(d)
  }

  function PairsFor(f: Frequency, ranges: seq<Day>, onlyBday: bool): seq<Pair> {
    if ranges == [] then []
    else
      var n := |ranges| - 1;
      PairsFor(f, ranges[..n], onlyBday)
      + if Skipped(f, ranges[n], onlyBday) then [] else [PairFor(f, ranges[n], onlyBday)]
  }

  function Split(startDate: Day, endDate: Day, f: Frequency, onlyBday: bool): seq<Pair> {
    PairsFor(f, DateRange(f, true, StartShift(f, startDate), endDate), onlyBday)
  }

  /** `split_date_range`; dates stand for their formatted strings. */
  method SplitDateRange(startDate: Day, endDate: Day, f: Frequency, onlyBday: bool) returns (datePairs: seq<Pair>)
    ensures datePairs == Split(startDate, endDate, f, onlyBday)
  {
    hide StartShift, EndShift, DateRange, IsBusinessDay, NextBusinessDay, LastBusinessDay;
    var ranges := DateRange(f, true, StartShift(f, startDate), endDate);
    datePairs := [];
    var i := 0;
    while i < |ranges|
      invariant 0 <= i <= |ranges|
      invariant datePairs == PairsFor(f, ranges[..i], onlyBday)
    {
      var sd := ranges[i];
      assert ranges[..i + 1][..i] == ranges[..i];
      i := i + 1;
      var ed := EndShift(f, sd);
      if onlyBday {
        if f == Daily && !IsBusinessDay(sd) {
          continue;
        }
        sd := ShiftToBday(sd, 1);
        ed := ShiftToBday(ed, -1);
      }
      datePairs := datePairs + [Pair(sd, ed)];
    }
    assert ranges[..i] == ranges;
  }

  lemma {:induction false} PairsForAt(f: Frequency, ranges: seq<Day>, onlyBday: bool)
    requires !(f == Daily && onlyBday)
    ensures |PairsFor(f, ranges, onlyBday)| == |ranges|
    ensures forall i | 0 <= i < |ranges| :: PairsFor(f, ranges, onlyBday)[i] == PairFor(f, ranges[i], onlyBday)
  {
    hide PairFor;
    if ranges != [] {
      PairsForAt(f, ranges[..|ranges| - 1], onlyBday);
    }
  }

  /** The index of the first period of the split: one period early when the start date is an anchor. */
  function FirstPeriod(f: Frequency, startDate: Day): int {
    if f != Daily && IsAnchor(f, startDate) then PeriodOf(f, startDate) - 1 else PeriodOf(f, startDate)
  }

  lemma DailyPeriods(n: Day)
    ensures PeriodOf(Daily, n) == n && PeriodStart(Daily, n) == n
  {
  }

  lemma RangeOfSplit(f: Frequency, startDate: Day, endDate: Day)
    ensures StartShift(f, startDate) == PeriodStart(f, FirstPeriod(f, startDate))
    ensures DateRange(f, true, StartShift(f, startDate), endDate)
            == Marks(f, true, FirstPeriod(f, startDate), endDate)
  {
    hide PeriodStart, PeriodOf, Marks, WeekSteps;
    var j := FirstPeriod(f, startDate);
    DailyPeriods(startDate);
    PeriodStartIncreases(f, j, j + 1);
    PeriodOfUnique(f, PeriodStart(f, j), j);
    if f == Weekly {
      WeekStepsAreMarks(j, endDate);
    }
  }

  lemma EndOfAnchor(f: Frequency, j: int)
    ensures EndShift(f, PeriodStart(f, j)) == PeriodEnd(f, j)
    ensures PeriodStart(f, j) + (if f == Daily then 0 else 6) <= PeriodEnd(f, j)
  {
    hide MonthLength, MonthStart, MonthOf, PeriodOf;
    PeriodStartIncreases(f, j, j + 1);
    PeriodOfUnique(f, PeriodStart(f, j), j);
  }

  /** p is what the split reports for period k. */
  predicate Reports(p: Pair, f: Frequency, k: int, endDate: Day, onlyBday: bool) {
    && PeriodStart(f, k) <= endDate
    && p == if onlyBday then Pair(NextBusinessDay(PeriodStart(f, k)), LastBusinessDay(PeriodEnd(f, k)))
            else Pair(PeriodStart(f, k), PeriodEnd(f, k))
  }

  /** The split as a closed form: pair i is built from period number FirstPeriod + i. */
  lemma SplitAt(startDate: Day, endDate: Day, f: Frequency, onlyBday: bool)
    requires !(f == Daily && onlyBday)
    ensures var s, j := Split(startDate, endDate, f, onlyBday), FirstPeriod(f, startDate);
            && endDate < PeriodStart(f, j + |s|)
            && forall i | 0 <= i < |s| :: Reports(s[i], f, j + i, endDate, onlyBday)
  {
    hide PeriodStart, PeriodOf, PeriodEnd, EndShift, StartShift, DateRange, FirstPeriod, NextBusinessDay, LastBusinessDay;
    hide Marks;
    var s, j := Split(startDate, endDate, f, onlyBday), FirstPeriod(f, startDate);
    RangeOfSplit(f, startDate, endDate);
    MarksAt(f, true, j, endDate);
    PairsForAt(f, Marks(f, true, j, endDate), onlyBday);
    var marks := Marks(f, true, j, endDate);
    forall i | 0 <= i < |s|
      ensures Reports(s[i], f, j + i, endDate, onlyBday)
    {
      assert marks[i] == Mark(f, true, j + i);
      EndOfAnchor(f, j + i);
    }
  }

  /**
   Without business-day adjustment the pairs tile time: none is empty, each starts the day after
   the previous one ends, and together they cover [startDate, endDate]. The first pair lies wholly
   before startDate exactly when startDate itself is an anchor of a frequency other than daily.
   */
  lemma SplitTiles(startDate: Day, endDate: Day, f: Frequency)
    ensures var s := Split(startDate, endDate, f, false);
            && (forall i | 0 <= i < |s| :: s[i].first <= s[i].last)
            && (forall i | 0 <= i < |s| - 1 :: s[i + 1].first == s[i].last + 1)
            && (startDate <= endDate ==>
                  && |s| > 0 && s[0].first <= startDate && endDate <= s[|s| - 1].last
                  && (s[0].last < startDate <==> f != Daily && IsAnchor(f, startDate)))
  {
    hide PeriodStart, PeriodOf, Split, NextBusinessDay, LastBusinessDay;
    var s, j := Split(startDate, endDate, f, false), FirstPeriod(f, startDate);
    SplitAt(startDate, endDate, f, false);
    forall i | 0 <= i < |s|
      ensures s[i].first <= s[i].last
    {
      assert Reports(s[i], f, j + i, endDate, false);
      PeriodStartIncreases(f, j + i, j + i + 1);
    }
    forall i | 0 <= i < |s| - 1
      ensures s[i + 1].first == s[i].last + 1
    {
      assert Reports(s[i], f, j + i, endDate, false);
      assert Reports(s[i + 1], f, j + (i + 1), endDate, false);
    }
    PeriodStartIncreases(f, j, j + 1);
    if |s| > 0 {
      assert Reports(s[0], f, j + 0, endDate, false);
      assert Reports(s[|s| - 1], f, j + (|s| - 1), endDate, false);
    }
    PeriodOfUnique(f, PeriodStart(f, j), j);
  }

  /** What a business-day split promises. */
  ghost predicate IsBusinessSplit(s: seq<Pair>, startDate: Day, endDate: Day) {
    && (forall i | 0 <= i < |s| ::
          IsBusinessDay(s[i].first) && IsBusinessDay(s[i].last) && s[i].first <= s[i].last)
    // later pairs start later, and only weekend days separate neighbours
    && (forall i, k | 0 <= i < k < |s| :: s[i].last < s[k].first)
    && (forall i, d | 0 <= i < |s| - 1 && s[i].last < d < s[i + 1].first :: !IsBusinessDay(d))
    // every business day of the range is in a pair
    && (forall d | startDate <= d <= endDate && IsBusinessDay(d) ::
          exists i :: 0 <= i < |s| && s[i].first <= d <= s[i].last)
  }

  /** No day lies in two pairs of a business-day split. */
  lemma PairIsUnique(s: seq<Pair>, startDate: Day, endDate: Day, d: Day, i: nat, k: nat)
    requires IsBusinessSplit(s, startDate, endDate)
    requires i < |s| && s[i].first <= d <= s[i].last
    requires k < |s| && s[k].first <= d <= s[k].last
    ensures i == k
  {
  }

  /** A run of at least seven days keeps its business days when both ends are pulled in to one. */
  lemma PulledIn(a: Day, b: Day)
    requires a + 6 <= b
    ensures a <= NextBusinessDay(a) <= LastBusinessDay(b) <= b
    ensures forall d | a <= d <= b && IsBusinessDay(d) :: NextBusinessDay(a) <= d <= LastBusinessDay(b)
  {
  }

  lemma PeriodicBusinessSplit(startDate: Day, endDate: Day, f: Frequency)
    requires f != Daily
    ensures IsBusinessSplit(Split(startDate, endDate, f, true), startDate, endDate)
  {
    hide PeriodStart, PeriodOf, PeriodEnd, Split, NextBusinessDay, LastBusinessDay, IsBusinessDay, IsAnchor;
    hide IsFirstBusinessDay, IsLastBusinessDay;
    var s, j := Split(startDate, endDate, f, true), FirstPeriod(f, startDate);
    SplitAt(startDate, endDate, f, true);
    forall i | 0 <= i < |s|
      ensures PeriodStart(f, j + i) <= s[i].first <= s[i].last <= PeriodEnd(f, j + i)
      ensures forall d | PeriodStart(f, j + i) <= d <= PeriodEnd(f, j + i) && IsBusinessDay(d) ::
                s[i].first <= d <= s[i].last
      ensures IsBusinessDay(s[i].first) && IsBusinessDay(s[i].last)
    {
      assert Reports(s[i], f, j + i, endDate, true);
      EndOfAnchor(f, j + i);
      PulledIn(PeriodStart(f, j + i), PeriodEnd(f, j + i));
      ShiftedIsBusinessDay(PeriodStart(f, j + i), PeriodEnd(f, j + i));
    }
    forall i, k | 0 <= i < k < |s|
      ensures s[i].last < s[k].first
    {
      NextPeriod(f, j + i, j + k);
    }
    forall i, d | 0 <= i < |s| - 1 && s[i].last < d < s[i + 1].first
      ensures !IsBusinessDay(d)
    {
      NextPeriod(f, j + i, j + (i + 1));
      assert d <= PeriodEnd(f, j + i) || PeriodStart(f, j + (i + 1)) <= d;
    }
    forall d | startDate <= d <= endDate && IsBusinessDay(d)
      ensures exists i :: 0 <= i < |s| && s[i].first <= d <= s[i].last
    {
      CoveringPeriod(f, startDate, d, endDate, |s|);
      var i := PeriodOf(f, d) - j;
      assert j + i == PeriodOf(f, d);
      assert 0 <= i < |s| && s[i].first <= d <= s[i].last;
    }
  }

  lemma ShiftedIsBusinessDay(a: Day, b: Day)
    ensures IsBusinessDay(NextBusinessDay(a)) && IsBusinessDay(LastBusinessDay(b))
  {
  }

  lemma NextPeriod(f: Frequency, i: int, j: int)
    requires i < j
    ensures PeriodEnd(f, i) < PeriodStart(f, j)
    ensures j == i + 1 ==> PeriodEnd(f, i) + 1 == PeriodStart(f, j)
  {
    hide PeriodStart;
    PeriodStartIncreases(f, i + 1, j);
  }

  lemma CoveringPeriod(f: Frequency, startDate: Day, d: Day, endDate: Day, count: nat)
    requires startDate <= d <= endDate
    requires endDate < PeriodStart(f, FirstPeriod(f, startDate) + count)
    ensures FirstPeriod(f, startDate) <= PeriodOf(f, d) < FirstPeriod(f, startDate) + count
    ensures PeriodStart(f, PeriodOf(f, d)) <= d <= PeriodEnd(f, PeriodOf(f, d))
  {
    hide PeriodStart, PeriodOf;
    var j := PeriodOf(f, d);
    if j < PeriodOf(f, startDate) {
      PeriodStartIncreases(f, j + 1, PeriodOf(f, startDate));
    }
    if FirstPeriod(f, startDate) + count <= j {
      PeriodStartIncreases(f, FirstPeriod(f, startDate) + count, j);
    }
  }

  lemma DailyPair(d: Day)
    ensures IsBusinessDay(d) ==> PairFor(Daily, d, true) == Pair(d, d)
  {
  }

  /** One pair for each business day of the list, in order. */
  ghost predicate AreDailyPairs(s: seq<Pair>, ranges: seq<Day>) {
    && (forall i | 0 <= i < |s| :: s[i].first == s[i].last && s[i].last in ranges && IsBusinessDay(s[i].first))
    && (forall i, k | 0 <= i < k < |s| :: s[i].last < s[k].first)
    && (forall d | d in ranges && IsBusinessDay(d) :: exists i :: 0 <= i < |s| && s[i].first == d)
  }

  lemma DailyPairsStep(t: seq<Pair>, s: seq<Pair>, ranges: seq<Day>, d: Day)
    requires AreDailyPairs(t, ranges) && forall e | e in ranges :: e < d
    requires s == if IsBusinessDay(d) then t + [Pair(d, d)] else t
    ensures AreDailyPairs(s, ranges + [d])
  {
    hide IsBusinessDay;
    forall i | 0 <= i < |s|
      ensures s[i].first == s[i].last && s[i].last in ranges + [d] && IsBusinessDay(s[i].first)
    {
      assert i < |t| ==> s[i] == t[i] && t[i].last in ranges;
    }
    forall i, k | 0 <= i < k < |s|
      ensures s[i].last < s[k].first
    {
      assert s[i] == t[i] && t[i].last in ranges;
      assert k < |t| ==> s[k] == t[k];
    }
    forall e | e in ranges + [d] && IsBusinessDay(e)
      ensures exists i :: 0 <= i < |s| && s[i].first == e
    {
      if e == d {
        assert s[|t|].first == e;
      } else {
        var i :| 0 <= i < |t| && t[i].first == e;
        assert s[i].first == e;
      }
    }
  }

  lemma DailyPairsInOrder(s: seq<Pair>, ranges: seq<Day>)
    requires AreDailyPairs(s, ranges)
    ensures forall i | 0 <= i < |s| :: s[i].first == s[i].last && s[i].last in ranges && IsBusinessDay(s[i].first)
    ensures forall i, k | 0 <= i < k < |s| :: s[i].last < s[k].first
  {
  }

  lemma {:induction false} DailyPairs(ranges: seq<Day>)
    requires forall i | 0 <= i < |ranges| :: ranges[i] == ranges[0] + i
    ensures AreDailyPairs(PairsFor(Daily, ranges, true), ranges)
  {
    hide IsBusinessDay, NextBusinessDay, LastBusinessDay;
    if ranges != [] {
      hide AreDailyPairs, PairFor;
      var n := |ranges| - 1;
      var d := ranges[n];
      DailyPairs(ranges[..n]);
      DailyPair(d);
      assert ranges == ranges[..n] + [d];
      assert forall e | e in ranges[..n] :: e < d;
      DailyPairsStep(PairsFor(Daily, ranges[..n], true), PairsFor(Daily, ranges, true), ranges[..n], d);
    }
  }

  /**
   With business-day adjustment, at every frequency: endpoints are business days in order, every
   business day of the range lies in exactly one pair, and only weekend days fall between pairs.
   */
  lemma SplitKeepsBusinessDays(startDate: Day, endDate: Day, f: Frequency)
    ensures IsBusinessSplit(Split(startDate, endDate, f, true), startDate, endDate)
  {
    if f != Daily {
      PeriodicBusinessSplit(startDate, endDate, f);
    } else {
      var ranges := Marks(Daily, true, startDate, endDate);
      RangeOfSplit(Daily, startDate, endDate);
      MarksAt(Daily, true, startDate, endDate);
      assert forall i | 0 <= i < |ranges| :: ranges[i] == Mark(Daily, true, startDate + i) == startDate + i;
      DailySplit(startDate, endDate, ranges);
    }
  }

  lemma NotBetween(s: seq<Pair>, i: nat, k: nat)
    requires i < |s| - 1 && k < |s|
    requires forall a | 0 <= a < |s| :: s[a].first == s[a].last
    requires forall a, b | 0 <= a < b < |s| :: s[a].last < s[b].first
    ensures !(s[i].last < s[k].first < s[i + 1].first)
  {
    assert k < i ==> s[k].last < s[i].first;
    assert i + 1 < k ==> s[i + 1].last < s[k].first;
  }

  lemma DailyPairOf(startDate: Day, ranges: seq<Day>, d: Day) returns (k: nat)
    requires forall i | 0 <= i < |ranges| :: ranges[i] == startDate + i
    requires startDate <= d < startDate + |ranges| && IsBusinessDay(d)
    ensures var s := PairsFor(Daily, ranges, true); k < |s| && s[k].first == s[k].last == d
  {
    hide IsBusinessDay, PairsFor;
    DailyPairs(ranges);
    assert ranges[d - startDate] == d;
    k :| 0 <= k < |PairsFor(Daily, ranges, true)| && PairsFor(Daily, ranges, true)[k].first == d;
  }

  lemma DailyGap(startDate: Day, ranges: seq<Day>, i: nat, d: Day)
    requires forall i | 0 <= i < |ranges| :: ranges[i] == startDate + i
    requires i < |PairsFor(Daily, ranges, true)| - 1
    requires PairsFor(Daily, ranges, true)[i].last < d < PairsFor(Daily, ranges, true)[i + 1].first
    ensures !IsBusinessDay(d)
  {
    hide IsBusinessDay, PairsFor;
    DailyPairs(ranges);
    var s := PairsFor(Daily, ranges, true);
    assert s[i].last in ranges && s[i + 1].last in ranges;
    assert s[i + 1].first == s[i + 1].last;
    if IsBusinessDay(d) {
      var k := DailyPairOf(startDate, ranges, d);
      NotBetween(s, i, k);
    }
  }

  lemma DailySplit(startDate: Day, endDate: Day, ranges: seq<Day>)
    requires forall i | 0 <= i < |ranges| :: ranges[i] == startDate + i
    requires endDate < startDate + |ranges|
    ensures IsBusinessSplit(PairsFor(Daily, ranges, true), startDate, endDate)
  {
    hide IsBusinessDay, PairsFor, AreDailyPairs;
    DailyPairs(ranges);
    var s := PairsFor(Daily, ranges, true);
    DailyPairsInOrder(s, ranges);
    forall d | startDate <= d <= endDate && IsBusinessDay(d)
      ensures exists i :: 0 <= i < |s| && s[i].first <= d <= s[i].last
    {
      var i := DailyPairOf(startDate, ranges, d);
      assert s[i].first <= d <= s[i].last;
    }
    forall i, d | 0 <= i < |s| - 1 && s[i].last < d < s[i + 1].first
      ensures !IsBusinessDay(d)
    {
      DailyGap(startDate, ranges, i, d);
    }
  }
}

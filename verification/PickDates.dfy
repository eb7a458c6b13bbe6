/** `pick_dates_from_range` of `poms/common/utils.py`: one date a period, with the uneven edge kept. */
module PickDates {
  import opened Calendar
  import opened BusinessDays
  import opened Periods

  datatype Query = Query(startDate: Day, endDate: Day, f: Frequency, onlyBday: bool, start: bool)

  /** The offset dates inside the range, plus the edge of the range they do not reach. */
  function RawDates(q: Query): seq<Day> {
    var dates := DateRange(q.f, q.start, q.startDate, q.endDate);
    if dates == [] then []
    else if q.start && q.startDate != dates[0] then [q.startDate] + dates
    else if !q.start && q.endDate != dates[|dates| - 1] then dates + [q.endDate]
    else dates
  }

  /** `shift_to_week_boundary`. */
  function ToWeekBoundary(q: Query, d: Day): Day {
    if q.start && d > q.startDate then StartShift(Weekly, d)
    else if !q.start && d < q.endDate then EndShift(Weekly, d)
    else d
  }

  /** A date's replacement by a business day, where asked for. */
  function Moved(q: Query, d: Day): Day {
    if q.onlyBday then Shifted(d, q.start) else d
  }

  function Reported(q: Query, d: Day): Day {
    Moved(q, if q.f == Weekly then ToWeekBoundary(q, d) else d)
  }

  /** Every date as reported, before duplicates are dropped; a daily pick skips weekends. */
  function Adjust(q: Query, dates: seq<Day>): seq<Day> {
    if dates == [] then []
    else
      var n := |dates| - 1;
      Adjust(q, dates[..n]) + if Skipped(q.f, dates[n], q.onlyBday) then [] else [Reported(q, dates[n])]
  }

  /** Keeps the first of equal entries. */
  function Dedup(s: seq<Day>): seq<Day> {
    if s == [] then []
    else
      var r := Dedup(s[..|s| - 1]);
      if s[|s| - 1] in r then r else r + [s[|s| - 1]]
  }

  function Pick(q: Query): seq<Day> {
    Dedup(Adjust(q, RawDates(q)))
  }

  lemma AdjustStep(q: Query, dates: seq<Day>, i: nat)
    requires i < |dates|
    ensures Adjust(q, dates[..i + 1])
            == Adjust(q, dates[..i]) + if Skipped(q.f, dates[i], q.onlyBday) then [] else [Reported(q, dates[i])]
  {
    hide Skipped, Reported;
    assert dates[..i + 1][..i] == dates[..i];
  }

  lemma StaysPut(d: Day, forward: bool)
    ensures IsBusinessDay(d) ==> Shifted(d, forward) == d
  {
  }

  lemma EmptyPick(q: Query, dates: seq<Day>)
    ensures Dedup(Adjust(q, dates[..0])) == []
  {
  }

  lemma DedupStep(s: seq<Day>, x: Day)
    ensures Dedup(s + [x]) == if x in Dedup(s) then Dedup(s) else Dedup(s) + [x]
  {
    assert (s + [x])[..|s|] == s;
  }

  method DatesWithEdge(q: Query) returns (dates: seq<Day>)
    ensures dates == RawDates(q)
  {
    hide DateRange;
    dates := DateRange(q.f, q.start, q.startDate, q.endDate);
    if |dates| == 0 {
      return [];
    }
    if q.start && q.startDate != dates[0] {
      dates := [q.startDate] + dates;
    }
    if !q.start && q.endDate != dates[|dates| - 1] {
      dates := dates + [q.endDate];
    }
  }

  /** `pick_dates_from_range`; dates stand for their formatted strings. */
  method PickDatesFromRange(q: Query) returns (pickDates: seq<Day>)
    ensures pickDates == Pick(q)
  {
    hide RawDates, Adjust, Dedup, ToWeekBoundary;
    hide IsBusinessDay, NextBusinessDay, LastBusinessDay, IsFirstBusinessDay, IsLastBusinessDay;
    var dates := DatesWithEdge(q);
    pickDates := [];
    EmptyPick(q, dates);
    var i := 0;
    while i < |dates|
      invariant 0 <= i <= |dates|
      invariant pickDates == Dedup(Adjust(q, dates[..i]))
    {
      var date := dates[i];
      AdjustStep(q, dates, i);
      StaysPut(if q.f == Weekly then ToWeekBoundary(q, date) else date, q.start);
      DedupStep(Adjust(q, dates[..i]), Reported(q, date));
      assert Adjust(q, dates[..i]) + [] == Adjust(q, dates[..i]);
      i := i + 1;
      if q.f == Weekly {
        date := ToWeekBoundary(q, date);
      }
      if q.onlyBday {
        if q.f == Daily && !IsBusinessDay(date) {
          continue;
        }
        if !IsBusinessDay(date) {
          if q.start {
            date := ShiftToBday(date, 1);
          } else {
            date := ShiftToBday(date, -1);
          }
        }
      }
      if date !in pickDates {
        pickDates := pickDates + [date];
      }
    }
    assert dates[..i] == dates;
  }

  ghost predicate StrictlyIncreasing(s: seq<Day>) {
    forall i, j | 0 <= i < j < |s| :: s[i] < s[j]
  }

  ghost predicate NonDecreasing(s: seq<Day>) {
    forall i, j | 0 <= i < j < |s| :: s[i] <= s[j]
  }

  lemma {:induction false} DedupSorted(s: seq<Day>)
    requires NonDecreasing(s)
    ensures StrictlyIncreasing(Dedup(s))
    ensures forall x :: x in Dedup(s) <==> x in s
    ensures s != [] ==> Dedup(s) != [] && Dedup(s)[0] == s[0] && Dedup(s)[|Dedup(s)| - 1] == s[|s| - 1]
  {
    if s != [] {
      var t, x := s[..|s| - 1], s[|s| - 1];
      DedupSorted(t);
      assert s == t + [x];
      var r := Dedup(t);
      if t == [] {
        assert r == [];
      } else {
        assert r[|r| - 1] == s[|s| - 2] <= x;
        SnocSorted(r, x);
      }
    }
  }

  lemma SnocSorted(r: seq<Day>, x: Day)
    requires StrictlyIncreasing(r) && r != [] && r[|r| - 1] <= x
    ensures if x in r then x == r[|r| - 1] else StrictlyIncreasing(r + [x])
  {
    if x in r {
      var i :| 0 <= i < |r| && r[i] == x;
    }
  }

  lemma {:induction false} DedupStrict(s: seq<Day>)
    requires StrictlyIncreasing(s)
    ensures Dedup(s) == s
  {
    if s != [] {
      var t := s[..|s| - 1];
      DedupStrict(t);
      assert s == t + [s[|s| - 1]];
    }
  }

  lemma {:induction false} AdjustAt(q: Query, dates: seq<Day>)
    requires !(q.f == Daily && q.onlyBday)
    ensures |Adjust(q, dates)| == |dates|
    ensures forall i | 0 <= i < |dates| :: Adjust(q, dates)[i] == Reported(q, dates[i])
  {
    hide Reported;
    if dates != [] {
      AdjustAt(q, dates[..|dates| - 1]);
    }
  }

  /** A period anchor: a period's first day when picking starts, its last day when picking ends. */
  predicate IsMark(q: Query, a: Day) {
    Mark(q.f, q.start, PeriodOf(q.f, a)) == a
  }

  predicate InRange(q: Query, a: Day) {
    q.startDate <= a <= q.endDate
  }

  lemma MarkIndex(q: Query, j: int)
    ensures IsMark(q, Mark(q.f, q.start, j)) && PeriodOf(q.f, Mark(q.f, q.start, j)) == j
  {
    hide PeriodStart, PeriodOf;
    PeriodStartIncreases(q.f, j, j + 1);
    if q.f == Daily {
      DailyPeriods(j);
      DailyPeriods(PeriodOf(Daily, Mark(q.f, q.start, j)));
    }
    PeriodOfUnique(q.f, Mark(q.f, q.start, j), j);
  }

  /** No mark lies between the start of the range and the mark `pd.date_range` rolls to. */
  lemma FirstMarkIsFirst(q: Query)
    ensures var j := FirstMark(q.f, q.start, q.startDate);
            Mark(q.f, q.start, j - 1) < q.startDate <= Mark(q.f, q.start, j)
  {
    hide PeriodStart, PeriodOf;
    var p := PeriodOf(q.f, q.startDate);
    DailyPeriods(q.startDate);
    DailyPeriods(q.startDate - 1);
    PeriodStartIncreases(q.f, p - 1, p);
    PeriodStartIncreases(q.f, p, p + 1);
  }

  lemma MarkOf(q: Query, a: Day) returns (k: int)
    requires IsMark(q, a)
    ensures Mark(q.f, q.start, k) == a
  {
    k := PeriodOf(q.f, a);
  }

  /** The marks of the range, in order. */
  lemma MarksMeaning(q: Query, dates: seq<Day>)
    requires dates == Marks(q.f, q.start, FirstMark(q.f, q.start, q.startDate), q.endDate)
    ensures StrictlyIncreasing(dates)
    ensures forall a | IsMark(q, a) && InRange(q, a) :: a in dates
    ensures forall i | 0 <= i < |dates| :: IsMark(q, dates[i]) && InRange(q, dates[i])
  {
    hide Mark, PeriodOf, FirstMark, IsMark, Marks;
    var j := FirstMark(q.f, q.start, q.startDate);
    FirstMarkIsFirst(q);
    MarksAt(q.f, q.start, j, q.endDate);
    forall i | 0 <= i < |dates|
      ensures IsMark(q, dates[i]) && InRange(q, dates[i])
    {
      assert dates[i] == Mark(q.f, q.start, j + i);
      if i > 0 {
        MarksIncrease(q.f, q.start, j, j + i);
      }
      MarkIndex(q, j + i);
    }
    forall i, k | 0 <= i < k < |dates|
      ensures dates[i] < dates[k]
    {
      MarksIncrease(q.f, q.start, j + i, j + k);
    }
    forall a | IsMark(q, a) && InRange(q, a)
      ensures a in dates
    {
      var k := MarkOf(q, a);
      if k < j - 1 {
        MarksIncrease(q.f, q.start, k, j - 1);
      } else if j + |dates| < k {
        MarksIncrease(q.f, q.start, j + |dates|, k);
      }
      assert j <= k < j + |dates|;
      assert dates[k - j] == Mark(q.f, q.start, j + (k - j));
    }
  }

  /** The edge of the range that picking keeps. */
  function Edge(q: Query): Day {
    if q.start then q.startDate else q.endDate
  }

  lemma AddedEdge(dates: seq<Day>, edge: Day)
    requires StrictlyIncreasing(dates) && dates != []
    ensures edge < dates[0] ==> StrictlyIncreasing([edge] + dates)
    ensures dates[|dates| - 1] < edge ==> StrictlyIncreasing(dates + [edge])
  {
  }

  /** The dates considered: the marks of the range in order, with the missing edge added. */
  lemma RawDatesMeaning(q: Query)
    requires q.f != Weekly
    ensures var s := RawDates(q);
            && StrictlyIncreasing(s)
            && (forall a | IsMark(q, a) && InRange(q, a) :: a in s)
            && (forall a | a in s :: InRange(q, a) && (IsMark(q, a) || a == Edge(q)))
            && (s != [] ==> (if q.start then s[0] else s[|s| - 1]) == Edge(q))
            && (s != [] ==> exists a :: IsMark(q, a) && InRange(q, a))
  {
    hide Marks, FirstMark, IsMark, StrictlyIncreasing;
    var dates := Marks(q.f, q.start, FirstMark(q.f, q.start, q.startDate), q.endDate);
    MarksMeaning(q, dates);
    if dates != [] {
      assert IsMark(q, dates[0]) && InRange(q, dates[0]);
      assert InRange(q, dates[|dates| - 1]);
      AddedEdge(dates, Edge(q));
    }
  }

  lemma AdjustSorted(q: Query, s: seq<Day>)
    requires q.f != Weekly && !(q.f == Daily && q.onlyBday)
    requires StrictlyIncreasing(s)
    ensures |Adjust(q, s)| == |s|
    ensures forall i | 0 <= i < |s| :: Adjust(q, s)[i] == Moved(q, s[i])
    ensures NonDecreasing(Adjust(q, s))
  {
    hide Moved, Reported;
    AdjustAt(q, s);
    var t := Adjust(q, s);
    forall i | 0 <= i < |t|
      ensures t[i] == Moved(q, s[i])
    {
      ReportedMoves(q, s[i]);
    }
    forall i, j | 0 <= i < j < |t|
      ensures t[i] <= t[j]
    {
      MovedMonotone(q, s[i], s[j]);
    }
  }

  /** d stands for an anchor of the range, or for the kept edge. */
  ghost predicate IsMovedPick(q: Query, d: Day) {
    exists a :: d == Moved(q, a) && InRange(q, a) && (IsMark(q, a) || a == Edge(q))
  }

  /**
   For days, months, quarters and years the picked dates strictly increase; every period anchor
   of the range is represented after shifting; nothing else is picked but the shifted edge of the
   range; the list starts at the shifted start (or ends at the shifted end) of the range and is
   empty exactly when the range holds no anchor. Skipped weekends of a daily pick are PickDaily's.
   */
  lemma PickMeaning(q: Query)
    requires q.f != Weekly && !(q.f == Daily && q.onlyBday)
    ensures var r := Pick(q);
            && StrictlyIncreasing(r)
            && (forall a | IsMark(q, a) && InRange(q, a) :: Moved(q, a) in r)
            && (forall d | d in r :: IsMovedPick(q, d))
            && (r != [] ==> (if q.start then r[0] else r[|r| - 1]) == Moved(q, Edge(q)))
            && (r == [] <==> forall a | InRange(q, a) :: !IsMark(q, a))
  {
    hide IsMark, RawDates, Moved, InRange, Edge, Reported, StrictlyIncreasing, NonDecreasing, Skipped;
    var s := RawDates(q);
    RawDatesMeaning(q);
    var t := Adjust(q, s);
    AdjustSorted(q, s);
    DedupSorted(t);
    var r := Pick(q);
    if t != [] {
      assert t[0] == Moved(q, s[0]) && t[|t| - 1] == Moved(q, s[|s| - 1]);
      assert s[0] in s;
    } else {
      assert r == [];
    }
    forall a | IsMark(q, a) && InRange(q, a)
      ensures Moved(q, a) in r
    {
      var i :| 0 <= i < |s| && s[i] == a;
      assert t[i] == Moved(q, a);
    }
    forall d | d in r
      ensures IsMovedPick(q, d)
    {
      var i :| 0 <= i < |t| && t[i] == d;
      assert s[i] in s;
    }
  }

  lemma ReportedMoves(q: Query, d: Day)
    requires q.f != Weekly
    ensures Reported(q, d) == Moved(q, d)
  {
  }

  /** Where weekends are moved, starts go to the first business day not before, ends to the last not after. */
  lemma MovedMeaning(q: Query, d: Day)
    ensures !q.onlyBday ==> Moved(q, d) == d
    ensures q.onlyBday && q.start ==> IsFirstBusinessDay(Moved(q, d), d)
    ensures q.onlyBday && !q.start ==> IsLastBusinessDay(Moved(q, d), d)
  {
  }

  lemma MovedMonotone(q: Query, a: Day, b: Day)
    requires a <= b
    ensures Moved(q, a) <= Moved(q, b)
  {
    ShiftedMonotone(a, b, q.start);
  }

  /** A daily pick of business days is exactly the list of business days of the range. */
  lemma PickDaily(q: Query)
    requires q.f == Daily && q.onlyBday
    ensures Pick(q) == BusinessDaysIn(q.startDate, q.endDate)
  {
    hide RawDates, Adjust, Dedup, BusinessDaysIn;
    var s := RawDates(q);
    RawDaily(q);
    AdjustDaily(q, s);
    BusinessDaysInMeaning(q.startDate, q.endDate);
    EmptyRange(q.startDate, q.endDate);
    EmptyRange(q.startDate, q.startDate + |s| - 1);
    DedupStrict(Adjust(q, s));
  }

  lemma EmptyRange(lo: Day, hi: Day)
    ensures hi < lo ==> BusinessDaysIn(lo, hi) == []
  {
  }

  /** A daily pick considers every day of the range. */
  lemma RawDaily(q: Query)
    requires q.f == Daily
    ensures var s := RawDates(q);
            && |s| == (if q.startDate <= q.endDate then q.endDate - q.startDate + 1 else 0)
            && forall i | 0 <= i < |s| :: s[i] == q.startDate + i
  {
    hide Marks, PeriodOf;
    var marks := Marks(Daily, q.start, q.startDate, q.endDate);
    MarksAt(Daily, q.start, q.startDate, q.endDate);
    DailyPeriods(q.startDate);
    assert FirstMark(Daily, q.start, q.startDate) == q.startDate;
    forall i | 0 <= i < |marks|
      ensures marks[i] == q.startDate + i <= q.endDate
    {
      assert marks[i] == Mark(Daily, q.start, q.startDate + i);
    }
    assert q.endDate < Mark(Daily, q.start, q.startDate + |marks|) == q.startDate + |marks|;
    if marks != [] {
      assert marks[0] == q.startDate && marks[|marks| - 1] == q.endDate;
    }
  }

  lemma {:induction false} AdjustDaily(q: Query, dates: seq<Day>)
    requires q.f == Daily && q.onlyBday
    requires forall i | 0 <= i < |dates| :: dates[i] == q.startDate + i
    ensures Adjust(q, dates) == BusinessDaysIn(q.startDate, q.startDate + |dates| - 1)
  {
    hide IsBusinessDay;
    if dates != [] {
      AdjustDaily(q, dates[..|dates| - 1]);
      OnBusinessDay(q, dates[|dates| - 1]);
    }
  }

  lemma OnBusinessDay(q: Query, d: Day)
    ensures IsBusinessDay(d) ==> Moved(q, d) == d
  {
  }

  // ----- The weekly frequency is not aligned with weeks

  lemma {:induction false} WeekStepsAt(n: Day, end: Day)
    ensures var s := WeekSteps(n, end);
            && (forall i | 0 <= i < |s| :: s[i] == n + 7 * i <= end)
            && end < n + 7 * |s|
    decreases end - n
  {
    if n <= end {
      WeekStepsAt(n + 7, end);
      var rest := WeekSteps(n + 7, end);
      var s := WeekSteps(n, end);
      assert s == [n] + rest;
      forall i | 0 <= i < |s|
        ensures s[i] == n + 7 * i <= end
      {
        if i > 0 {
          assert s[i] == rest[i - 1] == n + 7 + 7 * (i - 1) <= end;
        }
      }
    }
  }

  lemma WeekdayEveryWeek(n: Day, i: int)
    ensures Weekday(n + 7 * i) == Weekday(n)
  {
  }

  /** How far a weekly end is moved: to Sunday from a Monday, past it from any other day. */
  function WeekEndShift(n: Day): int {
    if Weekday(n) == 6 then 0 else 6
  }

  lemma MovedByWeeks(q: Query, d: Day, i: int)
    ensures Moved(q, d + 7 * i) == Moved(q, d) + 7 * i
  {
    WeekdayEveryWeek(d, i);
  }

  /** Weekly ends of n weeks begun: every step but one on the end date is moved, then the end date follows. */
  ghost predicate AreWeeklyEnds(q: Query, n: nat, t: seq<Day>) {
    && n > 0 && q.startDate + 7 * (n - 1) <= q.endDate < q.startDate + 7 * n
    && |t| == (if q.startDate + 7 * (n - 1) == q.endDate then n else n + 1)
    && t[|t| - 1] == Moved(q, q.endDate)
    && forall i | 0 <= i < |t| - 1 :: t[i] == Moved(q, q.startDate + WeekEndShift(q.startDate)) + 7 * i
  }

  lemma WeeklyEnds(q: Query)
    requires q.f == Weekly && !q.start && q.startDate <= q.endDate
    ensures AreWeeklyEnds(q, |WeekSteps(q.startDate, q.endDate)|, Adjust(q, RawDates(q)))
  {
    hide Adjust, WeekSteps, Weekday, StartShift, Moved;
    var steps := WeekSteps(q.startDate, q.endDate);
    WeekStepsAt(q.startDate, q.endDate);
    var s := RawDates(q);
    AdjustAt(q, s);
    var t := Adjust(q, s);
    forall i | 0 <= i < |t| - 1
      ensures t[i] == Moved(q, q.startDate + WeekEndShift(q.startDate)) + 7 * i
    {
      assert s[i] == q.startDate + 7 * i < q.endDate;
      WeekdayEveryWeek(q.startDate, i);
      MovedByWeeks(q, q.startDate + WeekEndShift(q.startDate), i);
      assert q.startDate + WeekEndShift(q.startDate) + 7 * i == s[i] + WeekEndShift(s[i]);
    }
  }

  /** Weekly steps followed by one more date stay in order exactly when that is not overtaken, or is one of them. */
  lemma StepsThenLast(t: seq<Day>, a: Day)
    requires |t| > 0
    requires forall i | 0 <= i < |t| - 1 :: t[i] == a + 7 * i
    ensures StrictlyIncreasing(Dedup(t)) <==> |t| == 1 || t[|t| - 2] <= t[|t| - 1] || t[|t| - 1] in t[..|t| - 1]
  {
    hide Dedup;
    var n := |t| - 1;
    DedupStrict(t[..n]);
    DedupStep(t[..n], t[n]);
    assert t == t[..n] + [t[n]];
    if t[n] !in t[..n] && n > 0 {
      assert Dedup(t)[n - 1] == t[n - 1] && Dedup(t)[n] == t[n];
    }
  }

  /** The last moved step x against the end date e, given the start's weekday and the days of the last week begun. */
  lemma LastStep(q: Query, e: Day, x: Day, w: int, r: int)
    requires 0 <= r <= 6 && 0 <= w <= 6 && Weekday(e) == (w + r) % 7
    requires x == e - (if r == 0 then 7 else r) + (if w == 6 then 0 else 6)
    ensures Moved(q, x) - 7 <= Moved(q, e) || w == 6
    ensures !q.start ==> (Moved(q, x) <= Moved(q, e) <==> w == 6 || r in {0, 6} || (q.onlyBday && w == 0 && r in {4, 5}))
    ensures !q.start ==> (Moved(q, x) - 7 == Moved(q, e) <==> w != 6 && q.onlyBday && w == 5 && r == 1)
  {
  }

  /**
   Weekly ends are stepped from the start date, not from Sundays, so the last one can overshoot the
   range and stand before its end. The picked dates are in order exactly when the range is empty,
   starts on a Sunday, or is a whole number of weeks or a day short; and, where weekends are moved,
   also when it starts on a Monday and ends on a Friday or Saturday, or starts on a Saturday and
   ends on the Sunday of a later week.
   */
  lemma WeeklyEndsInOrder(q: Query)
    requires q.f == Weekly && !q.start
    ensures StrictlyIncreasing(Pick(q)) <==>
              || q.endDate < q.startDate
              || Weekday(q.startDate) == 6
              || (q.endDate - q.startDate) % 7 in {0, 6}
              || (q.onlyBday && Weekday(q.startDate) == 0 && (q.endDate - q.startDate) % 7 in {4, 5})
              || (q.onlyBday && Weekday(q.startDate) == 5 && (q.endDate - q.startDate) % 7 == 1 && q.startDate + 7 <= q.endDate)
  {
    hide Adjust, RawDates, WeekSteps, Dedup, StrictlyIncreasing, Moved, Weekday, AreWeeklyEnds;
    if q.startDate <= q.endDate {
      var t := Adjust(q, RawDates(q));
      WeeklyEnds(q);
      WeeklyEndsStep(q, |WeekSteps(q.startDate, q.endDate)|, t);
      EndNotOvertaken(q, |WeekSteps(q.startDate, q.endDate)|, t);
    } else {
      NoWeeklyEnds(q);
    }
  }

  lemma NoWeeklyEnds(q: Query)
    requires q.f == Weekly && q.endDate < q.startDate
    ensures StrictlyIncreasing(Pick(q))
  {
    WeekStepsAt(q.startDate, q.endDate);
  }

  lemma WeeklyEndsStep(q: Query, n: nat, t: seq<Day>)
    requires AreWeeklyEnds(q, n, t)
    ensures |t| > 0
    ensures StrictlyIncreasing(Dedup(t)) <==> |t| == 1 || t[|t| - 2] <= t[|t| - 1] || t[|t| - 1] in t[..|t| - 1]
  {
    hide Dedup, StrictlyIncreasing, Moved, Weekday;
    StepsThenLast(t, Moved(q, q.startDate + WeekEndShift(q.startDate)));
  }

  lemma EndNotOvertaken(q: Query, n: nat, t: seq<Day>)
    requires AreWeeklyEnds(q, n, t) && !q.start && |t| > 0
    ensures (|t| == 1 || t[|t| - 2] <= t[|t| - 1] || t[|t| - 1] in t[..|t| - 1]) <==>
              || Weekday(q.startDate) == 6
              || (q.endDate - q.startDate) % 7 in {0, 6}
              || (q.onlyBday && Weekday(q.startDate) == 0 && (q.endDate - q.startDate) % 7 in {4, 5})
              || (q.onlyBday && Weekday(q.startDate) == 5 && (q.endDate - q.startDate) % 7 == 1 && q.startDate + 7 <= q.endDate)
  {
    hide Moved, Weekday;
    var w, r, m := Weekday(q.startDate), (q.endDate - q.startDate) % 7, |t| - 1;
    DaysOfLastWeek(q.startDate, q.endDate, n);
    var a := q.startDate + WeekEndShift(q.startDate);
    if m > 0 {
      MovedByWeeks(q, a, m - 1);
      EndWeekday(q.startDate, q.endDate, n - 1, r);
      LastStep(q, q.endDate, a + 7 * (m - 1), w, r);
      if t[m] < t[m - 1] {
        LastIsStep(t, Moved(q, a), m);
      }
    }
  }

  lemma DaysOfLastWeek(s: Day, e: Day, n: int)
    requires s + 7 * (n - 1) <= e < s + 7 * n
    ensures (e - s) % 7 == e - (s + 7 * (n - 1))
  {
  }

  lemma EndWeekday(s: Day, e: Day, k: int, r: int)
    requires e == s + 7 * k + r
    ensures Weekday(e) == (Weekday(s) + r) % 7
  {
  }

  /** A date less than two weeks below the last step is one of the steps if it is the one before. */
  lemma LastIsStep(t: seq<Day>, a: Day, m: nat)
    requires 0 < m < |t| && forall i | 0 <= i < m :: t[i] == a + 7 * i
    requires t[m - 1] - 7 <= t[m] < t[m - 1]
    ensures t[m] in t[..m] <==> t[m] == t[m - 1] - 7 && m > 1
  {
    if t[m] in t[..m] {
      var i :| 0 <= i < m && t[i] == t[m];
    }
    if t[m] == t[m - 1] - 7 && m > 1 {
      assert t[..m][m - 2] == t[m];
    }
  }

  // ----- Weekly starts

  lemma WeekStartMonotone(a: Day, b: Day)
    requires a <= b
    ensures StartShift(Weekly, a) <= StartShift(Weekly, b)
    ensures a - 7 <= StartShift(Weekly, a) < a && Weekday(StartShift(Weekly, a)) == 0
  {
  }

  /**
   Weekly starts are always in order: the start of the range, and every Monday of the whole weeks
   from there. Where the range starts on a Monday the next step falls back on it, and the duplicate
   is dropped.
   */
  lemma WeeklyStartsInOrder(q: Query)
    requires q.f == Weekly && q.start
    ensures StrictlyIncreasing(Pick(q)) && (Pick(q) != [] <==> q.startDate <= q.endDate)
    ensures Pick(q) != [] ==> Pick(q)[0] == Moved(q, q.startDate)
    ensures forall d :: d in Pick(q) <==>
              && q.startDate <= q.endDate
              && (d == Moved(q, q.startDate)
                  || (Weekday(d) == 0 && q.startDate <= d < q.startDate + 7 * ((q.endDate - q.startDate) / 7)))
  {
    hide Adjust, RawDates, WeekSteps, Dedup, Moved, Weekday, StartShift, Reported;
    var s := RawDates(q);
    RawWeeks(q);
    AdjustAt(q, s);
    var t := Adjust(q, s);
    forall i | 0 <= i < |s|
      ensures if i == 0 then t[i] == Moved(q, q.startDate)
              else t[i] == StartShift(Weekly, s[i]) && Weekday(t[i]) == 0 && t[i] < q.endDate
    {
      StartReported(q, s[i]);
    }
    forall i, j | 0 <= i < j < |t|
      ensures t[i] <= t[j]
    {
      if i > 0 {
        WeekStartMonotone(s[i], s[j]);
      } else {
        WeekStartMonotone(q.startDate + 7, s[j]);
        StartBeforeMonday(q, t[j]);
      }
    }
    DedupSorted(t);
    if t == [] {
      EmptyPick(q, s);
      assert s[..0] == s;
    }
    forall d
      ensures d in t <==> q.startDate <= q.endDate && (d == Moved(q, q.startDate) || IsWeekStart(q, d))
    {
      if d in t {
        var i :| 0 <= i < |t| && t[i] == d;
        if i > 0 {
          MondayOfStep(q, i, d);
        }
      }
      if q.startDate <= q.endDate && d == Moved(q, q.startDate) {
        assert t[0] == d;
      }
      if q.startDate <= q.endDate && IsWeekStart(q, d) {
        var i := StepOfMonday(q, d);
        assert s[i] == q.startDate + 7 * i;
        assert t[i] == d;
      }
    }
  }

  predicate IsWeekStart(q: Query, d: Day) {
    Weekday(d) == 0 && q.startDate <= d < q.startDate + 7 * ((q.endDate - q.startDate) / 7)
  }

  lemma MondayOfStep(q: Query, i: nat, d: Day)
    requires 0 < i && q.startDate + 7 * i <= q.endDate && d == StartShift(Weekly, q.startDate + 7 * i)
    ensures IsWeekStart(q, d)
  {
    WeekStartMonotone(q.startDate + 7 * i, q.startDate + 7 * i);
    assert i <= (q.endDate - q.startDate) / 7;
  }

  lemma StepOfMonday(q: Query, d: Day) returns (i: nat)
    requires IsWeekStart(q, d)
    ensures 0 < i && q.startDate + 7 * i <= q.endDate && StartShift(Weekly, q.startDate + 7 * i) == d
  {
    i := (d - q.startDate) / 7 + 1;
    var n := q.startDate + 7 * i;
    assert d < n <= d + 7;
    LatestMonday(n, d);
  }

  lemma LatestMonday(n: Day, d: Day)
    requires Weekday(d) == 0 && d < n <= d + 7
    ensures StartShift(Weekly, n) == d
  {
  }

  lemma RawWeeks(q: Query)
    requires q.f == Weekly && q.start
    ensures var s := RawDates(q);
            && (forall i | 0 <= i < |s| :: s[i] == q.startDate + 7 * i <= q.endDate)
            && (forall i: nat | q.startDate + 7 * i <= q.endDate :: i < |s|)
            && (s != [] <==> q.startDate <= q.endDate)
  {
    WeekStepsAt(q.startDate, q.endDate);
  }

  /** What a weekly start is reported as: itself at the start of the range, else the Monday before it. */
  lemma StartReported(q: Query, d: Day)
    requires q.f == Weekly && q.start && d <= q.endDate
    ensures d == q.startDate ==> Reported(q, d) == Moved(q, d)
    ensures d > q.startDate ==> Reported(q, d) == StartShift(Weekly, d) && Weekday(Reported(q, d)) == 0 && Reported(q, d) < q.endDate
  {
    WeekStartMonotone(d, d);
  }

  lemma StartBeforeMonday(q: Query, d: Day)
    requires q.startDate <= d && Weekday(d) == 0 && q.start
    ensures Moved(q, q.startDate) <= d
  {
  }
}

/** Business days and month ends: the "Dates" helpers of `poms/common/utils.py`. */
module BusinessDays {
  import opened Calendar

  /** `pd.bdate_range(date, date)` is non-empty from Monday to Friday. */
  predicate IsBusinessDay(n: Day) {
    Weekday(n) <= 4
  }

  /** r is the greatest business day not after n. */
  ghost predicate IsLastBusinessDay(r: Day, n: Day) {
    r <= n && IsBusinessDay(r) && forall k | r < k <= n :: !IsBusinessDay(k)
  }

  /** r is the least business day not before n. */
  ghost predicate IsFirstBusinessDay(r: Day, n: Day) {
    n <= r && IsBusinessDay(r) && forall k | n <= k < r :: !IsBusinessDay(k)
  }

  lemma LastBusinessDayUnique(r: Day, s: Day, n: Day)
    requires IsLastBusinessDay(r, n) && IsLastBusinessDay(s, n)
    ensures r == s
  {
  }

  /** `get_last_business_day`: weekday arithmetic. */
  function LastBusinessDay(n: Day): (r: Day)
    ensures IsLastBusinessDay(r, n) && n - 2 <= r
  {
    if Weekday(n) > 4 then n - (Weekday(n) - 4) else n
  }

  /** The day `shift_to_bday` reaches going forward. */
  function NextBusinessDay(n: Day): (r: Day)
    ensures IsFirstBusinessDay(r, n) && r <= n + 2
  {
    if Weekday(n) > 4 then n + (7 - Weekday(n)) else n
  }

  function Shifted(n: Day, forward: bool): Day {
    if forward then NextBusinessDay(n) else LastBusinessDay(n)
  }

  /** `shift_to_bday`: any positive shift goes forward a day at a time, any other backward. */
  method ShiftToBday(n: Day, shift: int) returns (r: Day)
    ensures r == Shifted(n, shift > 0)
  {
    var step := if shift > 0 then 1 else -1;
    r := n;
    while !IsBusinessDay(r)
      invariant shift > 0 ==> n <= r <= NextBusinessDay(n)
      invariant shift <= 0 ==> LastBusinessDay(n) <= r <= n
      decreases if shift > 0 then NextBusinessDay(n) - r else r - LastBusinessDay(n)
    {
      r := r + step;
    }
  }

  lemma ShiftedMonotone(a: Day, b: Day, forward: bool)
    requires a <= b
    ensures Shifted(a, forward) <= Shifted(b, forward)
  {
  }

  /** `check_if_last_day_of_month`. */
  predicate CheckIfLastDayOfMonth(n: Day) {
    MonthNumber(n) != MonthNumber(n + 1)
  }

  lemma TomorrowsMonth(n: Day)
    ensures MonthOf(n + 1) == if DayOf(n) == MonthLength(MonthOf(n)) then MonthOf(n) + 1 else MonthOf(n)
    ensures DayOf(n + 1) == 1 <==> MonthOf(n + 1) == MonthOf(n) + 1
  {
    var m := MonthOf(n);
    MonthStartStep(m);
    if n + 1 < MonthStart(m + 1) {
      MonthOfUnique(n + 1, m);
    } else {
      MonthStartStep(m + 1);
      MonthOfUnique(n + 1, m + 1);
    }
  }

  lemma LastDayTest(n: Day)
    ensures CheckIfLastDayOfMonth(n) <==> DayOf(n) == MonthLength(MonthOf(n))
  {
    hide MonthLength, MonthStart, MonthOf, DayOf;
    TomorrowsMonth(n);
  }

  /** `last_day_of_month`: four days after the 28th, then back by that day's number. */
  function LastDayOfMonth(n: Day): (r: Day)
    ensures MonthOf(r) == MonthOf(n) && CheckIfLastDayOfMonth(r) && r == MonthStart(MonthOf(n) + 1) - 1
  {
    var m := MonthOf(n);
    var nextMonth := MonthStart(m) + 27 + 4;
    MonthStartStep(m);
    MonthStartStep(m + 1);
    MonthOfUnique(nextMonth, m + 1);
    MonthOfUnique(nextMonth - DayOf(nextMonth), m);
    LastDayTest(nextMonth - DayOf(nextMonth));
    nextMonth - DayOf(nextMonth)
  }

  // ----- The last business day of a month, read off the month's calendar table

  /** A week of `calendar.monthcalendar`: Monday first, 0 for a day outside the month. */
  function WeekRow(m: Month, monday: Day): (row: seq<int>)
    ensures |row| == 7
  {
    seq(7, i => if MonthStart(m) <= monday + i < MonthStart(m + 1) then monday + i - MonthStart(m) + 1 else 0)
  }

  function WeekRows(m: Month, monday: Day): seq<seq<int>>
    decreases MonthStart(m + 1) - monday
  {
    if monday >= MonthStart(m + 1) then [] else [WeekRow(m, monday)] + WeekRows(m, monday + 7)
  }

  function MonthCalendar(m: Month): seq<seq<int>> {
    WeekRows(m, MonthStart(m) - Weekday(MonthStart(m)))
  }

  function MaxOf(s: seq<int>): (r: int)
    requires |s| > 0
    ensures exists i | 0 <= i < |s| :: s[i] == r
    ensures forall i | 0 <= i < |s| :: s[i] <= r
  {
    if |s| == 1 then s[0]
    else
      var t := MaxOf(s[1..]);
      if t <= s[0] then s[0] else t
  }

  lemma {:induction false} LastWeekRow(m: Month, monday: Day)
    requires Weekday(monday) == 0 && monday < MonthStart(m + 1)
    ensures var rows, last := WeekRows(m, monday), MonthStart(m + 1) - 1;
            |rows| > 0 && rows[|rows| - 1] == WeekRow(m, last - Weekday(last))
    decreases MonthStart(m + 1) - monday
  {
    var rest := WeekRows(m, monday + 7);
    assert WeekRows(m, monday) == [WeekRow(m, monday)] + rest;
    if monday + 7 < MonthStart(m + 1) {
      LastWeekRow(m, monday + 7);
      assert WeekRows(m, monday)[|rest|] == rest[|rest| - 1];
    } else {
      assert rest == [];
    }
  }

  lemma LastDayColumns(m: Month)
    ensures var last := MonthStart(m + 1) - 1; var monday := last - Weekday(last);
            && Weekday(monday) == 0
            && MonthStart(m) < monday
            && LastBusinessDay(last) - monday == Min(Weekday(last), 4)
  {
    hide MonthStart, MonthLength;
    MonthStartStep(m);
  }

  /** In a week that starts inside the month the columns count up to its last day, then are 0. */
  lemma MaxOfWorkWeek(m: Month, monday: Day, best: int)
    requires MonthStart(m) <= monday && 0 <= best <= 4
    requires monday + best < MonthStart(m + 1)
    requires best == 4 || monday + best == MonthStart(m + 1) - 1
    ensures MaxOf(WeekRow(m, monday)[..5]) == monday + best - MonthStart(m) + 1
  {
    hide MonthStart, MaxOf;
    var week := WeekRow(m, monday)[..5];
    assert week[best] == monday + best - MonthStart(m) + 1;
    assert forall i | 0 <= i < 5 :: week[i] == if i <= best then monday + i - MonthStart(m) + 1 else 0;
  }

  /** The greatest of the first five columns of the table's last row is the last business day. */
  lemma MonthTable(m: Month)
    ensures var rows, last := MonthCalendar(m), MonthStart(m + 1) - 1;
            && |rows| > 0 && |rows[|rows| - 1]| == 7
            && MonthStart(m) <= LastBusinessDay(last)
            && MaxOf(rows[|rows| - 1][..5]) == LastBusinessDay(last) - MonthStart(m) + 1
  {
    hide MonthLength, MonthStart, MonthOf, LastBusinessDay, IsLastBusinessDay, MaxOf, WeekRow, WeekRows;
    var last := MonthStart(m + 1) - 1;
    LastDayColumns(m);
    MonthStartStep(m);
    FirstMonday(m);
    LastWeekRow(m, MonthStart(m) - Weekday(MonthStart(m)));
    MaxOfWorkWeek(m, last - Weekday(last), Min(Weekday(last), 4));
  }

  lemma FirstMonday(m: Month)
    ensures Weekday(MonthStart(m) - Weekday(MonthStart(m))) == 0
  {
    hide MonthStart;
  }

  /** `get_last_business_day_in_month`. */
  function LastBusinessDayInMonth(m: Month): (r: Day)
    ensures MonthOf(r) == m && IsLastBusinessDay(r, MonthStart(m + 1) - 1)
  {
    MonthTable(m);
    var rows := MonthCalendar(m);
    var day := MaxOf(rows[|rows| - 1][..5]);
    MonthOfUnique(MonthStart(m) + day - 1, m);
    MonthStart(m) + day - 1
  }

  // ----- The last business day before a year, month or quarter, by walking back

  method WalkBack(n: Day) returns (r: Day)
    ensures IsLastBusinessDay(r, n) && n - 2 <= r
  {
    r := n;
    while Weekday(r) >= 5
      invariant LastBusinessDay(n) <= r <= n
    {
      r := r - 1;
    }
  }

  /** `get_last_business_day_of_previous_year`. */
  method LastBusinessDayOfPreviousYear(n: Day) returns (r: Day)
    ensures IsLastBusinessDay(r, MonthStart(12 * YearOf(n)) - 1)
  {
    MonthSplit(YearOf(n) - 1, 11);
    MonthStartStep(12 * YearOf(n) - 1);
    r := WalkBack(Date(YearOf(n) - 1, 12, 31));
  }

  /** `get_last_business_day_of_previous_month`. */
  method LastBusinessDayOfPreviousMonth(n: Day) returns (r: Day)
    ensures IsLastBusinessDay(r, MonthStart(MonthOf(n)) - 1)
    ensures r == LastBusinessDayInMonth(MonthOf(n) - 1)
  {
    hide MonthLength, MonthOf, SumOfMonths, LastBusinessDayInMonth;
    var firstDayOfMonth := Date(YearOf(n), MonthNumber(n), 1);
    r := WalkBack(firstDayOfMonth - 1);
    LastBusinessDayUnique(r, LastBusinessDayInMonth(MonthOf(n) - 1), MonthStart(MonthOf(n)) - 1);
  }

  lemma QuarterStart(n: Day, first: int)
    requires first == 1 || first == 4 || first == 7 || first == 10
    requires first <= MonthNumber(n) < first + 3
    ensures 12 * YearOf(n) + first - 1 == MonthOf(n) - MonthOf(n) % 3
  {
    hide MonthLength, MonthStart, MonthOf;
    assert MonthOf(n) == 3 * (4 * YearOf(n) + (first - 1) / 3) + (MonthNumber(n) - first);
  }

  /** `get_last_business_day_in_previous_quarter`. */
  method LastBusinessDayInPreviousQuarter(n: Day) returns (r: Day)
    ensures IsLastBusinessDay(r, MonthStart(MonthOf(n) - MonthOf(n) % 3) - 1)
  {
    hide MonthLength, MonthOf, SumOfMonths, IsLastBusinessDay;
    var number := MonthNumber(n);
    var first := if number <= 3 then 1 else if number <= 6 then 4 else if number <= 9 then 7 else 10;
    var startDate := Date(YearOf(n), first, 1);
    QuarterStart(n, first);
    r := WalkBack(startDate - 1);
  }

  /**
   The independent computations of a last business day agree: weekday arithmetic, the calendar
   table and (through LastBusinessDayUnique) the walk back all give the same day.
   */
  lemma LastBusinessDaysAgree(n: Day)
    ensures LastBusinessDayInMonth(MonthOf(n)) == LastBusinessDay(LastDayOfMonth(n))
  {
    LastBusinessDayUnique(LastBusinessDayInMonth(MonthOf(n)), LastBusinessDay(LastDayOfMonth(n)),
                          LastDayOfMonth(n));
  }

  // ----- Lists of days

  /** The business days of the closed range [lo, hi], in order. */
  function BusinessDaysIn(lo: Day, hi: Day): seq<Day>
    decreases hi - lo
  {
    if hi < lo then []
    else BusinessDaysIn(lo, hi - 1) + (if IsBusinessDay(hi) then [hi] else [])
  }

  /** `get_list_of_business_days_between_two_dates`. */
  method ListOfBusinessDays(dateFrom: Day, dateTo: Day) returns (result: seq<Day>)
    ensures result == BusinessDaysIn(dateFrom, dateTo)
  {
    result := [];
    var i := 0;
    while i < dateTo - dateFrom + 1
      invariant 0 <= i && (i <= dateTo - dateFrom + 1 || i == 0)
      invariant result == BusinessDaysIn(dateFrom, dateFrom + i - 1)
    {
      var day := dateFrom + i;
      if IsBusinessDay(day) {
        result := result + [day];
      }
      i := i + 1;
    }
  }

  lemma {:induction false} BusinessDaysInMeaning(lo: Day, hi: Day)
    ensures forall d :: d in BusinessDaysIn(lo, hi) <==> lo <= d <= hi && IsBusinessDay(d)
    ensures forall i, j | 0 <= i < j < |BusinessDaysIn(lo, hi)| ::
              BusinessDaysIn(lo, hi)[i] < BusinessDaysIn(lo, hi)[j]
    decreases hi - lo
  {
    if lo <= hi {
      BusinessDaysInMeaning(lo, hi - 1);
      var init := BusinessDaysIn(lo, hi - 1);
      assert forall i | 0 <= i < |init| :: init[i] in init;
    }
  }

  /** How many days of the closed range [lo, hi] fall on weekday w. */
  function DaysOn(w: int, lo: Day, hi: Day): nat
    decreases hi - lo
  {
    if hi < lo then 0 else DaysOn(w, lo, hi - 1) + (if Weekday(hi) == w then 1 else 0)
  }

  lemma {:induction false} DaysOnGap(w: int, lo: Day, mid: Day, hi: Day)
    requires lo <= mid <= hi + 1
    requires forall d | mid <= d <= hi :: Weekday(d) != w
    ensures DaysOn(w, lo, hi) == DaysOn(w, lo, mid - 1)
    decreases hi - mid
  {
    if mid <= hi {
      DaysOnGap(w, lo, mid, hi - 1);
    }
  }

  lemma FirstOccurrence(w: int, d: Day)
    requires 0 <= w <= 6
    ensures var first := d + (w - Weekday(d)) % 7;
            d <= first && Weekday(first) == w && forall k | d <= k < first :: Weekday(k) != w
  {
  }

  lemma WeekLater(w: int, d: Day)
    requires Weekday(d) == w
    ensures Weekday(d + 7) == w && forall k | d < k < d + 7 :: Weekday(k) != w
  {
  }

  /** `weekday`: counts what `rrule(WEEKLY, dtstart, until, byweekday)` yields, week by week. */
  method CountWeekday(dt1: Day, dt2: Day, w: int) returns (count: nat)
    requires 0 <= w <= 6
    ensures count == DaysOn(w, dt1, dt2)
  {
    var d := dt1 + (w - Weekday(dt1)) % 7;
    FirstOccurrence(w, dt1);
    count := 0;
    ghost var reached := dt1 - 1;
    while d <= dt2
      invariant dt1 - 1 <= reached < d && Weekday(d) == w
      invariant reached <= dt2 || reached == dt1 - 1
      invariant forall k | reached < k < d :: Weekday(k) != w
      invariant count == DaysOn(w, dt1, reached)
    {
      DaysOnGap(w, dt1, reached + 1, d - 1);
      count := count + 1;
      reached := d;
      WeekLater(w, d);
      d := d + 7;
    }
    if reached <= dt2 {
      DaysOnGap(w, dt1, reached + 1, dt2);
    }
  }

  lemma {:induction false} BusinessDaysByElimination(lo: Day, hi: Day)
    requires lo <= hi + 1
    ensures |BusinessDaysIn(lo, hi)| == hi - lo + 1 - DaysOn(5, lo, hi) - DaysOn(6, lo, hi)
    decreases hi - lo
  {
    if lo <= hi {
      BusinessDaysByElimination(lo, hi - 1);
    }
  }

  // ----- Months between two dates

  /** For dateFrom <= last: dateFrom, then the first day of every later month up to that of last. */
  function MonthsTouched(dateFrom: Day, last: Day): (r: seq<Day>)
    requires dateFrom <= last
    ensures |r| == MonthOf(last) - MonthOf(dateFrom) + 1 && r[0] == dateFrom
    ensures forall k | 0 < k < |r| :: r[k] == MonthStart(MonthOf(dateFrom) + k)
  {
    MonthOfMonotone(dateFrom, last);
    seq(MonthOf(last) - MonthOf(dateFrom) + 1, k => if k == 0 then dateFrom else MonthStart(MonthOf(dateFrom) + k))
  }

  function MonthList(dateFrom: Day, dateTo: Day): seq<Day> {
    if dateFrom <= dateTo then MonthsTouched(dateFrom, dateTo)
    else if DayOf(dateFrom) != 1 then [dateFrom]
    else []
  }

  lemma MonthsTouchedNext(dateFrom: Day, day: Day)
    requires dateFrom < day
    ensures MonthsTouched(dateFrom, day)
            == MonthsTouched(dateFrom, day - 1) + if DayOf(day) == 1 then [day] else []
  {
    hide MonthLength, MonthStart, MonthOf;
    MonthOfMonotone(dateFrom, day - 1);
    TomorrowsMonth(day - 1);
  }

  /** `get_list_of_months_between_two_dates`: a scan over the days of the range. */
  method ListOfMonths(dateFrom: Day, dateTo: Day) returns (result: seq<Day>)
    ensures result == MonthList(dateFrom, dateTo)
  {
    hide MonthLength, MonthStart, MonthOf;
    result := [];
    if DayOf(dateFrom) != 1 {
      result := result + [dateFrom];
    }
    var i := 0;
    while i < dateTo - dateFrom + 1
      invariant 0 <= i && (i <= dateTo - dateFrom + 1 || i == 0)
      invariant i == 0 ==> result == if DayOf(dateFrom) != 1 then [dateFrom] else []
      invariant i > 0 ==> result == MonthsTouched(dateFrom, dateFrom + i - 1)
    {
      var day := dateFrom + i;
      if i > 0 {
        MonthsTouchedNext(dateFrom, day);
      }
      if DayOf(day) == 1 {
        result := result + [day];
      }
      i := i + 1;
    }
  }

  /** The reported end of month m: its last business day, except dateTo itself in the final month. */
  function MonthEndEntry(m: Month, dateTo: Day): Day {
    if m == MonthOf(dateTo) then dateTo else LastBusinessDayInMonth(m)
  }

  /** One entry per month touched. */
  function MonthEnds(dateFrom: Day, dateTo: Day): (r: seq<Day>)
    requires dateFrom <= dateTo
  {
    MonthOfMonotone(dateFrom, dateTo);
    seq(MonthOf(dateTo) - MonthOf(dateFrom) + 1, k => MonthEndEntry(MonthOf(dateFrom) + k, dateTo))
  }

  lemma MonthEndsAt(dateFrom: Day, dateTo: Day)
    requires dateFrom <= dateTo
    ensures |MonthEnds(dateFrom, dateTo)| == MonthOf(dateTo) - MonthOf(dateFrom) + 1 > 0
    ensures forall k | 0 <= k < |MonthEnds(dateFrom, dateTo)| ::
              MonthEnds(dateFrom, dateTo)[k] == MonthEndEntry(MonthOf(dateFrom) + k, dateTo)
  {
    hide MonthLength, MonthStart, MonthOf, MonthEndEntry;
    MonthOfMonotone(dateFrom, dateTo);
  }

  lemma SameMonth(a: Day, b: Day)
    ensures YearOf(a) == YearOf(b) && MonthNumber(a) == MonthNumber(b) <==> MonthOf(a) == MonthOf(b)
  {
    assert MonthOf(a) == 12 * YearOf(a) + MonthNumber(a) - 1;
    assert MonthOf(b) == 12 * YearOf(b) + MonthNumber(b) - 1;
  }

  lemma MonthOfTouched(dateFrom: Day, last: Day, k: nat)
    requires dateFrom <= last && k < |MonthsTouched(dateFrom, last)|
    ensures MonthOf(MonthsTouched(dateFrom, last)[k]) == MonthOf(dateFrom) + k
  {
    hide MonthLength, MonthStart, MonthOf;
    var m := MonthOf(dateFrom) + k;
    if k > 0 {
      MonthStartStep(m);
      MonthOfUnique(MonthStart(m), m);
    }
  }

  /** `get_last_bdays_of_months_between_two_dates`. */
  method LastBdaysOfMonths(dateFrom: Day, dateTo: Day) returns (endOfMonths: seq<Day>)
    ensures dateFrom <= dateTo ==> endOfMonths == MonthEnds(dateFrom, dateTo)
    ensures dateTo < dateFrom ==>
              endOfMonths == if DayOf(dateFrom) != 1 then [MonthEndEntry(MonthOf(dateFrom), dateTo)] else []
  {
    hide MonthLength, MonthStart, MonthOf, IsLastBusinessDay, LastBusinessDayInMonth, MonthsTouched, MonthEnds;
    var months := ListOfMonths(dateFrom, dateTo);
    endOfMonths := [];
    for i := 0 to |months|
      invariant |endOfMonths| == i
      invariant forall k | 0 <= k < i :: endOfMonths[k] == MonthEndEntry(MonthOf(months[k]), dateTo)
    {
      var month := months[i];
      SameMonth(month, dateTo);
      var lastBusinessDay := LastBusinessDayInMonth(MonthOf(month));
      if YearOf(month) == YearOf(dateTo) && MonthNumber(month) == MonthNumber(dateTo) {
        endOfMonths := endOfMonths + [dateTo];
      } else {
        endOfMonths := endOfMonths + [lastBusinessDay];
      }
    }
    if dateFrom <= dateTo {
      MonthEndsAt(dateFrom, dateTo);
      forall k | 0 <= k < |months|
        ensures endOfMonths[k] == MonthEnds(dateFrom, dateTo)[k]
      {
        MonthOfTouched(dateFrom, dateTo, k);
      }
    }
  }

  /**
   Exactly one entry per calendar month touched, strictly increasing, ending in dateTo, every
   earlier one the greatest business day of its month.
   */
  lemma MonthEndsMeaning(dateFrom: Day, dateTo: Day)
    requires dateFrom <= dateTo
    ensures var r := MonthEnds(dateFrom, dateTo);
            && |r| == 12 * (YearOf(dateTo) - YearOf(dateFrom)) + MonthNumber(dateTo) - MonthNumber(dateFrom) + 1
            && r[|r| - 1] == dateTo
            && (forall k | 0 <= k < |r| :: MonthOf(r[k]) == MonthOf(dateFrom) + k)
            && (forall k | 0 <= k < |r| - 1 :: IsLastBusinessDay(r[k], MonthStart(MonthOf(r[k]) + 1) - 1))
            && (forall j, k | 0 <= j < k < |r| :: r[j] < r[k])
  {
    hide MonthLength, MonthStart, MonthOf, IsLastBusinessDay, LastBusinessDayInMonth, MonthEnds;
    MonthEndsAt(dateFrom, dateTo);
    var r := MonthEnds(dateFrom, dateTo);
    assert MonthOf(dateFrom) == 12 * YearOf(dateFrom) + MonthNumber(dateFrom) - 1;
    assert MonthOf(dateTo) == 12 * YearOf(dateTo) + MonthNumber(dateTo) - 1;
    forall j, k | 0 <= j < k < |r|
      ensures r[j] < r[k]
    {
      assert MonthOf(r[j]) == MonthOf(dateFrom) + j && MonthOf(r[k]) == MonthOf(dateFrom) + k;
      if r[k] <= r[j] {
        MonthOfMonotone(r[k], r[j]);
      }
    }
  }
}

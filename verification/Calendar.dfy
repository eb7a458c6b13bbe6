/**
 The proleptic Gregorian calendar behind `datetime.date`.

 A date is its ordinal (`date.toordinal()`): day 1 is Monday 1 January of year 1.
 A month is numbered 12 * year + (month - 1), so month arithmetic is integer arithmetic.
 Ordinals are unbounded: the year limits of `datetime.date` are not part of this model.
 */
module Calendar {

  type Day = int
  type Month = int

  predicate IsLeap(y: int) {
    y % 4 == 0 && (y % 100 != 0 || y % 400 == 0)
  }

  function MonthLength(m: Month): (n: int)
    ensures 28 <= n <= 31
  {
    var number := m % 12 + 1;
    if number == 2 then (if IsLeap(m / 12) then 29 else 28)
    else if number == 4 || number == 6 || number == 9 || number == 11 then 30
    else 31
  }

  /** Month lengths summed from January of year 1. */
  function SumOfMonths(m: Month): Day
    decreases if m < 12 then 12 - m else m - 12
  {
    if m == 12 then 1
    else if m > 12 then SumOfMonths(m - 1) + MonthLength(m - 1)
    else SumOfMonths(m + 1) - MonthLength(m)
  }

  /** The first day of a month. */
  function MonthStart(m: Month): Day {
    SumOfMonths(m)
  }

  lemma MonthStartStep(m: Month)
    ensures MonthStart(m + 1) == MonthStart(m) + MonthLength(m)
  {
  }

  lemma {:induction false} MonthStartMonotone(a: Month, b: Month)
    requires a <= b
    ensures MonthStart(a) + 28 * (b - a) <= MonthStart(b) <= MonthStart(a) + 31 * (b - a)
    decreases b - a
  {
    if a < b {
      MonthStartMonotone(a, b - 1);
      MonthStartStep(b - 1);
    }
  }

  function FindMonth(n: Day): (m: Month)
    ensures MonthStart(m) <= n < MonthStart(m + 1)
    decreases if n < 1 then 1 - n else n - 1
  {
    if n == 1 then
      MonthStartStep(12);
      12
    else if n > 1 then
      var p := FindMonth(n - 1);
      MonthStartStep(p + 1);
      if n < MonthStart(p + 1) then p else p + 1
    else
      var p := FindMonth(n + 1);
      MonthStartStep(p - 1);
      if MonthStart(p) <= n then p else p - 1
  }

  /** The month a day lies in. */
  function MonthOf(n: Day): (m: Month)
    ensures MonthStart(m) <= n < MonthStart(m + 1)
  {
    FindMonth(n)
  }

  lemma MonthOfUnique(n: Day, m: Month)
    requires MonthStart(m) <= n < MonthStart(m + 1)
    ensures MonthOf(n) == m
  {
    var p := MonthOf(n);
    if p < m {
      MonthStartMonotone(p + 1, m);
    } else if m < p {
      MonthStartMonotone(m + 1, p);
    }
  }

  lemma MonthOfMonotone(a: Day, b: Day)
    requires a <= b
    ensures MonthOf(a) <= MonthOf(b)
  {
    if MonthOf(b) < MonthOf(a) {
      MonthStartMonotone(MonthOf(b) + 1, MonthOf(a));
    }
  }

  /** `date.year`, `date.month` and `date.day`. */
  function YearOf(n: Day): int {
    MonthOf(n) / 12
  }

  function MonthNumber(n: Day): (r: int)
    ensures 1 <= r <= 12
  {
    MonthOf(n) % 12 + 1
  }

  function DayOf(n: Day): (d: int)
    ensures 1 <= d <= MonthLength(MonthOf(n)) <= 31
  {
    MonthStartStep(MonthOf(n));
    n - MonthStart(MonthOf(n)) + 1
  }

  /** `date(y, m, d)`; like `datetime.date`, only for a day the month has. */
  function Date(y: int, m: int, d: int): (n: Day)
    requires 1 <= m <= 12 && 1 <= d <= MonthLength(12 * y + m - 1)
    ensures YearOf(n) == y && MonthNumber(n) == m && DayOf(n) == d
  {
    var month := 12 * y + m - 1;
    MonthStartStep(month);
    MonthOfUnique(MonthStart(month) + d - 1, month);
    MonthStart(month) + d - 1
  }

  /** The year, month and day determine the date, and order dates as the ordinals do. */
  lemma CivilOrder(a: Day, b: Day)
    ensures a < b <==>
            || YearOf(a) < YearOf(b)
            || (YearOf(a) == YearOf(b) && MonthNumber(a) < MonthNumber(b))
            || (YearOf(a) == YearOf(b) && MonthNumber(a) == MonthNumber(b) && DayOf(a) < DayOf(b))
  {
    assert MonthOf(a) == 12 * YearOf(a) + MonthNumber(a) - 1;
    assert MonthOf(b) == 12 * YearOf(b) + MonthNumber(b) - 1;
    if a < b {
      MonthOfMonotone(a, b);
    } else {
      MonthOfMonotone(b, a);
    }
  }

  /** Monday is 0, as in `date.weekday()`. */
  function Weekday(n: Day): (w: int)
    ensures 0 <= w <= 6
  {
    (n + 6) % 7
  }

  /** The closed form of CPython's `_days_before_year`. */
  function DaysBeforeYear(y: int): int {
    var p := y - 1;
    365 * p + p / 4 - p / 100 + p / 400
  }

  /** Months are numbered within their year. */
  lemma MonthSplit(y: int, i: int)
    requires 0 <= i < 12
    ensures (12 * y + i) / 12 == y && (12 * y + i) % 12 == i
  {
  }

  lemma QuarterLength(y: int, i: int)
    requires i == 0 || i == 3 || i == 6 || i == 9
    ensures MonthStart(12 * y + i + 3) - MonthStart(12 * y + i)
            == if i == 0 then (if IsLeap(y) then 91 else 90) else if i == 3 then 91 else 92
  {
    var j := 12 * y + i;
    MonthSplit(y, i);
    MonthSplit(y, i + 1);
    MonthSplit(y, i + 2);
    MonthStartStep(j);
    MonthStartStep(j + 1);
    MonthStartStep(j + 2);
  }

  lemma YearLength(y: int)
    ensures MonthStart(12 * y + 12) - MonthStart(12 * y) == if IsLeap(y) then 366 else 365
  {
    QuarterLength(y, 0);
    QuarterLength(y, 3);
    QuarterLength(y, 6);
    QuarterLength(y, 9);
  }

  lemma DaysBeforeYearStep(y: int)
    ensures DaysBeforeYear(y + 1) - DaysBeforeYear(y) == if IsLeap(y) then 366 else 365
  {
    assert y / 4 - (y - 1) / 4 == if y % 4 == 0 then 1 else 0;
    assert y / 100 - (y - 1) / 100 == if y % 100 == 0 then 1 else 0;
    assert y / 400 - (y - 1) / 400 == if y % 400 == 0 then 1 else 0;
    MultipleOf100(y);
    MultipleOf400(y);
  }

  lemma MultipleOf100(y: int)
    ensures y % 100 == 0 ==> y % 4 == 0
  {
    if y % 100 == 0 {
      assert y == 4 * (25 * (y / 100));
    }
  }

  lemma MultipleOf400(y: int)
    ensures y % 400 == 0 ==> y % 100 == 0
  {
    if y % 400 == 0 {
      assert y == 100 * (4 * (y / 400));
    }
  }

  /** Summing month lengths and the closed form agree on the first day of every year. */
  lemma {:induction false} OrdinalClosedForm(y: int)
    ensures MonthStart(12 * y) == DaysBeforeYear(y) + 1
    decreases if y < 1 then 1 - y else y - 1
  {
    if y > 1 {
      OrdinalClosedForm(y - 1);
      YearLength(y - 1);
      DaysBeforeYearStep(y - 1);
    } else if y < 1 {
      OrdinalClosedForm(y + 1);
      YearLength(y);
      DaysBeforeYearStep(y);
    }
  }

  /** `date + relativedelta(months=k)`: the day is clipped to the length of the month reached. */
  function AddMonths(n: Day, k: int): (r: Day)
    ensures MonthOf(r) == MonthOf(n) + k
    ensures DayOf(r) == Min(DayOf(n), MonthLength(MonthOf(n) + k))
  {
    var month := MonthOf(n) + k;
    var r := MonthStart(month) + Min(DayOf(n), MonthLength(month)) - 1;
    MonthStartStep(month);
    MonthOfUnique(r, month);
    r
  }

  function Min(a: int, b: int): int {
    if a <= b then a else b
  }

  lemma AddMonthsStrict(n: Day, j: int, k: int)
    requires j < k
    ensures AddMonths(n, j) < AddMonths(n, k)
  {
    hide MonthLength, MonthStart, MonthOf, AddMonths;
    MonthStartMonotone(MonthOf(n) + j + 1, MonthOf(n) + k);
  }
}

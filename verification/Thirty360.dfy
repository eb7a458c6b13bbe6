/** The 30/360 day count of section 4.16(f) of the 2006 ISDA Definitions, as the source computes it. */
module Thirty360 {
  import opened Calendar

  /** The numerator of `_accrual_factor_30_360`. */
  function Count(dt1: Day, dt2: Day): int {
    var d1 := if DayOf(dt1) == 31 then 30 else DayOf(dt1);
    var d2 := if DayOf(dt2) == 31 && (d1 == 30 || d1 == 31) then 30 else DayOf(dt2);
    (YearOf(dt2) - YearOf(dt1)) * 360 + (MonthNumber(dt2) - MonthNumber(dt1)) * 30 + (d2 - d1)
  }

  /** A day's position in a calendar whose months all have 30 days. */
  function Position(n: Day): int {
    30 * MonthOf(n) + Min(DayOf(n), 30)
  }

  /** The only way the count differs from subtracting positions: a 31st counted from before a 30th. */
  function ExtraDay(dt1: Day, dt2: Day): int {
    if DayOf(dt2) == 31 && DayOf(dt1) < 30 then 1 else 0
  }

  lemma CountByPosition(dt1: Day, dt2: Day)
    ensures Count(dt1, dt2) == Position(dt2) - Position(dt1) + ExtraDay(dt1, dt2)
  {
    assert MonthOf(dt1) == 12 * YearOf(dt1) + MonthNumber(dt1) - 1;
    assert MonthOf(dt2) == 12 * YearOf(dt2) + MonthNumber(dt2) - 1;
  }

  lemma PositionMonotone(a: Day, b: Day)
    requires a <= b
    ensures Position(a) <= Position(b)
    ensures MonthOf(a) < MonthOf(b) ==> Position(a) < Position(b)
    ensures MonthOf(a) == MonthOf(b) ==> DayOf(a) <= DayOf(b)
  {
    MonthOfMonotone(a, b);
  }

  /** Moving the end later never lowers the count; moving the start later never raises it. */
  lemma CountMonotone(a: Day, b: Day, c: Day)
    requires a <= b
    ensures Count(c, a) <= Count(c, b)
    ensures Count(b, c) <= Count(a, c)
  {
    MonthOfMonotone(a, b);
    PositionMonotone(a, b);
    CountByPosition(c, a);
    CountByPosition(c, b);
    CountByPosition(a, c);
    CountByPosition(b, c);
  }

  lemma CountNonNegative(dt1: Day, dt2: Day)
    requires dt1 <= dt2
    ensures 0 <= Count(dt1, dt2)
  {
    CountMonotone(dt1, dt2, dt1);
  }

  /** Splitting a period at any day changes the total by the stated amount, at most one day either way. */
  lemma CountAdditive(a: Day, b: Day, c: Day)
    ensures Count(a, b) + Count(b, c) - Count(a, c)
            == ExtraDay(a, b) + ExtraDay(b, c) - ExtraDay(a, c)
    ensures -1 <= Count(a, b) + Count(b, c) - Count(a, c) <= 1
  {
    CountByPosition(a, b);
    CountByPosition(b, c);
    CountByPosition(a, c);
  }

  /** A move of k months counts 30 days each, unless the target month is too short for the day. */
  lemma CountOfMonths(n: Day, k: int)
    ensures Count(n, AddMonths(n, k)) == 30 * k <==> Min(DayOf(n), 30) <= MonthLength(MonthOf(n) + k)
  {
    CountByPosition(n, AddMonths(n, k));
  }

  /** How far the 30-day calendar is ahead of the actual one at the start of a month. */
  function Lead(m: Month): int {
    30 * m - MonthStart(m)
  }

  /** The lead gained since January: March is the highest month, January to February the only dip before it. */
  function LeadWithinYear(leap: bool, i: int): (r: int)
    requires 0 <= i <= 12
    ensures -6 <= r <= 1
  {
    if i == 0 then 0
    else if i == 1 then -1
    else [1, 0, 0, -1, -1, -2, -3, -3, -4, -4, -5][i - 2] - (if leap then 1 else 0)
  }

  lemma {:induction false} LeadProfile(y: int, i: int)
    requires 0 <= i <= 12
    ensures Lead(12 * y + i) == Lead(12 * y) + LeadWithinYear(IsLeap(y), i)
    decreases i
  {
    hide MonthStart;
    if i > 0 {
      LeadProfile(y, i - 1);
      MonthStartStep(12 * y + i - 1);
      MonthSplit(y, i - 1);
    }
  }

  lemma {:induction false} LeadFallsYearly(y1: int, y2: int)
    requires y1 <= y2
    ensures Lead(12 * y2) <= Lead(12 * y1) - 5 * (y2 - y1)
    decreases y2 - y1
  {
    if y1 < y2 {
      LeadFallsYearly(y1, y2 - 1);
      LeadProfile(y2 - 1, 12);
    }
  }

  lemma DipWithinYear(leap: bool, i: int, j: int)
    requires 0 <= i <= j <= 12
    ensures LeadWithinYear(leap, j) - LeadWithinYear(leap, i) <= 2
  {
    assert i == 0 || i == 1 || LeadWithinYear(leap, j) <= LeadWithinYear(leap, i);
  }

  lemma LeadNeverGainsMoreThanTwo(a: Month, b: Month)
    requires a <= b
    ensures Lead(b) - Lead(a) <= 2
  {
    var y1, i1, y2, i2 := a / 12, a % 12, b / 12, b % 12;
    assert y1 < y2 || (y1 == y2 && i1 <= i2);
    LeadProfile(y1, i1);
    LeadProfile(y2, i2);
    LeadFallsYearly(y1, y2);
    if y1 == y2 {
      DipWithinYear(IsLeap(y1), i1, i2);
    }
  }

  /** Over a span of any length the count exceeds the actual number of days by at most 2. */
  lemma CountAtMostActualPlusTwo(dt1: Day, dt2: Day)
    requires dt1 <= dt2
    ensures Count(dt1, dt2) <= dt2 - dt1 + 2
  {
    CountByPosition(dt1, dt2);
    MonthOfMonotone(dt1, dt2);
    var a, b := MonthOf(dt1), MonthOf(dt2);
    if a < b && DayOf(dt1) == 31 {
      MonthStartStep(a);
      LeadNeverGainsMoreThanTwo(a + 1, b);
    } else {
      LeadNeverGainsMoreThanTwo(a, b);
    }
  }

  /** The bound is reached: 28 February to 1 March of a common year counts 3 days for 1. */
  lemma BoundIsReached(y: int)
    requires !IsLeap(y)
    ensures var dt1, dt2 := Date(y, 2, 28), Date(y, 3, 1); Count(dt1, dt2) == dt2 - dt1 + 2
  {
    var dt1, dt2 := Date(y, 2, 28), Date(y, 3, 1);
    MonthStartStep(12 * y + 1);
    CountByPosition(dt1, dt2);
  }
}

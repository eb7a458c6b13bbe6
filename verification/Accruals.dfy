/** Accrued-interest factors: `calculate_accrual_schedule_factor` and its day counts. */
module Accruals {
  import opened Calendar
  import opened BusinessDays
  import Thirty360

  datatype Option<+T> = None | Some(value: T)

  datatype Periodicity =
    | NDay | NWeekEobw | NMonthEom | NMonthSameDay | NYearEoy | NYearSameDay
    | Weekly | Monthly | Bimonthly | Quarterly | SemiAnnually | Annually | Default

  /** `Periodicity.to_freq`: coupons a year. */
  function ToFreq(p: Periodicity): nat {
    match p
    case Weekly => 52
    case Monthly => 12
    case Bimonthly => 6
    case Quarterly => 4
    case SemiAnnually => 2
    case Annually => 1
    case _ => 0
  }

  /** `Periodicity.to_timedelta(i=1)` in months, for the periodicities the coupon window uses it for. */
  function PeriodMonths(p: Periodicity): (months: int)
    requires 0 < ToFreq(p) <= 12
    ensures months > 0 && months * ToFreq(p) == 12
  {
    match p
    case Monthly => 1
    case Bimonthly => 2
    case Quarterly => 3
    case SemiAnnually => 6
    case Annually => 12
  }

  /** The day-count conventions the source branches on; Other is any further id. */
  datatype Convention =
    | NoCount | ActActIcma | ActActIsda | Act360 | Act364 | Act365 | Act366 | Act365A | Act365L
    | Thirty360US | Thirty360German | Nl365 | Bd252 | Thirty360Isda | ThirtyE360 | ThirtyEPlus360 | Other

  /** A computed number, or the exception the source raises instead. */
  datatype Outcome = Factor(value: real) | DivisionByZero | UnknownConvention

  // ----- The coupon window

  /** The k-th payment date counted from the first one. */
  function Payment(first: Day, months: int, k: int): Day {
    AddMonths(first, months * k)
  }

  /** k is the least number of periods that carries the first payment past dt2. */
  ghost predicate IsLeastPast(first: Day, months: int, dt2: Day, k: nat) {
    && dt2 < Payment(first, months, k)
    && forall j: nat | j < k :: Payment(first, months, j) <= dt2
  }

  lemma PaymentsIncrease(first: Day, months: int, j: int, k: int)
    requires 0 < months && j < k
    ensures Payment(first, months, j) < Payment(first, months, k)
  {
    assert months * j < months * k;
    AddMonthsStrict(first, months * j, months * k);
  }

  lemma LeastPastUnique(first: Day, months: int, dt2: Day, k: nat, k': nat)
    requires IsLeastPast(first, months, dt2, k) && IsLeastPast(first, months, dt2, k')
    ensures k == k'
  {
  }

  datatype Window = Window(start: Day, end: Day)

  /** What the window search leaves in dt1 and dt3 when it stops after k periods. */
  function WindowAfter(dt1: Day, dt2: Day, dt3: Day, months: int, maturity: Option<Day>, k: nat): Window {
    var end := Payment(dt3, months, k);
    Window(if k > 0 then AddMonths(end, -months) else dt1,
           if maturity.Some? && dt2 < maturity.value <= end then maturity.value else end)
  }

  /** The search loop: dt3 moves to the first payment after dt2, dt1 to one period before it. */
  method CouponWindow(dt1: Day, dt2: Day, dt3: Day, months: int, maturity: Option<Day>)
    returns (w: Window, k: nat)
    requires months > 0
    ensures IsLeastPast(dt3, months, dt2, k)
    ensures w == WindowAfter(dt1, dt2, dt3, months, maturity, k)
  {
    hide MonthLength, MonthStart, MonthOf, AddMonths;
    var i := 0;
    while Payment(dt3, months, i) <= dt2
      invariant 0 <= i
      invariant forall j: nat | j < i :: Payment(dt3, months, j) <= dt2
      decreases dt2 - Payment(dt3, months, i)
    {
      PaymentsIncrease(dt3, months, i, i + 1);
      i := i + 1;
    }
    k := i;
    var end := Payment(dt3, months, i);
    var start := dt1;
    if i > 0 {
      start := AddMonths(end, -months);
    }
    if maturity.Some? && end >= maturity.value > dt2 {
      end := maturity.value;
    }
    w := Window(start, end);
  }

  /** Going a + b months forward in one step and b back lands on a months forward, clipped again. */
  lemma MonthsBack(n: Day, b: int, a: int)
    requires b > 0
    ensures AddMonths(AddMonths(n, a + b), -b) <= AddMonths(n, a)
    ensures AddMonths(AddMonths(n, a + b), -b) == AddMonths(n, a)
            <==> Min(DayOf(n), MonthLength(MonthOf(n) + a)) <= MonthLength(MonthOf(n) + a + b)
  {
    hide MonthLength, MonthStart, MonthOf;
    var end, prev := AddMonths(n, a + b), AddMonths(n, a);
    var start := AddMonths(end, -b);
    assert MonthOf(start) == MonthOf(prev);
    assert DayOf(start) == Min(DayOf(end), MonthLength(MonthOf(prev)));
  }

  /** The window's start is the payment before its end, clipped once more through the end's month. */
  lemma StartBelowPreviousPayment(first: Day, months: int, k: nat)
    requires months > 0 && k > 0
    ensures AddMonths(Payment(first, months, k), -months) <= Payment(first, months, k - 1)
    ensures AddMonths(Payment(first, months, k), -months) == Payment(first, months, k - 1)
            <==> Min(DayOf(first), MonthLength(MonthOf(first) + months * (k - 1)))
                 <= MonthLength(MonthOf(first) + months * k)
  {
    hide MonthLength, MonthStart, MonthOf;
    assert months * k == months * (k - 1) + months;
    MonthsBack(first, months, months * (k - 1));
  }

  /**
   After the search dt1 <= dt2 < dt3: even where clipping shortens months, and whether or not the
   maturity date cuts the window.
   */
  lemma WindowBrackets(dt1: Day, dt2: Day, dt3: Day, months: int, maturity: Option<Day>, k: nat)
    requires months > 0 && dt1 <= dt2
    requires IsLeastPast(dt3, months, dt2, k)
    ensures var w := WindowAfter(dt1, dt2, dt3, months, maturity, k); w.start <= dt2 < w.end
  {
    if k > 0 {
      StartBelowPreviousPayment(dt3, months, k);
      assert Payment(dt3, months, k - 1) <= dt2;
    }
  }

  // ----- NL/365

  /** 29 February of a leap year. */
  function LeapDay(y: int): (n: Day)
    requires IsLeap(y)
    ensures YearOf(n) == y
  {
    MonthSplit(y, 1);
    Date(y, 2, 29)
  }

  predicate IsLeapDay(n: Day) {
    MonthNumber(n) == 2 && DayOf(n) == 29
  }

  /** Whether year y's 29 February lies in (dt1, dt2]. */
  predicate CrossesLeapDay(y: int, dt1: Day, dt2: Day) {
    IsLeap(y) && dt1 < LeapDay(y) <= dt2
  }

  /** The numerator of NL/365: only the leap days of the two end years are looked for, and at most one is taken off. */
  function NoLeapNumerator(dt1: Day, dt2: Day): int {
    var k := if CrossesLeapDay(YearOf(dt1), dt1, dt2) || CrossesLeapDay(YearOf(dt2), dt1, dt2) then 1 else 0;
    dt2 - dt1 - k
  }

  /** How many days of (dt1, dt2] are not a 29 February. */
  function OrdinaryDays(dt1: Day, dt2: Day): nat
    decreases dt2 - dt1
  {
    if dt2 <= dt1 then 0 else OrdinaryDays(dt1, dt2 - 1) + (if IsLeapDay(dt2) then 0 else 1)
  }

  lemma {:induction false} OrdinaryDaysSplit(a: Day, b: Day, c: Day)
    requires a <= b <= c
    ensures OrdinaryDays(a, c) == OrdinaryDays(a, b) + OrdinaryDays(b, c)
    decreases c - b
  {
    hide IsLeapDay;
    if b < c {
      OrdinaryDaysSplit(a, b, c - 1);
    }
  }

  lemma LeapDaysAreLeapDays(n: Day)
    ensures IsLeapDay(n) <==> IsLeap(YearOf(n)) && n == LeapDay(YearOf(n))
  {
    hide MonthStart, MonthOf;
    var y := YearOf(n);
    if IsLeapDay(n) {
      assert MonthOf(n) == 12 * y + 1;
      MonthSplit(y, 1);
    } else if IsLeap(y) && n == LeapDay(y) {
      MonthSplit(y, 1);
    }
  }

  lemma {:induction false} OrdinaryDaysWithoutLeapDay(a: Day, b: Day)
    requires a <= b && forall n | a < n <= b :: !IsLeapDay(n)
    ensures OrdinaryDays(a, b) == b - a
    decreases b - a
  {
    if a < b {
      OrdinaryDaysWithoutLeapDay(a, b - 1);
    }
  }

  /** Within one year at most one day of the span is a leap day. */
  lemma OrdinaryDaysInYear(a: Day, b: Day, y: int)
    requires a <= b && forall n | a < n <= b :: YearOf(n) == y
    ensures OrdinaryDays(a, b) == b - a - if CrossesLeapDay(y, a, b) then 1 else 0
  {
    hide MonthLength, MonthStart, MonthOf, YearOf, LeapDay, IsLeapDay, IsLeap;
    forall n | a < n <= b
      ensures IsLeapDay(n) <==> IsLeap(y) && n == LeapDay(y)
    {
      LeapDaysAreLeapDays(n);
    }
    if CrossesLeapDay(y, a, b) {
      var d := LeapDay(y);
      OrdinaryDaysSplit(a, d - 1, b);
      OrdinaryDaysSplit(d - 1, d, b);
      OrdinaryDaysWithoutLeapDay(a, d - 1);
      OrdinaryDaysWithoutLeapDay(d, b);
      assert OrdinaryDays(d - 1, d) == 0;
    } else {
      OrdinaryDaysWithoutLeapDay(a, b);
    }
  }

  lemma YearOfBetween(n: Day, y: int)
    ensures YearOf(n) == y <==> MonthStart(12 * y) <= n < MonthStart(12 * y + 12)
    ensures YearOf(n) < y <==> n < MonthStart(12 * y)
  {
    hide MonthLength, MonthStart, MonthOf;
    var m := MonthOf(n);
    assert m == 12 * (m / 12) + m % 12;
    if m < 12 * y {
      MonthStartMonotone(m + 1, 12 * y);
    } else {
      MonthStartMonotone(12 * y, m);
    }
    if m < 12 * y + 12 {
      MonthStartMonotone(m + 1, 12 * y + 12);
    } else {
      MonthStartMonotone(12 * y + 12, m);
    }
  }

  /** From the end of year y1 to the start of year y2: all days count unless a leap year lies between. */
  lemma {:induction false} WholeYears(y1: int, y2: int)
    requires y1 < y2
    ensures var e, s := MonthStart(12 * y1 + 12) - 1, MonthStart(12 * y2) - 1;
            && e <= s
            && OrdinaryDays(e, s) <= s - e
            && (OrdinaryDays(e, s) == s - e <==> forall y | y1 < y < y2 :: !IsLeap(y))
    decreases y2 - y1
  {
    hide MonthLength, MonthStart, MonthOf, YearOf, IsLeap, IsLeapDay, LeapDay;
    var e, s := MonthStart(12 * y1 + 12) - 1, MonthStart(12 * y2) - 1;
    if y1 + 1 < y2 {
      WholeYears(y1, y2 - 1);
      var z := y2 - 1;
      var b := MonthStart(12 * z) - 1;
      assert 12 * z + 12 == 12 * y2;
      MonthStartMonotone(12 * z, 12 * y2);
      OrdinaryDaysSplit(e, b, s);
      forall n | b < n <= s
        ensures YearOf(n) == z
      {
        YearOfBetween(n, z);
      }
      OrdinaryDaysInYear(b, s, z);
      if IsLeap(z) {
        YearOfBetween(LeapDay(z), z);
      }
      assert CrossesLeapDay(z, b, s) <==> IsLeap(z);
    } else {
      assert 12 * y1 + 12 == 12 * y2;
    }
  }

  /**
   When the closed form counts exactly the days that are not a 29 February: the dates are in order,
   no leap year lies strictly between the two end years, and the end years, when they differ, do
   not both contribute a leap day.
   */
  lemma NoLeapNumeratorExact(dt1: Day, dt2: Day)
    ensures var y1, y2 := YearOf(dt1), YearOf(dt2);
            NoLeapNumerator(dt1, dt2) == OrdinaryDays(dt1, dt2) <==>
              && dt1 <= dt2
              && (forall y | y1 < y < y2 :: !IsLeap(y))
              && !(y1 < y2 && CrossesLeapDay(y1, dt1, dt2) && CrossesLeapDay(y2, dt1, dt2))
  {
    hide MonthLength, MonthStart, MonthOf, YearOf, IsLeap, LeapDay;
    var y1, y2 := YearOf(dt1), YearOf(dt2);
    if dt1 <= dt2 {
      YearOfBetween(dt1, y1);
      YearOfBetween(dt2, y2);
      forall n | dt1 < n <= dt2
        ensures y1 <= YearOf(n) <= y2
      {
        YearOfBetween(n, y1);
        YearOfBetween(n, y2 + 1);
        assert 12 * (y2 + 1) == 12 * y2 + 12;
      }
      if y1 == y2 {
        OrdinaryDaysInYear(dt1, dt2, y1);
      } else {
        YearOfBetween(dt2, y1);
        SpanOverYears(dt1, dt2);
      }
    }
  }

  lemma SpanOverYears(dt1: Day, dt2: Day)
    requires YearOf(dt1) < YearOf(dt2)
    ensures var y1, y2 := YearOf(dt1), YearOf(dt2);
            var e, s := MonthStart(12 * y1 + 12) - 1, MonthStart(12 * y2) - 1;
            var hits := (if CrossesLeapDay(y1, dt1, dt2) then 1 else 0) + (if CrossesLeapDay(y2, dt1, dt2) then 1 else 0);
            && dt1 <= e <= s < dt2
            && OrdinaryDays(dt1, dt2) == (dt2 - dt1) - (s - e) + OrdinaryDays(e, s) - hits
            && OrdinaryDays(e, s) <= s - e
            && (OrdinaryDays(e, s) == s - e <==> forall y | y1 < y < y2 :: !IsLeap(y))
  {
    hide MonthLength, MonthStart, MonthOf, YearOf, IsLeap, LeapDay, IsLeapDay;
    var y1, y2 := YearOf(dt1), YearOf(dt2);
    var e, s := MonthStart(12 * y1 + 12) - 1, MonthStart(12 * y2) - 1;
    YearOfBetween(dt1, y1);
    YearOfBetween(dt2, y2);
    WholeYears(y1, y2);
    OrdinaryDaysSplit(dt1, e, dt2);
    OrdinaryDaysSplit(e, s, dt2);
    forall n | dt1 < n <= e
      ensures YearOf(n) == y1
    {
      YearOfBetween(n, y1);
    }
    forall n | s < n <= dt2
      ensures YearOf(n) == y2
    {
      YearOfBetween(n, y2);
    }
    OrdinaryDaysInYear(dt1, e, y1);
    OrdinaryDaysInYear(s, dt2, y2);
    if IsLeap(y1) {
      YearOfBetween(LeapDay(y1), y1);
    }
    if IsLeap(y2) {
      YearOfBetween(LeapDay(y2), y2);
    }
    assert CrossesLeapDay(y1, dt1, e) == CrossesLeapDay(y1, dt1, dt2);
    assert CrossesLeapDay(y2, s, dt2) == CrossesLeapDay(y2, dt1, dt2);
  }

  /** In particular the closed form is right on any span within two consecutive calendar years. */
  lemma NoLeapNumeratorWithinTwoYears(dt1: Day, dt2: Day)
    requires dt1 <= dt2 && YearOf(dt2) <= YearOf(dt1) + 1
    ensures NoLeapNumerator(dt1, dt2) == OrdinaryDays(dt1, dt2)
  {
    hide MonthLength, MonthStart, MonthOf, YearOf, LeapDay;
    NoLeapNumeratorExact(dt1, dt2);
    assert !(IsLeap(YearOf(dt1)) && IsLeap(YearOf(dt1) + 1));
  }

  // ----- BD/252

  /** The numerator of BD/252. */
  function BusinessNumerator(dt1: Day, dt2: Day): int {
    dt2 - dt1 - DaysOn(5, dt1, dt2) - DaysOn(6, dt1, dt2)
  }

  /** It is the length of the business-day list less one, exactly when dt1 is at most a day past dt2. */
  lemma BusinessNumeratorExact(dt1: Day, dt2: Day)
    ensures BusinessNumerator(dt1, dt2) == |BusinessDaysIn(dt1, dt2)| - 1 <==> dt1 <= dt2 + 1
  {
    if dt1 <= dt2 + 1 {
      BusinessDaysByElimination(dt1, dt2);
    }
  }

  // ----- The factor of one period

  function Ratio(days: int, basis: int): real
    requires basis != 0
  {
    days as real / basis as real
  }

  /** 1 January of day n's year, and its distance from 31 December, which the source subtracts from it. */
  function NewYear(n: Day): Day {
    MonthStart(12 * YearOf(n))
  }

  function NegatedYearSpan(n: Day): (r: int)
    ensures r < 0
  {
    YearLength(YearOf(n));
    NewYear(n) - (MonthStart(12 * YearOf(n) + 12) - 1)
  }

  /** The ACT/ACT ISDA body, common to factor and coupon. */
  function IsdaFactor(dt1: Day, dt2: Day): real {
    if IsLeap(YearOf(dt1)) != IsLeap(YearOf(dt2)) then
      Ratio(NewYear(dt2) - dt1, NegatedYearSpan(dt1)) + Ratio(dt2 - NewYear(dt2), NegatedYearSpan(dt2))
    else
      Ratio(dt2 - dt1, 365)
  }

  /** `(dt + timedelta(days=1)).month == dt.month + 1`. */
  predicate MonthEndFlag(n: Day) {
    MonthNumber(n + 1) == MonthNumber(n) + 1
  }

  /** The end-of-month 30/360 numerator, common to factor and coupon. */
  function EndOfMonthNumerator(dt1: Day, dt2: Day, maturity: Day): int {
    var d1 := if MonthEndFlag(dt1) then 30 else DayOf(dt1);
    var d2 := if MonthEndFlag(dt2) && (dt2 != maturity || MonthNumber(dt2) != 2) then 30 else DayOf(dt2);
    (YearOf(dt2) - YearOf(dt1)) * 360 + (MonthNumber(dt2) - MonthNumber(dt1)) * 30 + (d2 - d1)
  }

  /** The day after 28 February of dt1's year lies in [dt1, dt2], and one end year is leap. */
  predicate CountsOver366(dt1: Day, dt2: Day) {
    && (IsLeap(YearOf(dt1)) || IsLeap(YearOf(dt2)))
    && dt1 <= MonthStart(12 * YearOf(dt1) + 1) + 28 <= dt2
  }

  /** The branches of `calculate_accrual_schedule_factor` once the window is known. */
  function PeriodFactor(c: Convention, freq: nat, dt1: Day, dt2: Day, dt3: Day, maturity: Option<Day>): Outcome
    requires freq > 0
  {
    match c
    case NoCount => Factor(0.0)
    case ActActIcma => if dt3 == dt1 then DivisionByZero else Factor(Ratio(dt2 - dt1, dt3 - dt1) / freq as real)
    case ActActIsda => Factor(IsdaFactor(dt1, dt2))
    case Act360 => Factor(Ratio(dt2 - dt1, 360))
    case Act365 => Factor(Ratio(dt2 - dt1, 365))
    case Act366 =>
      if YearOf(dt1) < YearOf(dt2) then
        Factor(Ratio(dt2 - dt1 + 1, if CountsOver366(dt1, dt2) then 366 else 365))
      else Factor(0.0)
    case Act365A => Factor(Ratio(dt2 - dt1 + 1, 365))
    case Thirty360US => Factor(Ratio(Thirty360.Count(dt1, dt2), 360))
    case Thirty360German => Factor(Ratio(Thirty360.Count(dt1, dt2), 360))
    case Nl365 => Factor(Ratio(NoLeapNumerator(dt1, dt2), 365))
    case Bd252 => Factor(Ratio(BusinessNumerator(dt1, dt2), 252))
    case Thirty360Isda => EndOfMonthFactor(dt1, dt2, maturity)
    case ThirtyE360 => EndOfMonthFactor(dt1, dt2, maturity)
    case _ => UnknownConvention
  }

  function EndOfMonthFactor(dt1: Day, dt2: Day, maturity: Option<Day>): Outcome {
    match maturity
    case None => Factor(0.0)
    case Some(m) => Factor(Ratio(EndOfMonthNumerator(dt1, dt2, m), 360))
  }

  /**
   `calculate_accrual_schedule_factor`. Missing inputs give 0, more than twelve periods a year give
   0, no fixed period gives one year from dt1, and anything else searches the coupon window.
   */
  method ScheduleFactor(c: Option<Convention>, p: Option<Periodicity>, dt1: Option<Day>, dt2: Option<Day>,
                        dt3: Option<Day>, maturity: Option<Day>)
    returns (r: Outcome, k: nat)
    ensures c.None? || p.None? || dt1.None? || dt2.None? || dt3.None? ==> r == Factor(0.0)
    ensures c.Some? && p.Some? && dt1.Some? && dt2.Some? && dt3.Some? ==>
              var freq := ToFreq(p.value);
              if freq > 12 then r == Factor(0.0)
              else if freq == 0 then
                r == PeriodFactor(c.value, 1, dt1.value, dt2.value, AddMonths(dt1.value, 12), maturity)
              else
                && IsLeastPast(dt3.value, PeriodMonths(p.value), dt2.value, k)
                && var w := WindowAfter(dt1.value, dt2.value, dt3.value, PeriodMonths(p.value), maturity, k);
                r == PeriodFactor(c.value, freq, w.start, dt2.value, w.end, maturity)
  {
    hide MonthLength, MonthStart, MonthOf, AddMonths, PeriodFactor, IsLeastPast, WindowAfter;
    k := 0;
    if c.None? || p.None? || dt1.None? || dt2.None? || dt3.None? {
      return Factor(0.0), 0;
    }
    var freq := ToFreq(p.value);
    if 0 < freq <= 12 {
      var w;
      w, k := CouponWindow(dt1.value, dt2.value, dt3.value, PeriodMonths(p.value), maturity);
      r := PeriodFactor(c.value, freq, w.start, dt2.value, w.end, maturity);
    } else if freq >= 12 {
      r := Factor(0.0);
    } else {
      r := PeriodFactor(c.value, 1, dt1.value, dt2.value, AddMonths(dt1.value, 12), maturity);
    }
  }

  // ----- ACT/ACT ICMA over its coupon window

  lemma RatioOrder(a: int, b: int, n: int)
    requires n > 0
    ensures a < b <==> Ratio(a, n) < Ratio(b, n)
    ensures a == b <==> Ratio(a, n) == Ratio(b, n)
    ensures Ratio(0, n) == 0.0 && Ratio(n, n) == 1.0
  {
  }

  lemma DividedOrder(a: real, b: real, n: nat)
    requires n > 0
    ensures a < b <==> a / n as real < b / n as real
    ensures 0.0 / n as real == 0.0
  {
  }

  /** The factor a window gives on day dt2. */
  function IcmaFactor(p: Periodicity, dt1: Day, dt2: Day, dt3: Day, maturity: Option<Day>, k: nat): Outcome
    requires 0 < ToFreq(p) <= 12
  {
    var w := WindowAfter(dt1, dt2, dt3, PeriodMonths(p), maturity, k);
    PeriodFactor(ActActIcma, ToFreq(p), w.start, dt2, w.end, maturity)
  }

  /** The factor never fails and lies in [0, 1/freq): less than one coupon is ever accrued. */
  lemma IcmaFactorRange(p: Periodicity, dt1: Day, dt2: Day, dt3: Day, maturity: Option<Day>, k: nat)
    requires 0 < ToFreq(p) <= 12 && dt1 <= dt2
    requires IsLeastPast(dt3, PeriodMonths(p), dt2, k)
    ensures var r := IcmaFactor(p, dt1, dt2, dt3, maturity, k);
            r.Factor? && 0.0 <= r.value < 1.0 / ToFreq(p) as real
  {
    hide MonthLength, MonthStart, MonthOf, AddMonths, IsLeastPast, WindowAfter, Ratio;
    WindowBrackets(dt1, dt2, dt3, PeriodMonths(p), maturity, k);
    var w := WindowAfter(dt1, dt2, dt3, PeriodMonths(p), maturity, k);
    RatioOrder(0, dt2 - w.start, w.end - w.start);
    RatioOrder(dt2 - w.start, w.end - w.start, w.end - w.start);
    DividedOrder(Ratio(dt2 - w.start, w.end - w.start), 1.0, ToFreq(p));
    DividedOrder(0.0, Ratio(dt2 - w.start, w.end - w.start), ToFreq(p));
  }

  /** A maturity date that falls between two days of one window, the first day included. */
  predicate MaturesBetween(a: Day, maturity: Option<Day>, b: Day) {
    maturity.Some? && a < maturity.value <= b
  }

  /**
   Between two days of the same window the factor strictly grows. When maturity falls between them
   the first day is measured against the window cut at maturity and the second against the whole
   one, and the factor grows exactly when the accrued days, each over its own window, do.
   */
  lemma IcmaFactorGrows(p: Periodicity, dt1: Day, a: Day, b: Day, dt3: Day, maturity: Option<Day>, k: nat)
    requires 0 < ToFreq(p) <= 12 && dt1 <= a < b
    requires IsLeastPast(dt3, PeriodMonths(p), a, k) && IsLeastPast(dt3, PeriodMonths(p), b, k)
    ensures var r, s := IcmaFactor(p, dt1, a, dt3, maturity, k), IcmaFactor(p, dt1, b, dt3, maturity, k);
            var w := WindowAfter(dt1, a, dt3, PeriodMonths(p), None, k);
            && r.Factor? && s.Factor?
            && (r.value < s.value <==>
                  (MaturesBetween(a, maturity, b) ==>
                     (a - w.start) * (w.end - w.start) < (b - w.start) * (maturity.value - w.start)))
  {
    hide MonthLength, MonthStart, MonthOf, AddMonths, IsLeastPast, Ratio;
    WindowBrackets(dt1, a, dt3, PeriodMonths(p), None, k);
    WindowBrackets(dt1, b, dt3, PeriodMonths(p), None, k);
    WindowBrackets(dt1, a, dt3, PeriodMonths(p), maturity, k);
    WindowBrackets(dt1, b, dt3, PeriodMonths(p), maturity, k);
    var u := WindowAfter(dt1, a, dt3, PeriodMonths(p), maturity, k);
    var v := WindowAfter(dt1, b, dt3, PeriodMonths(p), maturity, k);
    DividedOrder(Ratio(a - u.start, u.end - u.start), Ratio(b - v.start, v.end - v.start), ToFreq(p));
    if MaturesBetween(a, maturity, b) {
      CrossRatioOrder(a - u.start, u.end - u.start, b - v.start, v.end - v.start);
    } else {
      assert u == v;
      RatioOrder(a - u.start, b - u.start, u.end - u.start);
    }
  }

  lemma CrossRatioOrder(a: int, m: int, b: int, n: int)
    requires m > 0 && n > 0
    ensures Ratio(a, m) < Ratio(b, n) <==> a * n < b * m
  {
    var x, y := Ratio(a, m), Ratio(b, n);
    var rm, rn := m as real, n as real;
    assert x * rm == a as real && y * rn == b as real;
    var c := rm * rn;
    assert c > 0.0;
    assert x * c == a as real * rn == (a * n) as real;
    assert y * c == b as real * rm == (b * m) as real;
    assert x < y ==> x * c < y * c;
    assert x >= y ==> x * c >= y * c;
  }

  /** On the j-th payment date the search stops one period later. */
  lemma PaymentDateStop(dt3: Day, months: int, j: nat)
    requires months > 0
    ensures IsLeastPast(dt3, months, Payment(dt3, months, j), j + 1)
  {
    hide MonthLength, MonthStart, MonthOf, AddMonths, Payment;
    PaymentsIncrease(dt3, months, j, j + 1);
    forall i: nat | i < j
      ensures Payment(dt3, months, i) <= Payment(dt3, months, j)
    {
      PaymentsIncrease(dt3, months, i, j);
    }
  }

  lemma IcmaZeroAtWindowStart(p: Periodicity, dt1: Day, dt2: Day, dt3: Day, maturity: Option<Day>, k: nat)
    requires 0 < ToFreq(p) <= 12 && dt1 <= dt2
    requires IsLeastPast(dt3, PeriodMonths(p), dt2, k)
    ensures IcmaFactor(p, dt1, dt2, dt3, maturity, k) == Factor(0.0)
            <==> dt2 == WindowAfter(dt1, dt2, dt3, PeriodMonths(p), maturity, k).start
  {
    hide MonthLength, MonthStart, MonthOf, AddMonths, IsLeastPast, WindowAfter, Ratio;
    WindowBrackets(dt1, dt2, dt3, PeriodMonths(p), maturity, k);
    var w := WindowAfter(dt1, dt2, dt3, PeriodMonths(p), maturity, k);
    RatioOrder(0, dt2 - w.start, w.end - w.start);
    DividedOrder(0.0, Ratio(dt2 - w.start, w.end - w.start), ToFreq(p));
  }

  /**
   On a payment date nothing is accrued exactly when the date's day also exists in the month of the
   next payment. A first payment on day 28 or earlier always meets this; one on the 31st does not.
   */
  lemma IcmaZeroOnPaymentDate(p: Periodicity, dt1: Day, dt3: Day, maturity: Option<Day>, j: nat)
    requires 0 < ToFreq(p) <= 12 && dt1 <= Payment(dt3, PeriodMonths(p), j)
    ensures var months := PeriodMonths(p);
            IcmaFactor(p, dt1, Payment(dt3, months, j), dt3, maturity, j + 1) == Factor(0.0)
            <==> Min(DayOf(dt3), MonthLength(MonthOf(dt3) + months * j))
                 <= MonthLength(MonthOf(dt3) + months * (j + 1))
    ensures DayOf(dt3) <= 28 ==>
              IcmaFactor(p, dt1, Payment(dt3, PeriodMonths(p), j), dt3, maturity, j + 1) == Factor(0.0)
  {
    hide MonthLength, MonthStart, MonthOf, AddMonths, IsLeastPast, PeriodMonths, IcmaFactor, ToFreq, DayOf, Payment;
    var months := PeriodMonths(p);
    var dt2 := Payment(dt3, months, j);
    PaymentDateStop(dt3, months, j);
    StartBelowPreviousPayment(dt3, months, j + 1);
    IcmaZeroAtWindowStart(p, dt1, dt2, dt3, maturity, j + 1);
  }

  // ----- Conventions that deviate from their name

  /**
   ACT/ACT ISDA divides by a negative year length: for dates in order its factor is negative
   exactly when one of the two years is leap and the other is not.
   */
  lemma IsdaNegative(dt1: Day, dt2: Day)
    requires dt1 <= dt2
    ensures IsdaFactor(dt1, dt2) < 0.0 <==> IsLeap(YearOf(dt1)) != IsLeap(YearOf(dt2))
  {
    hide MonthLength, MonthStart, MonthOf, YearOf, IsLeap, NegatedYearSpan, DayOf, MonthNumber;
    YearOfBetween(dt2, YearOf(dt2));
    if IsLeap(YearOf(dt1)) != IsLeap(YearOf(dt2)) {
      YearOfBetween(dt1, YearOf(dt1));
      YearOfBetween(dt2, YearOf(dt1));
      YearOfBetween(dt1, YearOf(dt2));
      NegativeRatio(NewYear(dt2) - dt1, NegatedYearSpan(dt1));
      NegativeRatio(dt2 - NewYear(dt2), NegatedYearSpan(dt2));
    }
  }

  lemma NegativeRatio(a: int, b: int)
    requires 0 <= a && b < 0
    ensures Ratio(a, b) <= 0.0 && (a > 0 ==> Ratio(a, b) < 0.0)
  {
  }

  /** The end-of-month test recognises the last day of every month except December. */
  lemma MonthEndFlagExact(n: Day)
    ensures MonthEndFlag(n) <==> CheckIfLastDayOfMonth(n) && MonthNumber(n) != 12
  {
    hide MonthLength, MonthStart, MonthOf;
    TomorrowsMonth(n);
    LastDayTest(n);
    var m := MonthOf(n);
    assert (m + 1) % 12 == if m % 12 == 11 then 0 else m % 12 + 1;
  }

  /**
   The end-of-month numerator of dates in order is negative in one case only: accruing nothing on a
   maturity date at the end of February, where only the start counts as a 30th.
   */
  lemma EndOfMonthNegative(dt1: Day, dt2: Day, maturity: Day)
    requires dt1 <= dt2
    ensures EndOfMonthNumerator(dt1, dt2, maturity) < 0
            <==> dt1 == dt2 == maturity && MonthNumber(dt1) == 2 && CheckIfLastDayOfMonth(dt1)
  {
    hide MonthLength, MonthStart, MonthEndFlag, CheckIfLastDayOfMonth;
    MonthEndFlagExact(dt1);
    MonthEndFlagExact(dt2);
    MonthEndDay(dt1);
    MonthEndDay(dt2);
    MonthOfMonotone(dt1, dt2);
    CivilOrder(dt1, dt2);
    assert MonthOf(dt1) == 12 * YearOf(dt1) + MonthNumber(dt1) - 1;
    assert MonthOf(dt2) == 12 * YearOf(dt2) + MonthNumber(dt2) - 1;
  }

  /** The day number of a month's last day, and what it says about other days of the month. */
  lemma MonthEndDay(n: Day)
    ensures CheckIfLastDayOfMonth(n) <==> DayOf(n) == MonthLength(MonthOf(n))
    ensures DayOf(n) <= MonthLength(MonthOf(n))
    ensures MonthNumber(n) == 2 ==> 28 <= MonthLength(MonthOf(n)) <= 29
    ensures MonthNumber(n) in {4, 6, 9, 11} ==> MonthLength(MonthOf(n)) == 30
    ensures MonthNumber(n) in {1, 3, 5, 7, 8, 10, 12} ==> MonthLength(MonthOf(n)) == 31
  {
    hide MonthStart, MonthOf;
    LastDayTest(n);
  }

  /** Which factors are negative although the dates are in order. */
  predicate NegativeCase(c: Convention, dt1: Day, dt2: Day, maturity: Option<Day>) {
    match c
    case ActActIsda => IsLeap(YearOf(dt1)) != IsLeap(YearOf(dt2))
    case Bd252 => BusinessDaysIn(dt1, dt2) == []
    case Thirty360Isda => FebruaryMaturity(dt1, dt2, maturity)
    case ThirtyE360 => FebruaryMaturity(dt1, dt2, maturity)
    case _ => false
  }

  predicate FebruaryMaturity(dt1: Day, dt2: Day, maturity: Option<Day>) {
    dt1 == dt2 && maturity == Some(dt1) && MonthNumber(dt1) == 2 && CheckIfLastDayOfMonth(dt1)
  }

  /**
   For dates in order no convention divides by zero, and its factor is negative exactly under ACT/ACT ISDA
   between a leap and a common year, under BD/252 on a closed span without business days, and under
   the end-of-month conventions on a maturity at the end of February.
   */
  lemma FactorNonNegative(c: Convention, freq: nat, dt1: Day, dt2: Day, dt3: Day, maturity: Option<Day>)
    requires freq > 0 && dt1 <= dt2 < dt3
    ensures var r := PeriodFactor(c, freq, dt1, dt2, dt3, maturity);
            && !r.DivisionByZero?
            && (r.Factor? ==> (r.value < 0.0 <==> NegativeCase(c, dt1, dt2, maturity)))
  {
    hide MonthLength, MonthStart, MonthOf, AddMonths, YearOf, IsLeap, IsLeapDay, LeapDay, CrossesLeapDay;
    hide MonthEndFlag, EndOfMonthNumerator, CheckIfLastDayOfMonth, IsdaFactor, MonthNumber, DayOf;
    match c {
      case ActActIcma => DividedOrder(0.0, Ratio(dt2 - dt1, dt3 - dt1), freq);
      case ActActIsda => IsdaNegative(dt1, dt2);
      case Thirty360US => Thirty360.CountNonNegative(dt1, dt2);
      case Thirty360German => Thirty360.CountNonNegative(dt1, dt2);
      case Nl365 =>
        assert CrossesLeapDay(YearOf(dt1), dt1, dt2) || CrossesLeapDay(YearOf(dt2), dt1, dt2) ==> dt1 < dt2 by {
          CrossingNeedsADay(YearOf(dt1), dt1, dt2);
          CrossingNeedsADay(YearOf(dt2), dt1, dt2);
        }
      case Bd252 => BusinessNumeratorExact(dt1, dt2);
      case Thirty360Isda => EndOfMonthFactorNegative(dt1, dt2, maturity);
      case ThirtyE360 => EndOfMonthFactorNegative(dt1, dt2, maturity);
      case _ =>
    }
  }

  lemma EndOfMonthFactorNegative(dt1: Day, dt2: Day, maturity: Option<Day>)
    requires dt1 <= dt2
    ensures var r := EndOfMonthFactor(dt1, dt2, maturity);
            r.Factor? && (r.value < 0.0 <==> FebruaryMaturity(dt1, dt2, maturity))
  {
    hide EndOfMonthNumerator, CheckIfLastDayOfMonth, MonthNumber, Ratio;
    if maturity.Some? {
      EndOfMonthNegative(dt1, dt2, maturity.value);
      RatioOrder(EndOfMonthNumerator(dt1, dt2, maturity.value), 0, 360);
    }
  }

  lemma CrossingNeedsADay(y: int, dt1: Day, dt2: Day)
    ensures CrossesLeapDay(y, dt1, dt2) ==> dt1 < dt2
  {
  }

  // ----- get_coupon

  /** `cpn * days / basis`. */
  function Scaled(cpn: real, days: int, basis: int): real
    requires basis != 0
  {
    cpn * days as real / basis as real
  }

  /** `get_coupon` with the coupon size already converted (1 for a factor). */
  function Coupon(cpn: real, c: Convention, freq: nat, dt1: Day, dt2: Day, maturity: Option<Day>): Outcome {
    match c
    case NoCount => Factor(0.0)
    case ActActIcma => if freq == 0 then DivisionByZero else Factor(cpn / freq as real)
    case Act360 => Factor(Scaled(cpn, dt2 - dt1, 360))
    case Act364 => Factor(Scaled(cpn, dt2 - dt1, 365))
    case Thirty360US => Factor(Scaled(cpn, Thirty360.Count(dt1, dt2), 360))
    case Nl365 => Factor(Scaled(cpn, NoLeapNumerator(dt1, dt2), 365))
    case Bd252 => Factor(Scaled(cpn, BusinessNumerator(dt1, dt2), 252))
    case Thirty360Isda => EndOfMonthCoupon(cpn, dt1, dt2, maturity)
    case Thirty360German => EndOfMonthCoupon(cpn, dt1, dt2, maturity)
    case ActActIsda =>
      if IsLeap(YearOf(dt1)) != IsLeap(YearOf(dt2)) then Factor(cpn * IsdaFactor(dt1, dt2))
      else Factor(Scaled(cpn, dt2 - dt1, 365))
    case ThirtyEPlus360 =>
      var d1 := if DayOf(dt1) == 31 then 30 else DayOf(dt1);
      var (m2, d2) := if DayOf(dt2) == 31 then (MonthNumber(dt2) + 1, 1) else (MonthNumber(dt2), DayOf(dt2));
      Factor(Scaled(cpn, (YearOf(dt2) - YearOf(dt1)) * 360 + (m2 - MonthNumber(dt1)) * 30 + (d2 - d1), 360))
    case Act365A => Factor(Scaled(cpn, dt2 - dt1 + 1, 360))
    case Act365L =>
      if YearOf(dt1) < YearOf(dt2) then
        Factor(Scaled(cpn, dt2 - dt1 + 1, if CountsOver366(dt1, dt2) then 366 else 365))
      else Factor(0.0)
    case _ => UnknownConvention
  }

  function EndOfMonthCoupon(cpn: real, dt1: Day, dt2: Day, maturity: Option<Day>): Outcome {
    match maturity
    case None => Factor(0.0)
    case Some(m) => Factor(Scaled(cpn, EndOfMonthNumerator(dt1, dt2, m), 360))
  }

  /** A whole coupon is the size times the period's factor, under the conventions both functions share. */
  lemma CouponIsSizeTimesFactor(cpn: real, c: Convention, freq: nat, dt1: Day, dt2: Day, maturity: Option<Day>)
    requires freq > 0 && dt1 < dt2
    requires c in {NoCount, ActActIcma, ActActIsda, Act360, Thirty360US, Nl365, Bd252, Thirty360Isda}
    ensures var f := PeriodFactor(c, freq, dt1, dt2, dt2, maturity);
            f.Factor? && Coupon(cpn, c, freq, dt1, dt2, maturity) == Factor(cpn * f.value)
  {
    hide MonthLength, MonthStart, MonthOf, YearOf, MonthNumber, DayOf, IsLeap, CrossesLeapDay, MonthEndFlag;
    hide NoLeapNumerator, BusinessNumerator, Thirty360.Count, EndOfMonthNumerator, Ratio, Scaled, IsdaFactor;
    hide CountsOver366, AddMonths;
    match c {
      case ActActIcma => WholePeriod(cpn, freq, dt2 - dt1);
      case Act360 => ScaledRatio(cpn, dt2 - dt1, 360);
      case ActActIsda => IsdaSameLeap(cpn, dt1, dt2);
      case Thirty360US => ScaledRatio(cpn, Thirty360.Count(dt1, dt2), 360);
      case Nl365 => ScaledRatio(cpn, NoLeapNumerator(dt1, dt2), 365);
      case Bd252 => ScaledRatio(cpn, BusinessNumerator(dt1, dt2), 252);
      case Thirty360Isda =>
        if maturity.Some? {
          ScaledRatio(cpn, EndOfMonthNumerator(dt1, dt2, maturity.value), 360);
        }
      case _ =>
    }
  }

  /** ACT/365A divides by 365 in the factor and by 360 in the coupon: they agree only on coupons of size 0. */
  lemma Act365ACouponDiffers(cpn: real, freq: nat, dt1: Day, dt2: Day, maturity: Option<Day>)
    requires freq > 0 && dt1 <= dt2
    ensures var f := PeriodFactor(Act365A, freq, dt1, dt2, dt2, maturity);
            f.Factor? && (Coupon(cpn, Act365A, freq, dt1, dt2, maturity) == Factor(cpn * f.value) <==> cpn == 0.0)
  {
    hide MonthLength, MonthStart, MonthOf, YearOf, IsLeap;
    var days := dt2 - dt1 + 1;
    ScaledRatio(cpn, days, 360);
    TwoBases(cpn, days);
  }

  lemma TwoBases(cpn: real, days: int)
    requires days > 0
    ensures cpn * Ratio(days, 360) == cpn * Ratio(days, 365) <==> cpn == 0.0
  {
    var d := Ratio(days, 360) - Ratio(days, 365);
    assert d > 0.0;
    assert cpn * Ratio(days, 360) - cpn * Ratio(days, 365) == cpn * d;
    assert cpn != 0.0 ==> cpn * d != 0.0;
  }

  /**
   How much the 30/360 count and the end-of-month numerator move a date: the end of February counts
   as a 30th only in the latter, the end of December only in the former.
   */
  function StartGap(dt1: Day): int {
    if !CheckIfLastDayOfMonth(dt1) then 0
    else if MonthNumber(dt1) == 2 then DayOf(dt1) - 30
    else if MonthNumber(dt1) == 12 then -1
    else 0
  }

  /** The same for the end date, whose 31st the count keeps when it starts before a 30th. */
  function EndGap(dt1: Day, dt2: Day, maturity: Day): int {
    if DayOf(dt2) == 31 then
      (if DayOf(dt1) >= 30 then 0 else 1) - (if MonthNumber(dt2) == 12 then 1 else 0)
    else if CheckIfLastDayOfMonth(dt2) && MonthNumber(dt2) == 2 && dt2 != maturity then DayOf(dt2) - 30
    else 0
  }

  lemma NumeratorGap(dt1: Day, dt2: Day, maturity: Day)
    ensures Thirty360.Count(dt1, dt2) - EndOfMonthNumerator(dt1, dt2, maturity) == EndGap(dt1, dt2, maturity) - StartGap(dt1)
  {
    hide MonthLength, MonthStart, MonthOf, MonthEndFlag, CheckIfLastDayOfMonth, YearOf;
    MonthEndFlagExact(dt1);
    MonthEndFlagExact(dt2);
    MonthEndDay(dt1);
    MonthEndDay(dt2);
  }

  /** Whether 30/360 German measures the two dates alike in the factor and in the coupon. */
  predicate GermanAgrees(dt1: Day, dt2: Day, maturity: Option<Day>) {
    match maturity
    case None => Thirty360.Count(dt1, dt2) == 0
    case Some(m) => StartGap(dt1) == EndGap(dt1, dt2, m)
  }

  /**
   30/360 German takes the 30/360 count for the factor and the end-of-month numerator for the
   coupon: they agree exactly on coupons of size 0 and on dates whose month ends both move alike,
   and without a maturity date, where the coupon is 0, on dates that count 0 days.
   */
  lemma GermanCouponAgrees(cpn: real, freq: nat, dt1: Day, dt2: Day, dt3: Day, maturity: Option<Day>)
    requires freq > 0
    ensures var f := PeriodFactor(Thirty360German, freq, dt1, dt2, dt3, maturity);
            && f.Factor?
            && (Coupon(cpn, Thirty360German, freq, dt1, dt2, maturity) == Factor(cpn * f.value)
                <==> cpn == 0.0 || GermanAgrees(dt1, dt2, maturity))
  {
    hide Thirty360.Count, EndOfMonthNumerator, StartGap, EndGap, Ratio, Scaled;
    var count := Thirty360.Count(dt1, dt2);
    match maturity {
      case None =>
        RatioOrder(count, 0, 360);
        SameProduct(cpn, Ratio(count, 360), 0.0);
      case Some(m) =>
        NumeratorGap(dt1, dt2, m);
        var eom := EndOfMonthNumerator(dt1, dt2, m);
        ScaledRatio(cpn, eom, 360);
        RatioOrder(count, eom, 360);
        SameProduct(cpn, Ratio(count, 360), Ratio(eom, 360));
    }
  }

  lemma SameProduct(c: real, x: real, y: real)
    ensures c * x == c * y <==> c == 0.0 || x == y
  {
    assert c * x - c * y == c * (x - y);
  }

  lemma IsdaSameLeap(cpn: real, dt1: Day, dt2: Day)
    ensures IsLeap(YearOf(dt1)) == IsLeap(YearOf(dt2)) ==>
              Scaled(cpn, dt2 - dt1, 365) == cpn * IsdaFactor(dt1, dt2)
  {
    hide MonthLength, MonthStart, MonthOf, YearOf, IsLeap, NegatedYearSpan, NewYear;
    ScaledRatio(cpn, dt2 - dt1, 365);
  }

  lemma WholePeriod(cpn: real, freq: nat, days: int)
    requires freq > 0 && days > 0
    ensures cpn / freq as real == cpn * (Ratio(days, days) / freq as real)
  {
    RatioOrder(0, days, days);
  }

  lemma ScaledRatio(cpn: real, days: int, basis: int)
    requires basis > 0
    ensures Scaled(cpn, days, basis) == cpn * Ratio(days, basis)
  {
  }
}

/** What the numbers of the day-count conventions are worth: the spans over which each gives a whole year. */
module AccrualLaws {
  import opened Calendar
  import opened BusinessDays
  import opened Accruals
  import Thirty360

  /** The conventions the factor and the coupon know. */
  lemma KnownConventions(c: Convention, freq: nat, dt1: Day, dt2: Day, dt3: Day, maturity: Option<Day>, cpn: real)
    requires freq > 0
    ensures PeriodFactor(c, freq, dt1, dt2, dt3, maturity) == UnknownConvention
            <==> c in {Act364, Act365L, ThirtyEPlus360, Other}
    ensures Coupon(cpn, c, freq, dt1, dt2, maturity) == UnknownConvention
            <==> c in {Act365, Act366, ThirtyE360, Other}
    ensures PeriodFactor(NoCount, freq, dt1, dt2, dt3, maturity) == Coupon(cpn, NoCount, freq, dt1, dt2, maturity) == Factor(0.0)
  {
    hide MonthLength, MonthStart, MonthOf, YearOf, MonthNumber, DayOf, IsLeap, Ratio, Scaled, IsdaFactor, CountsOver366;
    hide EndOfMonthNumerator, NoLeapNumerator, BusinessNumerator, Thirty360.Count;
  }

  lemma RatioSum(a: int, b: int, n: int)
    requires n > 0
    ensures Ratio(a + b, n) == Ratio(a, n) + Ratio(b, n)
    ensures Ratio(0, n) == 0.0 && Ratio(n, n) == 1.0
  {
  }

  /** ACT/360 and ACT/365: nothing on the first day, the same each day, and 1 after 360 or 365 days. */
  lemma ActualDays(c: Convention, freq: nat, dt1: Day, dt2: Day, dt3: Day, maturity: Option<Day>)
    requires freq > 0 && (c == Act360 || c == Act365)
    ensures var year := if c == Act360 then 360 else 365;
            var r, s := PeriodFactor(c, freq, dt1, dt2, dt3, maturity), PeriodFactor(c, freq, dt1, dt2 + 1, dt3, maturity);
            && PeriodFactor(c, freq, dt1, dt1, dt3, maturity) == Factor(0.0)
            && PeriodFactor(c, freq, dt1, dt1 + year, dt3, maturity) == Factor(1.0)
            && r.Factor? && s.Factor? && s.value - r.value == 1.0 / year as real
  {
    RatioSum(dt2 - dt1, 1, 360);
    RatioSum(dt2 - dt1, 1, 365);
  }

  /** Over a common calendar year ACT/365 is exactly 1. */
  lemma CommonYear(y: int, freq: nat, dt3: Day, maturity: Option<Day>)
    requires freq > 0
    ensures PeriodFactor(Act365, freq, MonthStart(12 * y), MonthStart(12 * y + 12), dt3, maturity) == Factor(1.0)
            <==> !IsLeap(y)
  {
    hide MonthStart, MonthOf;
    YearLength(y);
    RatioOrder(366, 365, 365);
  }

  /** ACT/365A is ACT/365 with one more day. */
  lemma OneMoreDay(freq: nat, dt1: Day, dt2: Day, dt3: Day, maturity: Option<Day>)
    requires freq > 0
    ensures PeriodFactor(Act365A, freq, dt1, dt2, dt3, maturity) == PeriodFactor(Act365, freq, dt1, dt2 + 1, dt3, maturity)
  {
  }

  /** The leap rule of ACT/366: the start year's 29 February, or its 1 March before a leap year, lies in the closed span. */
  lemma LeapRule(dt1: Day, dt2: Day)
    ensures var y1, y2 := YearOf(dt1), YearOf(dt2);
            && MonthLength(12 * y1 + 2) == 31
            && (CountsOver366(dt1, dt2) <==>
                  if IsLeap(y1) then dt1 <= LeapDay(y1) <= dt2
                  else IsLeap(y2) && dt1 <= Date(y1, 3, 1) <= dt2)
  {
    hide MonthStart, MonthOf, YearOf;
    var y1 := YearOf(dt1);
    MonthSplit(y1, 1);
    MonthSplit(y1, 2);
    MonthStartStep(12 * y1 + 1);
    FirstOf(y1, 3);
    if IsLeap(y1) {
      LeapDayAt(y1);
    }
  }

  lemma FirstOf(y: int, m: int)
    requires 1 <= m <= 12
    ensures 1 <= MonthLength(12 * y + m - 1) && Date(y, m, 1) == MonthStart(12 * y + m - 1)
  {
    hide MonthStart, MonthOf;
    var n := Date(y, m, 1);
    assert MonthOf(n) == 12 * YearOf(n) + MonthNumber(n) - 1;
  }

  lemma LeapDayAt(y: int)
    requires IsLeap(y)
    ensures LeapDay(y) == MonthStart(12 * y + 1) + 28
  {
    hide MonthStart, MonthOf;
    MonthSplit(y, 1);
    var n := Date(y, 2, 29);
    assert MonthOf(n) == 12 * YearOf(n) + MonthNumber(n) - 1;
  }

  /** ACT/366 and the coupon of ACT/365L: nothing within a calendar year, else 1 when the closed span has 366 or 365 days. */
  lemma LeapConventions(freq: nat, dt1: Day, dt2: Day, dt3: Day, maturity: Option<Day>, cpn: real)
    requires freq > 0
    ensures var r, year := PeriodFactor(Act366, freq, dt1, dt2, dt3, maturity), if CountsOver366(dt1, dt2) then 366 else 365;
            && r.Factor?
            && (dt1 <= dt2 && YearOf(dt1) == YearOf(dt2) ==> r.value == 0.0)
            && (YearOf(dt1) < YearOf(dt2) ==>
                  (r.value == 1.0 <==> dt2 - dt1 + 1 == year) && r.value * year as real == (dt2 - dt1 + 1) as real)
            && Coupon(cpn, Act365L, freq, dt1, dt2, maturity) == Factor(cpn * r.value)
  {
    hide MonthLength, MonthStart, MonthOf, YearOf, IsLeap, CountsOver366;
    var days := dt2 - dt1 + 1;
    ScaledRatio(cpn, days, 366);
    ScaledRatio(cpn, days, 365);
    RatioOrder(days, 366, 366);
    RatioOrder(days, 365, 365);
  }

  lemma TwelfthOfYear(k: int)
    ensures Ratio(30 * k, 360) == k as real / 12.0
  {
  }

  /** 30/360: k months from a day that every month has are k twelfths, so twelve months are exactly 1. */
  lemma Thirty360Months(c: Convention, freq: nat, n: Day, k: int, dt3: Day, maturity: Option<Day>)
    requires freq > 0 && (c == Thirty360US || c == Thirty360German) && DayOf(n) <= 28
    ensures PeriodFactor(c, freq, n, AddMonths(n, k), dt3, maturity) == Factor(k as real / 12.0)
  {
    hide MonthStart, MonthOf, Thirty360.Count, Ratio, AddMonths;
    Thirty360.CountOfMonths(n, k);
    assert 28 <= MonthLength(MonthOf(n) + k);
    TwelfthOfYear(k);
  }

  /** So do the end-of-month conventions, for days that end no month, and without a maturity date they give 0. */
  lemma EndOfMonthMonths(c: Convention, freq: nat, n: Day, k: int, dt3: Day, maturity: Day)
    requires freq > 0 && (c == Thirty360Isda || c == ThirtyE360) && DayOf(n) <= 27
    ensures PeriodFactor(c, freq, n, AddMonths(n, k), dt3, Some(maturity)) == Factor(k as real / 12.0)
    ensures PeriodFactor(c, freq, n, AddMonths(n, k), dt3, None) == Factor(0.0)
  {
    hide MonthStart, MonthOf, Ratio, AddMonths, MonthEndFlag, CheckIfLastDayOfMonth;
    var m := AddMonths(n, k);
    MonthEndFlagExact(n);
    MonthEndFlagExact(m);
    MonthEndDay(n);
    MonthEndDay(m);
    assert 28 <= MonthLength(MonthOf(n)) && 28 <= MonthLength(MonthOf(m));
    assert MonthOf(m) == MonthOf(n) + k;
    assert MonthOf(n) == 12 * YearOf(n) + MonthNumber(n) - 1 && MonthOf(m) == 12 * YearOf(m) + MonthNumber(m) - 1;
    TwelfthOfYear(k);
  }

  /** NL/365: twelve months from any day are exactly 1, leap year or not. */
  lemma NoLeapYear(freq: nat, n: Day, dt3: Day, maturity: Option<Day>)
    requires freq > 0
    ensures PeriodFactor(Nl365, freq, n, AddMonths(n, 12), dt3, maturity) == Factor(1.0)
  {
    hide Ratio, NoLeapNumerator;
    NoLeapTwelveMonths(n);
    RatioSum(0, 0, 365);
  }

  lemma NoLeapTwelveMonths(n: Day)
    ensures NoLeapNumerator(n, AddMonths(n, 12)) == 365
  {
    hide MonthStart, MonthOf, AddMonths, LeapDay;
    var y, i := YearOf(n), MonthNumber(n) - 1;
    var m := AddMonths(n, 12);
    assert MonthOf(n) == 12 * y + i && MonthOf(m) == 12 * (y + 1) + i;
    assert YearOf(m) == y + 1;
    StartsOfMonths(y, i);
    StartsOfMonths(y + 1, i);
    StartsOfMonths(y, 1);
    StartsOfMonths(y + 1, 1);
    YearLength(y);
    assert 12 * (y + 1) == 12 * y + 12;
    if IsLeap(y) {
      LeapDayAt(y);
    }
    if IsLeap(y + 1) {
      LeapDayAt(y + 1);
    }
    MonthSplit(y, i);
    MonthSplit(y + 1, i);
  }

  /** Month i of year y starts so many days after the year does. */
  function DaysBefore(leap: bool, i: int): int
    requires 0 <= i <= 11
  {
    [0, 31, 59, 90, 120, 151, 181, 212, 243, 273, 304, 334][i] + (if leap && i > 1 then 1 else 0)
  }

  lemma {:induction false} StartsOfMonths(y: int, i: int)
    requires 0 <= i <= 11
    ensures MonthStart(12 * y + i) == MonthStart(12 * y) + DaysBefore(IsLeap(y), i)
    decreases i
  {
    hide MonthStart;
    if i > 0 {
      StartsOfMonths(y, i - 1);
      MonthStartStep(12 * y + i - 1);
      MonthSplit(y, i - 1);
    }
  }

  /** BD/252: 1 when 252 business days follow the first one of the closed span, and 1/252 more for each. */
  lemma BusinessYear(freq: nat, dt1: Day, dt2: Day, dt3: Day, maturity: Option<Day>)
    requires freq > 0 && dt1 <= dt2
    ensures var r, s := PeriodFactor(Bd252, freq, dt1, dt2, dt3, maturity), PeriodFactor(Bd252, freq, dt1, dt2 + 1, dt3, maturity);
            && r.Factor? && s.Factor?
            && (r.value == 1.0 <==> |BusinessDaysIn(dt1, dt2)| == 253)
            && (r.value == 0.0 <==> |BusinessDaysIn(dt1, dt2)| == 1)
            && s.value - r.value == if IsBusinessDay(dt2 + 1) then 1.0 / 252.0 else 0.0
  {
    hide Ratio, BusinessNumerator;
    BusinessNumeratorExact(dt1, dt2);
    BusinessNumeratorExact(dt1, dt2 + 1);
    var n := |BusinessDaysIn(dt1, dt2)| - 1;
    var step := if IsBusinessDay(dt2 + 1) then 1 else 0;
    assert |BusinessDaysIn(dt1, dt2 + 1)| - 1 == n + step;
    RatioSum(n, step, 252);
    RatioOrder(n, 252, 252);
    RatioOrder(n, 0, 252);
    assert Ratio(1, 252) == 1.0 / 252.0 by {
      UnitRatio(252);
    }
  }

  lemma UnitRatio(n: int)
    requires n > 0
    ensures Ratio(1, n) == 1.0 / n as real
  {
  }

  /** ACT/ACT ICMA: nothing at the period's start, equal steps each day, and a whole coupon period at its end. */
  lemma IcmaPeriod(freq: nat, dt1: Day, dt2: Day, dt3: Day, maturity: Option<Day>)
    requires freq > 0 && dt1 < dt3
    ensures var f, g := PeriodFactor(ActActIcma, freq, dt1, dt2, dt3, maturity), PeriodFactor(ActActIcma, freq, dt1, dt2 + 1, dt3, maturity);
            && PeriodFactor(ActActIcma, freq, dt1, dt1, dt3, maturity) == Factor(0.0)
            && PeriodFactor(ActActIcma, freq, dt1, dt3, dt3, maturity) == Factor(1.0 / freq as real)
            && f.Factor? && g.Factor? && g.value - f.value == (1.0 / (dt3 - dt1) as real) / freq as real
  {
    hide Ratio;
    RatioSum(dt2 - dt1, 1, dt3 - dt1);
    UnitRatio(dt3 - dt1);
    SharedQuotient(Ratio(dt2 - dt1, dt3 - dt1), Ratio(1, dt3 - dt1), freq);
    DividedOrder(0.0, 0.0, freq);
  }

  lemma SharedQuotient(a: real, b: real, n: nat)
    requires n > 0
    ensures (a + b) / n as real == a / n as real + b / n as real
  {
  }

  /**
   ACT/ACT ISDA: ACT/365 between years of the same kind; between a leap and a common year the days up
   to the end year's start and after it, each over one day less than its own year, and negated.
   */
  lemma IsdaParts(freq: nat, dt1: Day, dt2: Day, dt3: Day, maturity: Option<Day>)
    requires freq > 0
    ensures var y1, y2 := YearOf(dt1), YearOf(dt2);
            var start := MonthStart(12 * y2);
            var l1, l2 := if IsLeap(y1) then 365.0 else 364.0, if IsLeap(y2) then 365.0 else 364.0;
            PeriodFactor(ActActIsda, freq, dt1, dt2, dt3, maturity)
            == if IsLeap(y1) == IsLeap(y2) then PeriodFactor(Act365, freq, dt1, dt2, dt3, maturity)
               else Factor(-((start - dt1) as real / l1 + (dt2 - start) as real / l2))
  {
    hide MonthLength, MonthStart, MonthOf, YearOf, IsLeap;
    YearLength(YearOf(dt1));
    YearLength(YearOf(dt2));
    var start := MonthStart(12 * YearOf(dt2));
    NegatedBasis(start - dt1, 365);
    NegatedBasis(start - dt1, 364);
    NegatedBasis(dt2 - start, 365);
    NegatedBasis(dt2 - start, 364);
  }

  lemma NegatedBasis(days: int, n: int)
    requires n > 0
    ensures Ratio(days, -n) == -(days as real / n as real)
  {
  }

  // ----- Coupons that have no factor of the same kind

  /** The coupon of ACT/364 is in fact that of ACT/365. */
  lemma CouponAct364(cpn: real, freq: nat, dt1: Day, dt2: Day, maturity: Option<Day>)
    requires freq > 0
    ensures PeriodFactor(Act365, freq, dt1, dt2, dt2, maturity).Factor?
    ensures Coupon(cpn, Act364, freq, dt1, dt2, maturity)
            == Factor(cpn * PeriodFactor(Act365, freq, dt1, dt2, dt2, maturity).value)
  {
    ScaledRatio(cpn, dt2 - dt1, 365);
  }

  /** 30E+/360: a start on the 31st counts as the 30th, an end on the 31st as the 1st of the next month. */
  lemma ThirtyEPlusOn31st(cpn: real, freq: nat, dt1: Day, dt2: Day, maturity: Option<Day>)
    ensures DayOf(dt1) == 31 ==>
              Coupon(cpn, ThirtyEPlus360, freq, dt1, dt2, maturity) == Coupon(cpn, ThirtyEPlus360, freq, dt1 - 1, dt2, maturity)
    ensures DayOf(dt2) == 31 ==>
              Coupon(cpn, ThirtyEPlus360, freq, dt1, dt2, maturity) == Coupon(cpn, ThirtyEPlus360, freq, dt1, dt2 + 1, maturity)
  {
    hide MonthLength, MonthStart, MonthOf, Scaled, DayOf, YearOf, MonthNumber;
    if DayOf(dt1) == 31 {
      DayBefore(dt1);
    }
    if DayOf(dt2) == 31 {
      DayAfter31st(dt2);
    }
  }

  lemma DayBefore(n: Day)
    requires DayOf(n) == 31
    ensures DayOf(n - 1) == 30 && YearOf(n - 1) == YearOf(n) && MonthNumber(n - 1) == MonthNumber(n)
  {
    hide MonthLength, MonthStart, MonthOf;
    assert MonthOf(n - 1) == MonthOf(n) by {
      MonthOfUnique(n - 1, MonthOf(n));
    }
  }

  lemma DayAfter31st(n: Day)
    requires DayOf(n) == 31
    ensures DayOf(n + 1) == 1
    ensures 12 * YearOf(n + 1) + MonthNumber(n + 1) == 12 * YearOf(n) + MonthNumber(n) + 1
  {
    hide MonthLength, MonthStart, MonthOf;
    TomorrowsMonth(n);
    assert MonthOf(n) == 12 * YearOf(n) + MonthNumber(n) - 1;
    assert MonthOf(n + 1) == 12 * YearOf(n + 1) + MonthNumber(n + 1) - 1;
  }

  /** And k months from a day that every month has are k twelfths of the coupon. */
  lemma ThirtyEPlusMonths(cpn: real, freq: nat, n: Day, k: int, maturity: Option<Day>)
    requires DayOf(n) <= 28
    ensures Coupon(cpn, ThirtyEPlus360, freq, n, AddMonths(n, k), maturity) == Factor(cpn * (k as real / 12.0))
  {
    hide MonthStart, MonthOf, AddMonths, Scaled;
    var m := AddMonths(n, k);
    assert DayOf(m) == DayOf(n) && MonthOf(m) == MonthOf(n) + k;
    assert MonthOf(n) == 12 * YearOf(n) + MonthNumber(n) - 1 && MonthOf(m) == 12 * YearOf(m) + MonthNumber(m) - 1;
    ScaledRatio(cpn, 30 * k, 360);
    TwelfthOfYear(k);
  }

  // ----- Periodicities

  /** Which periodicities the coupon window serves, which it refuses, and which have no fixed period. */
  lemma PeriodicitiesByFrequency(p: Periodicity)
    ensures 0 < ToFreq(p) <= 12 <==> p in {Monthly, Bimonthly, Quarterly, SemiAnnually, Annually}
    ensures ToFreq(p) > 12 <==> p == Weekly
    ensures ToFreq(Weekly) == 52
    ensures ToFreq(p) == 0 <==> p in {NDay, NWeekEobw, NMonthEom, NMonthSameDay, NYearEoy, NYearSameDay, Default}
  {
  }

  /** A year after the first payment comes the 1st annual, 2nd semi-annual, 4th quarterly, 6th bimonthly, 12th monthly one. */
  lemma PaymentsOfAYear(first: Day)
    ensures Payment(first, PeriodMonths(Annually), 1) == AddMonths(first, 12)
    ensures Payment(first, PeriodMonths(SemiAnnually), 2) == AddMonths(first, 12)
    ensures Payment(first, PeriodMonths(Quarterly), 4) == AddMonths(first, 12)
    ensures Payment(first, PeriodMonths(Bimonthly), 6) == AddMonths(first, 12)
    ensures Payment(first, PeriodMonths(Monthly), 12) == AddMonths(first, 12)
    ensures YearOf(AddMonths(first, 12)) == YearOf(first) + 1 && MonthNumber(AddMonths(first, 12)) == MonthNumber(first)
    ensures ToFreq(Annually) == 1 && ToFreq(SemiAnnually) == 2 && ToFreq(Quarterly) == 4 && ToFreq(Bimonthly) == 6 && ToFreq(Monthly) == 12
  {
    hide MonthLength, MonthStart, MonthOf;
    assert MonthOf(AddMonths(first, 12)) == MonthOf(first) + 12;
  }

  /** The method: 73 days into a common year, an annual ACT/365 coupon has accrued a fifth. */
  method FifthOfAYear(dt1: Day) returns (r: Outcome)
    requires MonthNumber(dt1) == 1 && DayOf(dt1) == 1
    ensures r == Factor(0.2)
  {
    hide MonthLength, MonthStart, MonthOf;
    var dt3 := AddMonths(dt1, 12);
    YearAhead(dt1);
    var k;
    r, k := ScheduleFactor(Some(Act365), Some(Annually), Some(dt1), Some(dt1 + 73), Some(dt3), None);
    LeastPastUnique(dt3, 12, dt1 + 73, 0, k);
    assert r == Factor(Ratio(73, 365));
  }

  lemma YearAhead(dt1: Day)
    ensures IsLeastPast(AddMonths(dt1, 12), 12, dt1 + 73, 0)
  {
    hide MonthLength, MonthStart, MonthOf;
    NoLeapTwelveMonths(dt1);
    hide AddMonths, LeapDay, YearOf, IsLeap;
    var dt3 := AddMonths(dt1, 12);
    assert dt3 >= dt1 + 365;
    PaymentZero(dt3, 12);
  }

  lemma PaymentZero(first: Day, months: int)
    ensures Payment(first, months, 0) == first
  {
    hide MonthLength, MonthStart, MonthOf;
    var r := AddMonths(first, 0);
    assert MonthOf(r) == MonthOf(first) && DayOf(r) == DayOf(first);
  }
}

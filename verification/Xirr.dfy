/**
 Net present value and internal rate of return (`f_xnpv`, `f_xirr`), over exact reals.

 The source discounts by (1 + rate) ** (days / 365). Here a rate is given by the growth b over one
 unit of days, with 1 + rate = b ** (365 / unit). The unit is a day, which covers flows at any gaps
 for rates above -1, or a year, which covers every rate for flows at whole-year gaps. Rates below -1
 with other gaps, where Python leaves the reals, are not part of this model.
 */
module Xirr {

  datatype Flow = Flow(day: int, value: real)

  /** A float that may be `inf`. */
  datatype Amount = Finite(value: real) | Infinite

  datatype Xnpv = Value(amount: Amount) | IndexError

  // ----- Powers

  function Pow(b: real, n: nat): real {
    if n == 0 then 1.0 else b * Pow(b, n - 1)
  }

  const DAY: nat := 1
  const YEAR: nat := 365

  /** b ** n for a whole n of either sign. */
  function Growth(b: real, n: int): (r: real)
    requires b != 0.0
    ensures r != 0.0
    ensures b > 0.0 ==> r > 0.0
  {
    PowNonZero(b, if n >= 0 then n else -n);
    if n >= 0 then Pow(b, n) else 1.0 / Pow(b, -n)
  }

  lemma {:induction false} PowNonZero(b: real, n: nat)
    requires b != 0.0
    ensures Pow(b, n) != 0.0
    ensures b > 0.0 ==> Pow(b, n) > 0.0
  {
    if n > 0 {
      PowNonZero(b, n - 1);
      NonZeroProduct(b, Pow(b, n - 1));
      if b > 0.0 {
        ProductPositive(b, Pow(b, n - 1));
      }
    }
  }

  lemma NonZeroProduct(a: real, b: real)
    requires a != 0.0 && b != 0.0
    ensures a * b != 0.0
  {
  }

  lemma ProductPositive(a: real, b: real)
    requires a > 0.0 && b > 0.0
    ensures a * b > 0.0
  {
  }

  lemma ProductOrder(a: real, b: real, c: real, d: real)
    requires 0.0 < a < b && 0.0 < c <= d
    ensures a * c < b * d
  {
    assert a * c < b * c;
    assert b * c <= b * d;
  }

  lemma {:induction false} PowIncreases(a: real, b: real, n: nat)
    requires 0.0 < a < b
    ensures Pow(a, n) <= Pow(b, n)
    ensures n > 0 ==> Pow(a, n) < Pow(b, n)
  {
    if n > 0 {
      PowIncreases(a, b, n - 1);
      PowNonZero(a, n - 1);
      ProductOrder(a, b, Pow(a, n - 1), Pow(b, n - 1));
    }
  }

  predicate IsUnit(unit: nat) {
    unit == DAY || unit == YEAR
  }

  /** The rate with growth b over the unit. */
  function RateOf(unit: nat, b: real): real
    requires IsUnit(unit)
  {
    if unit == YEAR then b - 1.0 else Pow(b, YEAR) - 1.0
  }

  /** Rates above -1 and positive growths correspond in order. */
  lemma RateOrder(unit: nat, a: real, b: real)
    requires IsUnit(unit) && 0.0 < a && 0.0 < b
    ensures a < b <==> RateOf(unit, a) < RateOf(unit, b)
    ensures RateOf(unit, a) > -1.0
  {
    PowNonZero(a, YEAR);
    if a < b {
      PowIncreases(a, b, YEAR);
    } else if b < a {
      PowIncreases(b, a, YEAR);
    }
  }

  // ----- f_xnpv

  function Discounted(f: Flow, start: int, unit: nat, b: real): real
    requires unit > 0 && b != 0.0
  {
    f.value / Growth(b, (f.day - start) / unit)
  }

  function Npv(flows: seq<Flow>, start: int, unit: nat, b: real): real
    requires unit > 0 && b != 0.0
  {
    if flows == [] then 0.0
    else Npv(flows[..|flows| - 1], start, unit, b) + Discounted(flows[|flows| - 1], start, unit, b)
  }

  /** Every flow is a whole number of units away from the first. */
  predicate InUnits(data: seq<Flow>, unit: nat)
    requires unit > 0
  {
    forall i | 0 <= i < |data| :: (data[i].day - data[0].day) % unit == 0
  }

  /** `f_xnpv`: growth 0 is the rate -1, which the source maps to infinity. */
  method FXnpv(data: seq<Flow>, unit: nat, b: real) returns (r: Xnpv)
    requires IsUnit(unit) && InUnits(data, unit) && (unit == DAY ==> b >= 0.0)
    ensures r == if b == 0.0 then Value(Infinite)
                 else if data == [] then IndexError
                 else Value(Finite(Npv(data, data[0].day, unit, b)))
  {
    if b == 0.0 {
      return Value(Infinite);
    }
    if data == [] {
      return IndexError;
    }
    var npv := 0.0;
    var startDate := data[0].day;
    for i := 0 to |data|
      invariant npv == Npv(data[..i], startDate, unit, b)
    {
      assert data[..i + 1][..i] == data[..i];
      npv := npv + Discounted(data[i], startDate, unit, b);
    }
    assert data[..|data|] == data;
    r := Value(Finite(npv));
  }

  /** Discounting by days and by years is the same, where both apply. */
  lemma {:induction false} DaysAndYearsAgree(flows: seq<Flow>, start: int, b: real)
    requires b > 0.0 && forall i | 0 <= i < |flows| :: (flows[i].day - start) % YEAR == 0
    ensures RateOf(DAY, b) == RateOf(YEAR, Pow(b, YEAR)) && Pow(b, YEAR) > 0.0
    ensures Npv(flows, start, DAY, b) == Npv(flows, start, YEAR, Pow(b, YEAR))
  {
    hide Pow, Growth;
    PowNonZero(b, YEAR);
    if flows != [] {
      DaysAndYearsAgree(flows[..|flows| - 1], start, b);
      var days := flows[|flows| - 1].day - start;
      GrowthOverYears(b, days / YEAR);
      assert YEAR * (days / YEAR) == days && days / DAY == days;
    }
  }

  lemma GrowthOverYears(b: real, k: int)
    requires b > 0.0
    ensures Pow(b, YEAR) > 0.0 && Growth(Pow(b, YEAR), k) == Growth(b, YEAR * k)
  {
    PowNonZero(b, YEAR);
    PowOfPow(b, YEAR, if k >= 0 then k else -k);
  }

  lemma {:induction false} PowOfPow(b: real, m: nat, n: nat)
    ensures Pow(Pow(b, m), n) == Pow(b, m * n)
  {
    if n > 0 {
      PowOfPow(b, m, n - 1);
      PowOfSum(b, m, m * (n - 1));
      assert m + m * (n - 1) == m * n;
    }
  }

  lemma {:induction false} PowOfSum(b: real, m: nat, n: nat)
    ensures Pow(b, m + n) == Pow(b, m) * Pow(b, n)
  {
    if m > 0 {
      PowOfSum(b, m - 1, n);
    }
  }

  // ----- What a present value is worth

  /** At rate 0 it is the sum of the flows. */
  function Total(flows: seq<Flow>): real {
    if flows == [] then 0.0 else flows[0].value + Total(flows[1..])
  }

  lemma {:induction false} NpvOfConcat(a: seq<Flow>, b: seq<Flow>, start: int, unit: nat, g: real)
    requires unit > 0 && g != 0.0
    ensures Npv(a + b, start, unit, g) == Npv(a, start, unit, g) + Npv(b, start, unit, g)
    decreases |b|
  {
    if b == [] {
      assert a + b == a;
    } else {
      hide Discounted;
      var init := b[..|b| - 1];
      assert (a + b)[..|a + b| - 1] == a + init;
      NpvOfConcat(a, init, start, unit, g);
    }
  }

  lemma NpvOfOne(f: Flow, start: int, unit: nat, g: real)
    requires unit > 0 && g != 0.0
    ensures Npv([f], start, unit, g) == Discounted(f, start, unit, g)
  {
    hide Discounted;
    assert [f][..0] == [];
  }

  lemma {:induction false} NpvAtRateZero(flows: seq<Flow>, start: int, unit: nat)
    requires unit > 0
    ensures Npv(flows, start, unit, 1.0) == Total(flows)
    decreases |flows|
  {
    if flows != [] {
      hide Discounted;
      assert flows == [flows[0]] + flows[1..];
      NpvOfConcat([flows[0]], flows[1..], start, unit, 1.0);
      NpvOfOne(flows[0], start, unit, 1.0);
      UndiscountedAtZero(flows[0], start, unit);
      NpvAtRateZero(flows[1..], start, unit);
    }
  }

  lemma UndiscountedAtZero(f: Flow, start: int, unit: nat)
    requires unit > 0
    ensures Discounted(f, start, unit, 1.0) == f.value
  {
    var n := (f.day - start) / unit;
    PowOfOne(if n >= 0 then n else -n);
  }

  lemma {:induction false} PowOfOne(n: nat)
    ensures Pow(1.0, n) == 1.0
  {
    if n > 0 {
      PowOfOne(n - 1);
    }
  }

  /** A payment now and another k years later, by rate. */
  lemma NpvOfTwo(now: real, later: real, day: int, k: nat, rate: real)
    requires rate != -1.0
    ensures Pow(1.0 + rate, k) != 0.0
    ensures PresentValue([Flow(day, now), Flow(day + 365 * k, later)], rate) == Finite(now + later / Pow(1.0 + rate, k))
  {
    var g := 1.0 + rate;
    PowNonZero(g, k);
    var first, second := Flow(day, now), Flow(day + 365 * k, later);
    assert [first, second] == [first] + [second];
    NpvOfConcat([first], [second], day, YEAR, g);
    NpvOfOne(first, day, YEAR, g);
    NpvOfOne(second, day, YEAR, g);
    FirstDiscount(first, YEAR, g);
    assert (second.day - day) / YEAR == k;
  }

  lemma QuotientOrder(v: real, p: real, q: real)
    requires v >= 0.0 && 0.0 < p <= q
    ensures v / p >= v / q
    ensures v > 0.0 && p < q ==> v / p > v / q
  {
    var x, y := v / p, v / q;
    assert x * p == v && y * q == v;
    assert y * p <= y * q;
    assert p < q && y > 0.0 ==> y * p < y * q;
  }

  lemma DiscountFalls(f: Flow, start: int, unit: nat, a: real, b: real)
    requires unit > 0 && 0.0 < a < b && start <= f.day && f.value >= 0.0
    ensures Discounted(f, start, unit, a) >= Discounted(f, start, unit, b)
    ensures f.value > 0.0 && start + unit <= f.day ==> Discounted(f, start, unit, a) > Discounted(f, start, unit, b)
  {
    var n := (f.day - start) / unit;
    QuotientPositive(f.day - start, unit);
    PowNonZero(a, n);
    PowIncreases(a, b, n);
    QuotientOrder(f.value, Pow(a, n), Pow(b, n));
  }

  lemma QuotientPositive(days: int, unit: nat)
    requires unit > 0 && days >= 0
    ensures days / unit >= 0
    ensures days >= unit ==> days / unit > 0
  {
  }

  /** A cash flow after the first that is not negative. */
  predicate IsReceipt(f: Flow, start: int) {
    f.value >= 0.0 && start <= f.day
  }

  /** One first flow of any size, then receipts, at least one of them positive and strictly later. */
  ghost predicate IsInvestment(data: seq<Flow>) {
    && data != []
    && (forall i | 1 <= i < |data| :: IsReceipt(data[i], data[0].day))
    && (exists i :: 1 <= i < |data| && data[i].value > 0.0 && data[0].day < data[i].day)
  }

  lemma {:induction false} NpvFalls(data: seq<Flow>, unit: nat, n: nat, k: nat, a: real, b: real)
    requires unit > 0 && 0.0 < a < b
    requires 1 <= k && n <= |data| && data != []
    requires forall i | 1 <= i < |data| :: IsReceipt(data[i], data[0].day)
    requires k < |data| && data[k].value > 0.0 && data[0].day + unit <= data[k].day
    ensures Npv(data[..n], data[0].day, unit, a) >= Npv(data[..n], data[0].day, unit, b)
    ensures k < n ==> Npv(data[..n], data[0].day, unit, a) > Npv(data[..n], data[0].day, unit, b)
  {
    if n > 0 {
      hide Discounted;
      assert data[..n][..n - 1] == data[..n - 1];
      NpvFalls(data, unit, n - 1, k, a, b);
      if n > 1 {
        DiscountFalls(data[n - 1], data[0].day, unit, a, b);
      } else {
        FirstDiscount(data[0], unit, a);
        FirstDiscount(data[0], unit, b);
      }
    }
  }

  lemma FirstDiscount(f: Flow, unit: nat, b: real)
    requires unit > 0 && b != 0.0
    ensures Discounted(f, f.day, unit, b) == f.value
  {
  }

  lemma WholeUnitsLater(day: int, start: int, unit: nat)
    requires unit > 0 && (day - start) % unit == 0 && start < day
    ensures start + unit <= day
  {
  }

  /** The present value of an investment strictly decreases as the rate grows, for any day gaps. */
  lemma NpvStrictlyDecreases(data: seq<Flow>, unit: nat, a: real, b: real)
    requires IsInvestment(data) && IsUnit(unit) && InUnits(data, unit) && 0.0 < a < b
    ensures RateOf(unit, a) < RateOf(unit, b)
    ensures Npv(data, data[0].day, unit, a) > Npv(data, data[0].day, unit, b)
  {
    var k :| 1 <= k < |data| && data[k].value > 0.0 && data[0].day < data[k].day;
    assert data[..|data|] == data;
    WholeUnitsLater(data[k].day, data[0].day, unit);
    NpvFalls(data, unit, |data|, k, a, b);
    RateOrder(unit, a, b);
  }

  /** An investment has at most one internal rate of return above -1. */
  lemma InternalRateUnique(data: seq<Flow>, unit: nat, a: real, b: real)
    requires IsInvestment(data) && IsUnit(unit) && InUnits(data, unit) && 0.0 < a && 0.0 < b
    requires Npv(data, data[0].day, unit, a) == 0.0 == Npv(data, data[0].day, unit, b)
    ensures RateOf(unit, a) == RateOf(unit, b)
  {
    if a < b {
      NpvStrictlyDecreases(data, unit, a, b);
    } else if b < a {
      NpvStrictlyDecreases(data, unit, b, a);
    }
  }

  // ----- f_xirr

  const EPSILON := 0.00001

  function Abs(x: real): real {
    if x < 0.0 then -x else x
  }

  /** The finite-difference slope of the present value; infinite next to the pole at rate -1. */
  function Slope(xnpv: real -> Amount, x: real): Amount {
    match (xnpv(x), xnpv(x + EPSILON))
    case (Finite(a), Finite(b)) => Finite((b - a) / EPSILON)
    case _ => Infinite
  }

  /** What a step of the iteration does: give up, stop with a rate, or go on from one. */
  datatype Step = GiveUp | Converged(rate: real) | Next(rate: real)

  /** One Newton step. From the pole the rate becomes NaN, which no later test accepts. */
  function NewtonStep(xnpv: real -> Amount, x: real, tol: real): Step
  {
    match (xnpv(x), Slope(xnpv, x))
    case (Infinite, _) => GiveUp
    case (Finite(a), Finite(s)) =>
      if Abs(s) < tol || s == 0.0 then GiveUp
      else if Abs(x - a / s - x) < tol then Converged(x - a / s)
      else Next(x - a / s)
    case (Finite(_), Infinite) => if 0.0 < tol then Converged(x) else Next(x)
  }

  /** The iteration from rate x with at most n steps left. */
  function Newton(xnpv: real -> Amount, x: real, tol: real, n: nat): real
    decreases n
  {
    if n == 0 then 0.0
    else match NewtonStep(xnpv, x, tol)
         case GiveUp => 0.0
         case Converged(rate) => rate
         case Next(rate) => Newton(xnpv, rate, tol, n - 1)
  }

  /** The present value of flows at whole-year gaps, by rate. */
  function PresentValue(data: seq<Flow>, rate: real): Amount
    requires data != []
  {
    if rate == -1.0 then Infinite else Finite(Npv(data, data[0].day, YEAR, 1.0 + rate))
  }

  function ByRate(data: seq<Flow>): real -> Amount
    requires data != []
  {
    rate => PresentValue(data, rate)
  }

  /**
   xnpv is `f_xnpv` of the data: at every rate for whole-year gaps, and for any gaps at every rate
   that a daily growth gives.
   */
  ghost predicate IsXnpvOf(xnpv: real -> Amount, data: seq<Flow>)
    requires data != []
  {
    && (InUnits(data, YEAR) ==> forall rate :: xnpv(rate) == PresentValue(data, rate))
    && xnpv(-1.0) == Infinite
    && forall b | b > 0.0 :: xnpv(RateOf(DAY, b)) == Finite(Npv(data, data[0].day, DAY, b))
  }

  /** The present value by rate is it. */
  lemma PresentValueIsXnpv(data: seq<Flow>)
    requires data != [] && InUnits(data, YEAR)
    ensures IsXnpvOf(ByRate(data), data)
  {
    hide Npv, InUnits, RateOf;
    forall b | b > 0.0
      ensures PresentValue(data, RateOf(DAY, b)) == Finite(Npv(data, data[0].day, DAY, b))
    {
      ValueByDays(data, b);
    }
  }

  lemma ValueByDays(data: seq<Flow>, b: real)
    requires data != [] && InUnits(data, YEAR) && b > 0.0
    ensures PresentValue(data, RateOf(DAY, b)) == Finite(Npv(data, data[0].day, DAY, b))
  {
    hide Npv, Pow;
    DaysAndYearsAgree(data, data[0].day, b);
  }

  /** `f_xirr` of flows at whole-year gaps; tolerance 0.000001 and 100 steps by default. */
  method FXirr(data: seq<Flow>, x0: real, tol: real, maxiter: nat) returns (r: real)
    requires tol > 0.0 && InUnits(data, YEAR)
    ensures r == if data == [] then 0.0 else Newton(ByRate(data), x0, tol, maxiter)
  {
    if data == [] {
      return 0.0;
    }
    PresentValueIsXnpv(data);
    r := FXirrAnyGaps(data, ByRate(data), x0, tol, maxiter);
  }

  /** `f_xirr` of flows at any gaps, whose discounts are irrational: they come from f_xnpv of the data. */
  method FXirrAnyGaps(data: seq<Flow>, xnpv: real -> Amount, x0: real, tol: real, maxiter: nat) returns (r: real)
    requires tol > 0.0 && (data != [] ==> IsXnpvOf(xnpv, data))
    ensures r == if data == [] then 0.0 else Newton(xnpv, x0, tol, maxiter)
  {
    hide IsXnpvOf;
    if data == [] {
      return 0.0;
    }
    var rate := x0;
    for i := 0 to maxiter
      invariant Newton(xnpv, x0, tol, maxiter) == Newton(xnpv, rate, tol, maxiter - i)
    {
      var npv := xnpv(rate);
      if npv.Infinite? {
        return 0.0;
      }
      var slope := Slope(xnpv, rate);
      if slope.Finite? && Abs(slope.value) < tol {
        return 0.0;
      }
      var newRate := if slope.Finite? then rate - npv.value / slope.value else rate;
      if Abs(newRate - rate) < tol {
        return newRate;
      }
      rate := newRate;
    }
    r := 0.0;
  }

  /** The k-th rate the iteration visits, while it has not stopped. */
  ghost predicate Visits(xnpv: real -> Amount, x0: real, tol: real, k: nat, x: real)
    decreases k
  {
    if k == 0 then x == x0
    else
      var s := NewtonStep(xnpv, x0, tol);
      s.Next? && Visits(xnpv, s.rate, tol, k - 1, x)
  }

  /** r is within tol of x, and the present value at x is below tol times the slope there. */
  ghost predicate NearRoot(xnpv: real -> Amount, x: real, r: real, tol: real) {
    && xnpv(x).Finite?
    && Abs(r - x) < tol
    && (Slope(xnpv, x).Finite? ==> Abs(xnpv(x).value) < tol * Abs(Slope(xnpv, x).value))
  }

  lemma StepNearRoot(a: real, s: real, tol: real)
    requires s != 0.0 && Abs(a / s) < tol
    ensures Abs(a) < tol * Abs(s)
  {
    var q := a / s;
    assert q * s == a;
    assert Abs(a) == Abs(q) * Abs(s);
    assert Abs(q) * Abs(s) < tol * Abs(s);
  }

  /** Every non-zero result is the rate on which the step from an iterate stopped, and lies next to a near-root. */
  lemma {:induction false} NonZeroResultIsNearRoot(xnpv: real -> Amount, x0: real, tol: real, n: nat)
    returns (k: nat, x: real)
    requires tol > 0.0 && Newton(xnpv, x0, tol, n) != 0.0
    ensures k < n && Visits(xnpv, x0, tol, k, x) && NewtonStep(xnpv, x, tol) == Converged(Newton(xnpv, x0, tol, n))
    ensures NearRoot(xnpv, x, Newton(xnpv, x0, tol, n), tol)
    decreases n
  {
    match NewtonStep(xnpv, x0, tol) {
      case Converged(rate) =>
        k, x := 0, x0;
        var s := Slope(xnpv, x0);
        if s.Finite? {
          StepNearRoot(xnpv(x0).value, s.value, tol);
        }
      case Next(rate) =>
        k, x := NonZeroResultIsNearRoot(xnpv, rate, tol, n - 1);
        k := k + 1;
    }
  }

  /** The result is 0 when the iteration has not stopped on a rate in n steps, and that rate when it has. */
  lemma {:induction false} ResultExactly(xnpv: real -> Amount, x0: real, tol: real, n: nat, k: nat, x: real)
    requires k < n && Visits(xnpv, x0, tol, k, x)
    ensures var s, r := NewtonStep(xnpv, x, tol), Newton(xnpv, x0, tol, n);
            && (s.Converged? ==> r == s.rate)
            && (s.GiveUp? ==> r == 0.0)
            && (s.Next? && k == n - 1 ==> r == 0.0)
    decreases k
  {
    if k > 0 {
      ResultExactly(xnpv, NewtonStep(xnpv, x0, tol).rate, tol, n - 1, k - 1, x);
    }
  }

  // ----- The steps in terms of present values

  /** The chord through the present values a at x and b one difference step later crosses 0 at y. */
  predicate IsChordZero(a: real, b: real, x: real, y: real) {
    a * EPSILON + (b - a) * (y - x) == 0.0
  }

  lemma ChordZero(a: real, b: real, x: real)
    requires a != b
    ensures (b - a) / EPSILON != 0.0 && IsChordZero(a, b, x, x - a / ((b - a) / EPSILON))
  {
    var s := (b - a) / EPSILON;
    assert s * EPSILON == b - a;
    var q := a / s;
    assert q * s == a;
    assert (b - a) * (x - q - x) == -(q * s * EPSILON);
  }

  /**
   What a step does, in terms of the two present values it looks at: it gives up on a slope below the
   tolerance, and otherwise goes to the zero of the chord, where it stops if that is within the
   tolerance. At the pole it gives up, and one difference step before it it stays where it is.
   */
  lemma StepExactly(data: seq<Flow>, x: real, tol: real)
    requires data != [] && tol > 0.0
    ensures var s := NewtonStep(ByRate(data), x, tol);
            if x == -1.0 then s == GiveUp
            else if x + EPSILON == -1.0 then s == Converged(x)
            else
              var a, b := Npv(data, data[0].day, YEAR, 1.0 + x), Npv(data, data[0].day, YEAR, 1.0 + (x + EPSILON));
              if Abs((b - a) / EPSILON) < tol then s == GiveUp
              else
                && !s.GiveUp? && IsChordZero(a, b, x, s.rate)
                && (s.Converged? <==> Abs(s.rate - x) < tol)
  {
    hide Npv, IsChordZero;
    if x != -1.0 && x + EPSILON != -1.0 {
      var a, b := Npv(data, data[0].day, YEAR, 1.0 + x), Npv(data, data[0].day, YEAR, 1.0 + (x + EPSILON));
      if a != b {
        ChordZero(a, b, x);
      } else {
        assert (b - a) / EPSILON == 0.0;
      }
    }
  }

  /** Xirr of whole-year flows is next to a rate of theirs whose present value is below tolerance times slope. */
  lemma XirrIsNearRoot(data: seq<Flow>, x0: real, tol: real, n: nat) returns (k: nat, x: real)
    requires data != [] && InUnits(data, YEAR) && tol > 0.0
    requires Newton(ByRate(data), x0, tol, n) != 0.0
    ensures k < n && Visits(ByRate(data), x0, tol, k, x)
    ensures x != -1.0 && Abs(Newton(ByRate(data), x0, tol, n) - x) < tol
    ensures NewtonStep(ByRate(data), x, tol) == Converged(Newton(ByRate(data), x0, tol, n))
    ensures x + EPSILON != -1.0 ==>
              var a, b := Npv(data, data[0].day, YEAR, 1.0 + x), Npv(data, data[0].day, YEAR, 1.0 + (x + EPSILON));
              Abs(a) < tol * Abs((b - a) / EPSILON)
  {
    hide Npv, Visits, Newton;
    k, x := NonZeroResultIsNearRoot(ByRate(data), x0, tol, n);
  }

  // ----- How close the result is to the internal rate of return

  function Inverse(x: real, n: nat): (r: real)
    requires x > 0.0
    ensures r > 0.0
  {
    PowNonZero(x, n);
    1.0 / Pow(x, n)
  }

  lemma InverseStep(x: real, n: nat)
    requires x > 0.0
    ensures Inverse(x, n + 1) == (1.0 / x) * Inverse(x, n)
  {
    PowNonZero(x, n);
    var p := Pow(x, n);
    assert Pow(x, n + 1) == x * p;
    InverseOfProduct(x, p);
  }

  lemma InverseOfProduct(x: real, p: real)
    requires x > 0.0 && p > 0.0
    ensures x * p != 0.0 && 1.0 / (x * p) == (1.0 / x) * (1.0 / p)
  {
    var u, v := 1.0 / x, 1.0 / p;
    assert u * x == 1.0 && v * p == 1.0;
    assert (u * v) * (x * p) == (u * x) * (v * p);
  }

  lemma InverseFalls(a: real, b: real, n: nat)
    requires 0.0 < a < b
    ensures Inverse(a, n) >= Inverse(b, n)
  {
    PowNonZero(a, n);
    PowIncreases(a, b, n);
    QuotientOrder(1.0, Pow(a, n), Pow(b, n));
  }

  /** The value in the middle of three points is not above the chord. */
  predicate BelowChord(a: real, b: real, c: real, fa: real, fb: real, fc: real) {
    (c - a) * fb <= (c - b) * fa + (b - a) * fc
  }

  /** Products of positive, falling, convex values are convex. */
  lemma ProductBelowChord(p: real, q: real, fa: real, fb: real, fc: real, ga: real, gb: real, gc: real)
    requires p > 0.0 && q > 0.0 && fa >= fc && ga >= gc && fb > 0.0 && gb > 0.0
    requires (p + q) * fb <= p * fa + q * fc && (p + q) * gb <= p * ga + q * gc
    ensures (p + q) * (fb * gb) <= p * (fa * ga) + q * (fc * gc)
  {
    var s := p + q;
    var f, g := s * fb, s * gb;
    var f', g' := p * fa + q * fc, p * ga + q * gc;
    assert f > 0.0 && g > 0.0;
    OrderedProducts(f, f', g, g');
    var r := p * (fa * ga) + q * (fc * gc);
    ChordProduct(p, q, fa, fc, ga, gc, r);
    assert f * g == s * (s * (fb * gb));
    assert f' * g' <= s * r;
    CancelPositive(s, s * (fb * gb), r);
  }

  lemma OrderedProducts(f: real, f': real, g: real, g': real)
    requires 0.0 < f <= f' && 0.0 < g <= g'
    ensures f * g <= f' * g'
  {
    assert f * g <= f' * g;
    assert f' * g <= f' * g';
  }

  lemma ChordProduct(p: real, q: real, fa: real, fc: real, ga: real, gc: real, r: real)
    requires p > 0.0 && q > 0.0 && fa >= fc && ga >= gc && r == p * (fa * ga) + q * (fc * gc)
    ensures (p * fa + q * fc) * (p * ga + q * gc) <= (p + q) * r
  {
    var d := (p * q) * ((fa - fc) * (ga - gc));
    assert (fa - fc) * (ga - gc) >= 0.0;
    assert p * q > 0.0;
    assert d >= 0.0;
    assert (p + q) * r == (p + q) * (p * (fa * ga) + q * (fc * gc));
    assert (p + q) * (p * (fa * ga) + q * (fc * gc)) - (p * fa + q * fc) * (p * ga + q * gc) == d;
  }

  lemma CancelPositive(s: real, x: real, y: real)
    requires s > 0.0 && s * x <= s * y
    ensures x <= y
  {
  }

  lemma ReciprocalBelowChord(a: real, b: real, c: real)
    requires 0.0 < a < b < c
    ensures BelowChord(a, b, c, 1.0 / a, 1.0 / b, 1.0 / c)
  {
    var u, v, w := 1.0 / a, 1.0 / b, 1.0 / c;
    assert u * a == 1.0 && v * b == 1.0 && w * c == 1.0;
    var p, q := c - b, b - a;
    assert u - v == q * (u * v) by {
      assert q * (u * v) == u * (b * v) - (u * a) * v;
    }
    assert v - w == p * (v * w) by {
      assert p * (v * w) == v * (c * w) - (v * b) * w;
    }
    QuotientOrder(1.0, a, c);
    assert p * (u - v) - q * (v - w) == (p * q) * (v * (u - w));
    assert v * (u - w) >= 0.0 && p * q > 0.0;
    assert p * (u - v) - q * (v - w) >= 0.0;
    assert (p + q) * v == p * v + q * v;
  }

  /** Discount factors are convex in the growth. */
  lemma {:induction false} InverseBelowChord(a: real, b: real, c: real, n: nat)
    requires 0.0 < a < b < c
    ensures BelowChord(a, b, c, Inverse(a, n), Inverse(b, n), Inverse(c, n))
    decreases n
  {
    if n > 0 {
      hide Inverse;
      InverseBelowChord(a, b, c, n - 1);
      ReciprocalBelowChord(a, b, c);
      InverseStep(a, n - 1);
      InverseStep(b, n - 1);
      InverseStep(c, n - 1);
      QuotientOrder(1.0, a, c);
      InverseFalls(a, c, n - 1);
      assert c - a == (c - b) + (b - a);
      ProductBelowChord(c - b, b - a, 1.0 / a, 1.0 / b, 1.0 / c, Inverse(a, n - 1), Inverse(b, n - 1), Inverse(c, n - 1));
    }
  }

  lemma DiscountBelowChord(f: Flow, start: int, a: real, b: real, c: real)
    requires 0.0 < a < b < c && IsReceipt(f, start)
    ensures BelowChord(a, b, c, Discounted(f, start, YEAR, a), Discounted(f, start, YEAR, b), Discounted(f, start, YEAR, c))
  {
    var n := (f.day - start) / YEAR;
    QuotientPositive(f.day - start, YEAR);
    InverseBelowChord(a, b, c, n);
    assert Discounted(f, start, YEAR, a) == f.value * Inverse(a, n);
    assert Discounted(f, start, YEAR, b) == f.value * Inverse(b, n);
    assert Discounted(f, start, YEAR, c) == f.value * Inverse(c, n);
    hide Discounted, Inverse;
    ScaledBelowChord(f.value, a, b, c, Inverse(a, n), Inverse(b, n), Inverse(c, n));
  }

  lemma ScaledBelowChord(v: real, a: real, b: real, c: real, fa: real, fb: real, fc: real)
    requires v >= 0.0 && BelowChord(a, b, c, fa, fb, fc)
    ensures BelowChord(a, b, c, v * fa, v * fb, v * fc)
  {
    var d := (c - b) * fa + (b - a) * fc - (c - a) * fb;
    assert v * d >= 0.0;
    assert v * d == (c - b) * (v * fa) + (b - a) * (v * fc) - (c - a) * (v * fb);
  }

  /** The present value of an investment is convex in the rate. */
  lemma {:induction false} NpvBelowChord(data: seq<Flow>, n: nat, a: real, b: real, c: real)
    requires data != [] && n <= |data| && 0.0 < a < b < c
    requires forall i | 1 <= i < |data| :: IsReceipt(data[i], data[0].day)
    ensures BelowChord(a, b, c, Npv(data[..n], data[0].day, YEAR, a), Npv(data[..n], data[0].day, YEAR, b), Npv(data[..n], data[0].day, YEAR, c))
    decreases n
  {
    hide Discounted, BelowChord;
    var d := data[0].day;
    if n == 0 {
      ConstantBelowChord(a, b, c, 0.0);
    } else {
      assert data[..n][..n - 1] == data[..n - 1];
      NpvBelowChord(data, n - 1, a, b, c);
      var f := data[n - 1];
      if n > 1 {
        DiscountBelowChord(f, d, a, b, c);
      } else {
        FirstDiscount(f, YEAR, a);
        FirstDiscount(f, YEAR, b);
        FirstDiscount(f, YEAR, c);
        ConstantBelowChord(a, b, c, f.value);
      }
      SumBelowChord(a, b, c, Npv(data[..n - 1], d, YEAR, a), Npv(data[..n - 1], d, YEAR, b), Npv(data[..n - 1], d, YEAR, c),
                    Discounted(f, d, YEAR, a), Discounted(f, d, YEAR, b), Discounted(f, d, YEAR, c));
    }
  }

  lemma ConstantBelowChord(a: real, b: real, c: real, v: real)
    ensures BelowChord(a, b, c, v, v, v)
  {
    assert (c - b) * v + (b - a) * v == (c - a) * v;
  }

  lemma SumBelowChord(a: real, b: real, c: real, fa: real, fb: real, fc: real, ga: real, gb: real, gc: real)
    requires BelowChord(a, b, c, fa, fb, fc) && BelowChord(a, b, c, ga, gb, gc)
    ensures BelowChord(a, b, c, fa + ga, fb + gb, fc + gc)
  {
    assert (c - a) * (fb + gb) == (c - a) * fb + (c - a) * gb;
    assert (c - b) * (fa + ga) == (c - b) * fa + (c - b) * ga;
    assert (b - a) * (fc + gc) == (b - a) * fc + (b - a) * gc;
  }

  /** At or above the internal rate a near-root is near the internal rate. */
  lemma NearFromAbove(data: seq<Flow>, x: real, rho: real, tol: real)
    requires IsInvestment(data) && -1.0 < rho < x
    requires Npv(data, data[0].day, YEAR, 1.0 + rho) == 0.0
    requires var a, b := Npv(data, data[0].day, YEAR, 1.0 + x), Npv(data, data[0].day, YEAR, 1.0 + (x + EPSILON));
             b < a && Abs(a) < tol * Abs((b - a) / EPSILON)
    ensures x - rho < tol
  {
    var d := data[0].day;
    var a, b := Npv(data, d, YEAR, 1.0 + x), Npv(data, d, YEAR, 1.0 + (x + EPSILON));
    assert data[..|data|] == data;
    NpvBelowChord(data, |data|, 1.0 + rho, 1.0 + x, 1.0 + (x + EPSILON));
    hide Npv;
    assert (x - rho + EPSILON) * a <= (x - rho) * b;
    ChordBound(x - rho, a, b, tol);
  }

  /** The slope of a falling chord, up to its sign. */
  lemma SlopeOf(a: real, b: real) returns (t: real)
    requires b < a
    ensures t > 0.0 && t == Abs((b - a) / EPSILON) && EPSILON * t == a - b
  {
    t := (a - b) / EPSILON;
    assert (b - a) / EPSILON == -t;
  }

  lemma ChordBound(h: real, a: real, b: real, tol: real)
    requires h > 0.0 && b < a && (h + EPSILON) * a <= h * b
    requires Abs(a) < tol * Abs((b - a) / EPSILON)
    ensures h < tol
  {
    var t := SlopeOf(a, b);
    assert EPSILON * a <= -(h * (a - b));
    assert h * (EPSILON * t) == EPSILON * (h * t);
    CancelPositive(EPSILON, a, -(h * t));
    CancelFactor(t, h, tol);
  }

  lemma CancelFactor(s: real, h: real, tol: real)
    requires s > 0.0 && h * s < tol * s
    ensures h < tol
  {
  }

  /** More than a difference step below the internal rate, a step is no shorter than that step. */
  lemma NotNearFromBelow(data: seq<Flow>, x: real, rho: real, tol: real)
    requires IsInvestment(data) && InUnits(data, YEAR) && -1.0 < x && x + EPSILON <= rho
    requires Npv(data, data[0].day, YEAR, 1.0 + rho) == 0.0
    requires var a, b := Npv(data, data[0].day, YEAR, 1.0 + x), Npv(data, data[0].day, YEAR, 1.0 + (x + EPSILON));
             Abs(a) < tol * Abs((b - a) / EPSILON)
    ensures tol > EPSILON
  {
    var d := data[0].day;
    hide Npv, IsInvestment, InUnits;
    NpvStrictlyDecreases(data, YEAR, 1.0 + x, 1.0 + (x + EPSILON));
    if x + EPSILON < rho {
      NpvStrictlyDecreases(data, YEAR, 1.0 + (x + EPSILON), 1.0 + rho);
    }
    StepBound(Npv(data, d, YEAR, 1.0 + x), Npv(data, d, YEAR, 1.0 + (x + EPSILON)), tol);
  }

  lemma StepBound(a: real, b: real, tol: real)
    requires 0.0 <= b < a && Abs(a) < tol * Abs((b - a) / EPSILON)
    ensures tol > EPSILON
  {
    var t := SlopeOf(a, b);
    assert Abs(a) == a;
    LongerStep(a, b, t, tol);
  }

  lemma LongerStep(a: real, b: real, t: real, tol: real)
    requires 0.0 <= b && t > 0.0 && EPSILON * t == a - b && a < tol * t
    ensures tol > EPSILON
  {
    assert tol <= EPSILON ==> tol * t <= EPSILON * t;
  }

  /**
   The direction of a step: for an investment with internal rate rho, a rate more than a difference
   step below rho is followed by a higher one and a rate above rho by a lower one, and neither step
   ends above rho.
   */
  lemma StepTowardsRate(data: seq<Flow>, x: real, tol: real, rho: real)
    requires IsInvestment(data) && InUnits(data, YEAR) && tol > 0.0
    requires x > -1.0 && rho > -1.0 && PresentValue(data, rho) == Finite(0.0)
    requires x + EPSILON <= rho || rho < x
    ensures var s := NewtonStep(ByRate(data), x, tol);
            !s.GiveUp? ==> s.rate <= rho && (if x < rho then x < s.rate else s.rate < x)
  {
    var d := data[0].day;
    StepExactly(data, x, tol);
    hide Npv, IsInvestment, InUnits, NewtonStep;
    var s := NewtonStep(ByRate(data), x, tol);
    var a, b := Npv(data, d, YEAR, 1.0 + x), Npv(data, d, YEAR, 1.0 + (x + EPSILON));
    NpvStrictlyDecreases(data, YEAR, 1.0 + x, 1.0 + (x + EPSILON));
    if !s.GiveUp? {
      if x < rho {
        ChordBelowRate(data, x, rho, a, b);
        StepUp(a, b, x, s.rate, rho);
      } else {
        ChordAboveRate(data, x, rho, a, b);
        StepDown(a, b, x, s.rate, rho);
      }
    }
  }

  lemma ChordBelowRate(data: seq<Flow>, x: real, rho: real, a: real, b: real)
    requires IsInvestment(data) && InUnits(data, YEAR) && -1.0 < x && x + EPSILON <= rho
    requires Npv(data, data[0].day, YEAR, 1.0 + rho) == 0.0
    requires a == Npv(data, data[0].day, YEAR, 1.0 + x) && b == Npv(data, data[0].day, YEAR, 1.0 + (x + EPSILON))
    ensures a > 0.0 && (rho - x) * b <= (rho - x - EPSILON) * a
  {
    var d := data[0].day;
    assert data[..|data|] == data;
    NpvStrictlyDecreases(data, YEAR, 1.0 + x, 1.0 + rho);
    if x + EPSILON < rho {
      NpvBelowChord(data, |data|, 1.0 + x, 1.0 + (x + EPSILON), 1.0 + rho);
      hide Npv;
      assert BelowChord(1.0 + x, 1.0 + (x + EPSILON), 1.0 + rho, a, b, 0.0);
    }
  }

  lemma ChordAboveRate(data: seq<Flow>, x: real, rho: real, a: real, b: real)
    requires IsInvestment(data) && InUnits(data, YEAR) && -1.0 < rho < x
    requires Npv(data, data[0].day, YEAR, 1.0 + rho) == 0.0
    requires a == Npv(data, data[0].day, YEAR, 1.0 + x) && b == Npv(data, data[0].day, YEAR, 1.0 + (x + EPSILON))
    ensures a < 0.0 && (x - rho + EPSILON) * a <= (x - rho) * b
  {
    var d := data[0].day;
    assert data[..|data|] == data;
    NpvStrictlyDecreases(data, YEAR, 1.0 + rho, 1.0 + x);
    NpvBelowChord(data, |data|, 1.0 + rho, 1.0 + x, 1.0 + (x + EPSILON));
    hide Npv;
    assert BelowChord(1.0 + rho, 1.0 + x, 1.0 + (x + EPSILON), 0.0, a, b);
  }

  lemma StepUp(a: real, b: real, x: real, y: real, rho: real)
    requires b < a && 0.0 < a && (rho - x) * b <= (rho - x - EPSILON) * a && IsChordZero(a, b, x, y)
    ensures x < y <= rho
  {
    var w, h, k := a - b, y - x, rho - x;
    assert w * h == a * EPSILON;
    assert h <= 0.0 ==> w * h <= 0.0;
    assert a * EPSILON <= k * w by {
      assert k * w == k * a - k * b;
      assert (k - EPSILON) * a == k * a - EPSILON * a;
    }
    CancelPositive(w, h, k);
  }

  lemma StepDown(a: real, b: real, x: real, y: real, rho: real)
    requires b < a && a < 0.0 && (x - rho + EPSILON) * a <= (x - rho) * b && IsChordZero(a, b, x, y)
    ensures y < x && y <= rho
  {
    var w, h, k := a - b, x - y, x - rho;
    assert w * h == -(a * EPSILON);
    assert h <= 0.0 ==> w * h <= 0.0;
    assert k * w <= -(a * EPSILON) by {
      assert k * w == k * a - k * b;
      assert (k + EPSILON) * a == k * a + EPSILON * a;
    }
    CancelPositive(w, k, h);
  }

  /**
   What a non-zero result is worth: for an investment with internal rate rho above -1, a result that
   is not within tolerance of the pole never exceeds rho by twice the tolerance, and with a tolerance
   of at most the difference step, as by default, it is within step and tolerance of rho.
   */
  lemma XirrIsInternalRate(data: seq<Flow>, x0: real, tol: real, n: nat, rho: real)
    requires IsInvestment(data) && InUnits(data, YEAR) && tol > 0.0
    requires rho > -1.0 && PresentValue(data, rho) == Finite(0.0)
    requires Newton(ByRate(data), x0, tol, n) != 0.0
    requires Newton(ByRate(data), x0, tol, n) >= -1.0 + tol
    ensures var r := Newton(ByRate(data), x0, tol, n);
            && r < rho + 2.0 * tol
            && (tol <= 0.00001 ==> Abs(r - rho) < 0.00001 + tol)
  {
    hide Npv, Newton, NewtonStep;
    var k, x := XirrIsNearRoot(data, x0, tol, n);
    NpvStrictlyDecreases(data, YEAR, 1.0 + x, 1.0 + (x + EPSILON));
    if rho < x {
      NearFromAbove(data, x, rho, tol);
    } else if x + EPSILON <= rho {
      NotNearFromBelow(data, x, rho, tol);
    }
  }
}

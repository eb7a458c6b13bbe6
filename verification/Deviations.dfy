/** Inputs at which the code departs from what its names say, one for each exact condition. */
module Deviations {
  import opened Calendar
  import A = Accruals
  import Thirty360
  import BusinessDays
  import Periods
  import PickDates
  import T = ErrorTree
  import S = ErrorSchema
  import SoftDelete
  import Text
  import Decimal
  import CodeNaming
  import K = TaskStore
  import I = PackageInstall

  // ----- Accruals

  /** A first coupon on 31 March, paid quarterly, has accrued one day of 92 on that very day. */
  lemma CouponOnThe31st(dt1: Day, dt3: Day)
    requires dt1 <= dt3 && MonthNumber(dt3) == 3 && DayOf(dt3) == 31
    ensures A.IcmaFactor(A.Quarterly, dt1, dt3, dt3, A.None, 1) == A.Factor(A.Ratio(1, 92) / 4.0)
    ensures A.IcmaFactor(A.Quarterly, dt1, dt3, dt3, A.None, 1) != A.Factor(0.0)
    ensures A.IsLeastPast(dt3, 3, dt3, 1)
  {
    hide MonthStart, MonthOf, A.IsLeastPast;
    var m := MonthOf(dt3);
    SpringMonths(m);
    MonthStartStep(m);
    MonthStartStep(m + 1);
    MonthStartStep(m + 2);
    assert A.Payment(dt3, 3, 0) == dt3;
    var end := A.Payment(dt3, 3, 1);
    var start := AddMonths(end, -3);
    assert MonthOf(end) == m + 3 && DayOf(end) == 30;
    assert MonthOf(start) == m && DayOf(start) == 30;
    assert end - start == 92 && dt3 - start == 1;
    A.PaymentDateStop(dt3, 3, 0);
    A.RatioOrder(0, 1, 92);
  }

  /** March to June. */
  lemma SpringMonths(m: Month)
    requires m % 12 == 2
    ensures MonthLength(m) == 31 && MonthLength(m + 1) == 30 && MonthLength(m + 2) == 31 && MonthLength(m + 3) == 30
  {
    var y := m / 12;
    MonthSplit(y, 2);
    MonthSplit(y, 3);
    MonthSplit(y, 4);
    MonthSplit(y, 5);
    assert m == 12 * y + 2;
  }

  /** Across a whole leap year NL/365 counts its 29 February. */
  lemma SkippedLeapYear(y: int)
    requires IsLeap(y)
    ensures var dt1, dt2 := Date(y - 1, 12, 31), Date(y + 1, 1, 1);
            A.NoLeapNumerator(dt1, dt2) != A.OrdinaryDays(dt1, dt2)
  {
    hide MonthStart, MonthOf, MonthLength;
    MonthSplit(y - 1, 11);
    MonthSplit(y + 1, 0);
    ShortAndLongMonths(y - 1, 11);
    ShortAndLongMonths(y + 1, 0);
    A.NoLeapNumeratorExact(Date(y - 1, 12, 31), Date(y + 1, 1, 1));
  }

  lemma ShortAndLongMonths(y: int, i: int)
    requires 0 <= i < 12
    ensures 1 <= 28 <= MonthLength(12 * y + i) <= 31
    ensures i in {0, 2, 4, 6, 7, 9, 11} ==> MonthLength(12 * y + i) == 31
  {
    MonthSplit(y, i);
  }

  /** From the last day of a leap year to the next, ACT/ACT ISDA accrues a negative amount. */
  lemma NegativeAtYearEnd(y: int)
    requires IsLeap(y)
    ensures A.IsdaFactor(Date(y, 12, 31), Date(y + 1, 1, 1)) < 0.0
  {
    hide MonthStart, MonthOf, MonthLength, Date;
    ShortAndLongMonths(y, 11);
    ShortAndLongMonths(y + 1, 0);
    var dt1, dt2 := Date(y, 12, 31), Date(y + 1, 1, 1);
    CivilOrder(dt1, dt2);
    assert !IsLeap(y + 1);
    A.IsdaNegative(dt1, dt2);
  }

  /** 31 December is the last day of its month, but not to the end-of-month conventions. */
  lemma DecemberEnd(y: int)
    ensures BusinessDays.CheckIfLastDayOfMonth(Date(y, 12, 31)) && !A.MonthEndFlag(Date(y, 12, 31))
  {
    hide MonthStart, MonthOf, MonthLength, Date;
    ShortAndLongMonths(y, 11);
    var n := Date(y, 12, 31);
    A.MonthEndFlagExact(n);
    A.MonthEndDay(n);
  }

  /** On a maturity of 28 February in a common year, nothing accrued comes out as minus two days. */
  lemma NegativeAtMaturity(y: int)
    requires !IsLeap(y)
    ensures var n := Date(y, 2, 28); A.EndOfMonthNumerator(n, n, n) < 0
  {
    FebruaryEnd(y);
    hide MonthStart, MonthOf, MonthLength, Date;
    A.EndOfMonthNegative(Date(y, 2, 28), Date(y, 2, 28), Date(y, 2, 28));
  }

  lemma FebruaryEnd(y: int)
    requires !IsLeap(y)
    ensures MonthLength(12 * y + 1) == 28 && BusinessDays.CheckIfLastDayOfMonth(Date(y, 2, 28))
  {
    hide MonthStart, MonthOf;
    MonthSplit(y, 1);
    var n := Date(y, 2, 28);
    assert MonthOf(n) == 12 * YearOf(n) + MonthNumber(n) - 1;
    BusinessDays.LastDayTest(n);
  }

  /** From 28 February of a common year to 15 March, 30/360 German has two more days in the factor than in the coupon. */
  lemma GermanFebruary(y: int, maturity: Day)
    requires !IsLeap(y)
    ensures 1 <= 15 <= MonthLength(12 * y + 2) && MonthLength(12 * y + 1) == 28
    ensures var dt1, dt2 := Date(y, 2, 28), Date(y, 3, 15);
            && Thirty360.Count(dt1, dt2) == A.EndOfMonthNumerator(dt1, dt2, maturity) + 2
            && !A.GermanAgrees(dt1, dt2, A.Some(maturity))
  {
    FebruaryEnd(y);
    ShortAndLongMonths(y, 2);
    hide MonthStart, MonthOf, MonthLength, Date;
    var dt1, dt2 := Date(y, 2, 28), Date(y, 3, 15);
    A.NumeratorGap(dt1, dt2, maturity);
  }

  /** One day of ACT/365A is 2/365 in the factor and 2/360 in the coupon. */
  lemma OneDayOfAct365A(dt1: Day)
    ensures A.PeriodFactor(A.Act365A, 1, dt1, dt1 + 1, dt1 + 1, A.None) == A.Factor(2.0 / 365.0)
    ensures A.Coupon(1.0, A.Act365A, 1, dt1, dt1 + 1, A.None) == A.Factor(2.0 / 360.0)
  {
  }

  // ----- Periods

  /** Split by months from the first of a month, the range begins with the month before. */
  lemma MonthBefore(m: Month, endDate: Day)
    requires MonthStart(m) <= endDate
    ensures var s := Periods.Split(MonthStart(m), endDate, Periods.Monthly, false);
            |s| > 0 && s[0].last < MonthStart(m)
  {
    hide MonthStart, MonthLength;
    MonthStartStep(m);
    MonthOfUnique(MonthStart(m), m);
    Periods.AnchorMeaning(Periods.Monthly, MonthStart(m));
    Periods.SplitTiles(MonthStart(m), endDate, Periods.Monthly);
  }

  /** Weekly ends from a Monday to the next day: the Sunday after the range comes before its end. */
  lemma SundayBeforeTuesday(monday: Day)
    requires Weekday(monday) == 0
    ensures !PickDates.StrictlyIncreasing(PickDates.Pick(PickDates.Query(monday, monday + 1, Periods.Weekly, false, false)))
  {
    PickDates.WeeklyEndsInOrder(PickDates.Query(monday, monday + 1, Periods.Weekly, false, false));
  }

  // ----- Errors

  function Message(): T.ErrorDetail {
    T.ErrorDetail("This field is required.", "required", T.None, true)
  }

  function Messages(): T.Detail {
    T.List([T.Leaf(Message())])
  }

  lemma FlatMessages(attr: T.Option<string>)
    ensures T.Flatten(Messages(), attr, T.None) == [T.Error("required", "This field is required.", T.None, attr)]
  {
    T.OneMessage(Message(), attr, T.None);
  }

  /** An item with one field in error. */
  function Item(): T.Detail {
    T.Dict([T.Entry("a", Messages())])
  }

  lemma ItemFacts()
    ensures Item().Dict? && T.HasMessage(Item()) && T.GoodKeys(Item()) && T.NoListInList(Item())
  {
    assert T.HasMessage(Messages().items[0]) && T.HasMessage(Messages());
    assert T.HasMessage(Item().entries[0].value);
    assert T.GoodKeys(Messages()) && T.NoListInList(Messages());
  }

  lemma FlatItem(segment: string, index: T.Option<nat>)
    requires segment != ""
    ensures T.Flatten(Item(), T.Some(segment), index)
            == [T.Error("required", "This field is required.", T.None, T.Some(segment + "." + "a"))]
  {
    hide Messages;
    T.OneEntry("a", Messages(), T.Some(segment), index);
    FlatMessages(T.Some(segment + "." + "a"));
  }

  /** A serializer with one nested serializer. */
  function Address(): S.Field {
    S.Serializer(T.Some("address"), [S.Plain(T.Some("city"))])
  }

  function Customer(): S.Field {
    S.Serializer(T.None, [Address()])
  }

  lemma CustomerIsRoot()
    ensures S.IsRoot(Customer()) && S.PlainNames(Customer())
  {
    assert S.NameOf(Address()) == T.Some("address");
    assert S.Bound(S.Plain(T.Some("city"))) && S.Bound(Address());
    assert S.PlainNames(Address());
  }

  lemma AddressMember()
    ensures S.HasMember(Customer().fields, "address") && S.Member(Customer().fields, "address") == Address()
  {
    assert S.NameOf(Customer().fields[0]) == T.Some("address");
  }

  lemma BareAddress()
    ensures S.Shaped(Address(), Messages()) && !S.NoBareMessages(Address(), Messages())
  {
    assert S.MessageList(Messages());
    assert T.HasMessage(Messages().items[0]);
  }

  /** A missing nested serializer is reported under a name that is not documented. */
  lemma BareListUndocumented()
    ensures S.IsRoot(Customer())
    ensures var d := T.Dict([T.Entry("address", Messages())]);
            S.Shaped(Customer(), d) && !S.AllDocumented(S.FlatFields(Customer(), T.None), d)
  {
    var d := T.Dict([T.Entry("address", Messages())]);
    CustomerIsRoot();
    AddressMember();
    BareAddress();
    hide Address, Messages, S.IsRoot, S.PlainNames, S.FlatFields, S.AllDocumented;
    assert d.entries[0].key != S.NON_FIELD_ERRORS;
    assert T.GoodKeys(d) by {
      GoodMessages();
    }
    assert S.Shaped(Customer(), d);
    assert !S.NoBareMessages(Customer(), d);
    S.AttributesDocumentedExactly(Customer(), d);
  }

  lemma GoodMessages()
    ensures T.GoodKeys(Messages())
  {
  }

  /** A message in a list standing directly in a list is reported under number 1 instead of 0. */
  lemma ListInListMisnumbered()
    ensures var d := T.List([T.List([Item()])]);
            && T.GoodKeys(d) && !T.NamesArePlaces(d)
            && T.Flatten(d, T.None, T.None)
               == [T.Error("required", "This field is required.", T.None, T.Some("0.1" + "." + "a"))]
  {
    ItemFacts();
    FlatListInList();
    hide Item, T.Flatten, T.NamesArePlaces;
    var inner := T.List([Item()]);
    var d := T.List([inner]);
    assert T.HasMessage(inner.items[0]) && T.HasMessage(inner);
    assert !T.AlignedItems(inner.items, -1, 1);
    assert !T.Aligned(inner, T.Some(0));
    assert !T.Aligned(d, T.None);
    T.NamesArePlacesExactly(d);
  }

  lemma FlatListInList()
    ensures T.Flatten(T.List([T.List([Item()])]), T.None, T.None)
            == [T.Error("required", "This field is required.", T.None, T.Some("0.1" + "." + "a"))]
  {
    FlatItem("0.1", T.Some(1));
    InnerName();
    hide Item, T.Flatten, T.Extend, Decimal.Str;
    T.OneItem(T.List([Item()]), T.None, T.None);
    T.OneItem(Item(), T.Some("0"), T.Some(0));
  }

  lemma InnerName()
    ensures T.Extend(T.None, Decimal.Str(0)) == T.Some("0") && T.Extend(T.Some("0"), Decimal.Str(1)) == T.Some("0.1")
  {
    assert "0" + "." + "1" == "0.1";
  }

  /** A message before a nested item in one list leaves the item numbered one too low. */
  lemma InlineBeforeNumbered()
    ensures var d := T.List([T.Leaf(Message()), Item()]);
            && T.GoodKeys(d) && T.NoListInList(d) && !T.NamesArePlaces(d)
            && |T.Flatten(d, T.None, T.None)| == 2 && T.Flatten(d, T.None, T.None)[1].attr == T.Some("0" + "." + "a")
  {
    ItemFacts();
    FlatInlineAndItem();
    hide Item, T.Flatten, T.NamesArePlaces;
    var d := T.List([T.Leaf(Message()), Item()]);
    assert d.items[1] == Item() && T.Inline(d.items[0]) && T.HasMessage(d.items[0]);
    assert !T.InlineLast(d);
    T.AlignedWithoutNesting(d, T.None);
    T.NamesArePlacesExactly(d);
  }

  lemma FlatInlineAndItem()
    ensures var errors := T.Flatten(T.List([T.Leaf(Message()), Item()]), T.None, T.None);
            |errors| == 2 && errors[1].attr == T.Some("0" + "." + "a")
  {
    var items := [T.Leaf(Message()), Item()];
    ItemFacts();
    FlatItem("0", T.Some(0));
    hide Item;
    assert Decimal.Str(0) == "0" && items[1..] == [Item()];
    T.OneItem(Item(), T.None, T.None);
    assert T.Flatten(T.List([Item()]), T.None, T.None) == T.FlattenItems(items[1..], T.None, T.None);
    assert T.FlattenItems(items, T.None, T.None) == T.Flatten(items[0], T.None, T.None) + T.FlattenItems(items[1..], T.None, T.None);
  }

  // ----- Packages

  /** In a full table, a package whose task is the oldest does not start: its first child pushes it out. */
  lemma OldestPackageNeverStarts(db: K.Db, parent: nat, outcomes: seq<I.ChildOutcome>, actions: nat, now: int)
    requires forall id | id in db.rows :: id < db.nextId
    requires |K.Counted(db.rows)| == K.LIMIT && parent in K.Counted(db.rows)
    requires forall id | id in K.Counted(db.rows) :: parent <= id
    requires outcomes != []
    ensures I.PackageInstalled(db, parent, true, outcomes, actions, now)
            == (K.Db(db.rows, db.nextId + |outcomes|, db.log), false)
  {
    hide I.PackageInstalled, I.PackageStarted;
    assert I.Above(K.Counted(db.rows), parent) == K.Counted(db.rows) - {parent};
    I.ParentSurvivesExactly(db, parent, |outcomes|, actions, now);
    I.ParentLostAtStart(db, parent, outcomes, actions, now);
  }

  // ----- Deletion and naming

  /** An object whose own name holds the mark does not get it back. */
  lemma MarkedNameIsLost(r: SoftDelete.Row, code: string)
    requires SoftDelete.Truthy(r.userCode) && code != "" && r.name == "(del) Bond"
    ensures SoftDelete.Restored(SoftDelete.Deleted(r, code)).name != r.name
  {
    assert SoftDelete.MARK <= r.name[0..];
    assert Text.Occurs(SoftDelete.MARK, r.name);
    SoftDelete.RestoreAfterDelete(r, code);
  }

  /** Restoring an object that was never deleted replaces its user code by its name. */
  lemma LiveObjectIsRenamed(s: SoftDelete.State, id: nat)
    requires SoftDelete.Sound(s) && id in s.rows
    requires s.rows[id] == SoftDelete.Row(SoftDelete.Some("bond_1"), SoftDelete.None, "Bond", "Bond", false, true)
    requires forall j | j in s.rows && j != id :: s.rows[j].userCode != SoftDelete.Some("Bond")
    ensures var (s', outcome) := SoftDelete.BulkRestored(s, [id]);
            outcome == SoftDelete.Done && id in s'.rows && s'.rows[id].userCode == SoftDelete.Some("Bond")
  {
    NoMark("Bond");
    var r := SoftDelete.Restored(s.rows[id]);
    assert r.userCode == SoftDelete.Some("Bond");
    assert !SoftDelete.Taken(s.rows, id, r.userCode);
    assert SoftDelete.RestoredAll(s.rows[id := r], [id][1..]) == (s.rows[id := r], SoftDelete.Done);
    assert SoftDelete.RestoredAll(s.rows, [id]) == (s.rows[id := r], SoftDelete.Done);
    assert !SoftDelete.CodesInUse(s.rows, [id]);
  }

  lemma NoMark(name: string)
    requires '(' !in name
    ensures Text.RemoveAll(name, SoftDelete.MARK) == name
  {
    assert SoftDelete.MARK[0] == '(';
    CodeNaming.OccursMembers(SoftDelete.MARK, name);
    Text.RemoveAllChanges(name, SoftDelete.MARK);
  }

  /** A raw code that already holds the configuration code and a colon loses them in its file name. */
  lemma FileNameLosesText(u: string)
    requires u == "a:b"
    ensures CodeNaming.FileName("a", CodeNaming.Qualified("a", u)) != CodeNaming.Sanitise(u)
  {
    assert "a" + ":" <= u[0..];
    assert Text.Occurs("a" + ":", u);
    assert CodeNaming.Alnums("a") == "a" + CodeNaming.Alnums("");
    CodeNaming.FileNameOfSavedExactly("a", u);
  }
}

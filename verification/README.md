# Finmars: calendars, deletion, tasks and error names

A Dafny model of five parts of the Finmars backend and proofs of what they promise:

1. **Dates and accruals** (`Calendar`, `Thirty360`, `BusinessDays`, `Accruals`, `AccrualLaws`, `Periods`,
   `PickDates`, `Xirr`). A proleptic Gregorian calendar on unbounded day ordinals; on it the coupon-window search, the
   day-count conventions, the business-day helpers, the period splitters and the XNPV/XIRR iteration.
2. **The forest shown before a delete** (`NestedObjects`): depth-first search over a possibly cyclic object
   graph with one shared set of objects already seen.
3. **Validation errors against the documented schema** (`Decimal`, `ErrorTree`, `ErrorSchema`): one recursion
   flattens the errors of a request, another flattens the serializer; they must name the same places.
4. **Background tasks and the package installer** (`TaskStore`, `TaskExpiry`, `PackageInstall`, `PackageOutcome`): expiry, pruning on save, and
   a sequential install of many children that can fail part way.
5. **Soft deletion and code naming** (`Text`, `SoftDelete`, `CodeNaming`): unique codes that deletes free and
   restores take back, and string rewriting that must be idempotent or undone.

Code that updates fields, tables or lists in loops is a class or a method here, proved equal to a function of
its inputs or of the old state; the properties are lemmas about those functions. `Deviations` and `Examples`
give concrete inputs. `dafny verify dfyconfig.toml` checks everything.

What library calls are taken to do: `relativedelta(months=n)` clips the day to the month's length;
`rrule(WEEKLY, byweekday=x, dtstart, until)` yields every such weekday of the closed range; subtracting
`MonthBegin(1)`, `QuarterBegin`, `YearBegin` or `Week(weekday=0)` goes to the latest anchor strictly before the
date; `+ MonthEnd(0)` stays on or rolls forward to the month end; `pd.date_range` rolls its start forward to
the first anchor; a queryset lists each row once; `auto_now_add` stamps an inserted row with the current time.

## What the code does that its names or documentation do not say

Each has its exact condition, and `Deviations` (or the lemma named) gives an input.

- A 29-February rule that looks only at the two end years (`NL/365`) counts wrongly exactly when a leap year lies
  strictly between them or both contribute a leap day (`Accruals.NoLeapNumeratorExact`).
- ACT/ACT ISDA divides by a negative year length (`Accruals.IsdaNegative`); the end-of-month test never holds in
  December (`Accruals.MonthEndFlagExact`), and on a maturity at the end of February its numerator is negative
  (`Accruals.EndOfMonthNegative`).
- ACT/365A divides by 365 in the factor and by 360 in the coupon (`Accruals.Act365ACouponDiffers`); 30/360 German
  uses two different counts in them (`Accruals.GermanCouponAgrees`).
- ACT/ACT ICMA is not 0 on a coupon date whose day the month of the next coupon lacks: a first coupon on 31 March
  with quarterly coupons has accrued a day on 31 March (`Accruals.IcmaZeroOnPaymentDate`).
- A split that starts on a period anchor begins one period early (`Periods.SplitTiles`). Weekly ends are stepped
  from the start date and not from Sundays (`PickDates.WeeklyEndsInOrder`).
- A nested serializer that receives a bare list of messages (for example "this field is required") is reported
  under its own name, which the schema documents only with ".non_field_errors" added
  (`ErrorSchema.CoveredExactly`, `ErrorSchema.AttributesDocumentedExactly`).
- A list position is reported wrongly after an inline message in the same list, and for a list standing directly
  in a list (`ErrorTree.NamesArePlacesExactly`).
- A task's expiry reaches the table only when one instance saves twice without loading in between, which the
  worker's start of a task does not do (`TaskExpiry.ExpiryWrittenExactly`, `TaskExpiry.ReloadedTaskNeverExpires`).
- A package whose children push its own task out of the table does not start
  (`PackageInstall.ParentSurvivesExactly`, `PackageInstall.ParentLostAtStart`).
- `restore` overwrites the short name with the name and cannot give back a name that held "(del) "
  (`SoftDelete.RestoreAfterDelete`). On an object that was never deleted it replaces the user code by the name
  (`SoftDelete.AnyBatchExactly`).
- A file name drops text from a raw code that already contains the configuration code and a colon
  (`CodeNaming.FileNameOfSavedExactly`).

## Model

| member | source | states |
|---|---|---|
| Calendar.AddMonths | poms/common/formula_accruals.py:114-134 | Month arithmetic reaches exactly the month asked for, with the day clipped to that month's length |
| Calendar.CivilOrder | poms/common/formula_accruals.py:129 | Comparing day ordinals is comparing year, month and day |
| Calendar.OrdinalClosedForm | poms/common/formula_accruals.py:165-166 | Counting month lengths gives every year the first-day ordinal of the standard closed form |
| Calendar.AddMonthsStrict | poms/common/formula_accruals.py:129-130 | More months from one date always reach a strictly later date, clipping included, which is what makes the window search end |
| Thirty360.CountByPosition | poms/common/formula_accruals.py:284-297 | The 30/360 count is the distance between positions in a calendar of 30-day months, plus one for a 31st counted from before a 30th |
| Thirty360.CountMonotone | poms/common/formula_accruals.py:284-297 | The count never falls when the end moves later and never rises when the start does |
| Thirty360.CountNonNegative | poms/common/formula_accruals.py:284-297 | Dates in order count at least 0 |
| Thirty360.CountAdditive | poms/common/formula_accruals.py:284-297 | Splitting at any third date changes the total by an exact amount, at most one day either way |
| Thirty360.CountOfMonths | poms/common/formula_accruals.py:284-297 | k calendar months count 30k exactly when the target month is long enough for the day |
| Thirty360.CountAtMostActualPlusTwo | poms/common/formula_accruals.py:284-297 | Over spans of any length the count exceeds the actual days by at most 2 |
| Thirty360.BoundIsReached | poms/common/formula_accruals.py:284-297 | 28 February to 1 March of every common year reaches that bound |
| BusinessDays.LastBusinessDay | poms/common/utils.py:537-552 | Weekday arithmetic gives the greatest business day not after the date, at most two days back |
| BusinessDays.ShiftToBday | poms/common/utils.py:770-775 | The day-by-day walk stops at the first business day in its direction, at most two days away |
| BusinessDays.ShiftedMonotone | poms/common/utils.py:770-775 | Shifting keeps the order of dates |
| BusinessDays.LastDayTest | poms/common/utils.py:275-283 | The month-change test holds exactly on the last day of a month |
| BusinessDays.LastDayOfMonth | poms/common/utils.py:555-559 | The 28th-plus-four trick stays in the month and ends on its last day, as the test above confirms |
| BusinessDays.MonthTable | poms/common/utils.py:644-656 | The greatest of the first five columns of the month table's last row is the month's last business day |
| BusinessDays.LastBusinessDayInMonth | poms/common/utils.py:644-656 | The result lies in the month and no later day of it is a business day |
| BusinessDays.LastBusinessDayOfPreviousYear | poms/common/utils.py:706-721 | The walk back ends on the last business day before the date's year |
| BusinessDays.LastBusinessDayOfPreviousMonth | poms/common/utils.py:724-740 | The walk back ends on the last business day before the month and agrees with the month table |
| BusinessDays.LastBusinessDayInPreviousQuarter | poms/common/utils.py:743-767 | The walk back ends on the last business day before the date's quarter |
| BusinessDays.LastBusinessDaysAgree | poms/common/utils.py:537-559 | Month table and weekday arithmetic give the same day for every month |
| BusinessDays.ListOfBusinessDays | poms/common/utils.py:590-611 | The loop collects the business days of the closed range |
| BusinessDays.BusinessDaysInMeaning | poms/common/utils.py:590-611 | Exactly the Monday-to-Friday dates of the range, strictly increasing |
| BusinessDays.CountWeekday | poms/common/formula_accruals.py:650-654 | Stepping by weeks counts every day of the closed range that has the weekday |
| BusinessDays.BusinessDaysByElimination | poms/common/formula_accruals.py:238-244 | Days less Saturdays less Sundays is the number of business days |
| BusinessDays.ListOfMonths | poms/common/utils.py:614-641 | The day scan finds the start date and the first day of every later month touched, also for reversed ranges |
| BusinessDays.LastBdaysOfMonths | poms/common/utils.py:659-693 | The loop gives one month-end entry per month found |
| BusinessDays.MonthEndsMeaning | poms/common/utils.py:659-693 | 12*(y2-y1)+m2-m1+1 entries, strictly increasing, one per month, the last is date_to, every other the last business day of its month |
| Accruals.CouponWindow | poms/common/formula_accruals.py:127-134 | The search ends with the least number of periods that passes dt2 and with the window that number determines |
| Accruals.LeastPastUnique | poms/common/formula_accruals.py:129-130 | Only one number of periods meets that contract |
| Accruals.StartBelowPreviousPayment | poms/common/formula_accruals.py:130-132 | The window starts on the previous payment exactly when the window's end month has the day, and earlier otherwise |
| Accruals.WindowBrackets | poms/common/formula_accruals.py:116-134 | Afterwards dt1 <= dt2 < dt3, through clipping and the maturity clamp |
| Accruals.ScheduleFactor | poms/common/formula_accruals.py:53-281 | Missing inputs, frequencies above twelve, no frequency and the searched window each lead to the right period and factor |
| Accruals.IcmaFactorRange | poms/common/formula_accruals.py:149-152 | The ICMA factor never divides by 0 and lies in [0, 1/freq) |
| Accruals.IcmaFactorGrows | poms/common/formula_accruals.py:127-152 | Within one window a later day accrues strictly more; when maturity falls between the two days, exactly when its share of the whole window exceeds the earlier day's share of the cut one |
| Accruals.PaymentDateStop | poms/common/formula_accruals.py:127-130 | On the j-th payment date the search stops one period later |
| Accruals.IcmaZeroOnPaymentDate | poms/common/formula_accruals.py:127-134 | On a payment date nothing is accrued exactly when the next payment's month has the day; always for day 28 or earlier |
| Accruals.NoLeapNumeratorExact | poms/common/formula_accruals.py:221-236 | The NL/365 closed form counts the days that are not 29 February if and only if no leap year is skipped and at most one end year contributes |
| Accruals.NoLeapNumeratorWithinTwoYears | poms/common/formula_accruals.py:485-492 | It is right on every span within two consecutive years, in factor and coupon alike |
| Accruals.BusinessNumeratorExact | poms/common/formula_accruals.py:238-244 | The BD/252 numerator is the length of the business-day list less one, exactly when dt1 <= dt2 + 1 |
| Accruals.IsdaNegative | poms/common/formula_accruals.py:154-174 | For dates in order the factor is negative exactly when one end year is leap and the other is not |
| Accruals.MonthEndFlagExact | poms/common/formula_accruals.py:261-273 | The flag marks month ends exactly outside December |
| Accruals.EndOfMonthNegative | poms/common/formula_accruals.py:261-281 | For dates in order the end-of-month numerator is negative exactly on a maturity at the end of February that is also both dates |
| Accruals.FactorNonNegative | poms/common/formula_accruals.py:144-281 | For dates in order no convention divides by zero, and the sign of every convention's factor: negative only between a leap and a common year under ACT/ACT ISDA, on spans without a business day under BD/252, and on that February maturity under 30/360 ISDA and 30E/360 |
| Accruals.CouponIsSizeTimesFactor | poms/common/formula_accruals.py:418-627 | The separately written coupon code gives the coupon size times the factor of the same period, for every convention both implement alike |
| Accruals.Act365ACouponDiffers | poms/common/formula_accruals.py:593-596 | Under ACT/365A the coupon is size times factor only for size 0 |
| Accruals.NumeratorGap | poms/common/formula_accruals.py:261-297 | How far the 30/360 count and the end-of-month numerator differ, from the month ends of the two dates alone |
| Accruals.GermanCouponAgrees | poms/common/formula_accruals.py:529-553 | Under 30/360 German the coupon is size times factor exactly for size 0, for month ends that both counts move alike, and without a maturity for a count of 0 |
| AccrualLaws.KnownConventions | poms/common/formula_accruals.py:144-281 | Which conventions the factor and the coupon refuse, and that no day count gives 0 |
| AccrualLaws.ActualDays | poms/common/formula_accruals.py:176-184 | ACT/360 and ACT/365 are 0 on the first day, grow by the same amount each day, and are exactly 1 after 360 or 365 days |
| AccrualLaws.CommonYear | poms/common/formula_accruals.py:181-184 | Over a calendar year ACT/365 is exactly 1 if and only if the year is common |
| AccrualLaws.OneMoreDay | poms/common/formula_accruals.py:208-211 | ACT/365A is ACT/365 a day later |
| AccrualLaws.LeapRule | poms/common/formula_accruals.py:197-203 | The basis is 366 exactly when the start year's 29 February, or its 1 March before a leap year, lies in the closed span |
| AccrualLaws.LeapConventions | poms/common/formula_accruals.py:186-206 | ACT/366 is 0 within a calendar year and else exactly 1 when the closed span has its basis of days; the ACT/365L coupon is size times it |
| AccrualLaws.Thirty360Months | poms/common/formula_accruals.py:213-219 | 30/360 over k months from day 28 or earlier is exactly k twelfths |
| AccrualLaws.EndOfMonthMonths | poms/common/formula_accruals.py:246-273 | So are the end-of-month conventions from day 27 or earlier, and without a maturity they give 0 |
| AccrualLaws.NoLeapYear | poms/common/formula_accruals.py:221-236 | NL/365 over twelve months from any day is exactly 1 |
| AccrualLaws.BusinessYear | poms/common/formula_accruals.py:238-244 | BD/252 is 1 when 252 business days follow the first, and grows by 1/252 on business days only |
| AccrualLaws.IcmaPeriod | poms/common/formula_accruals.py:149-152 | ACT/ACT ICMA is 0 at the period's start, grows evenly, and is one coupon at its end |
| AccrualLaws.IsdaParts | poms/common/formula_accruals.py:154-174 | ACT/ACT ISDA is ACT/365 between like years; else its two parts, each over one day less than the year, negated |
| AccrualLaws.CouponAct364 | poms/common/formula_accruals.py:456-459 | The ACT/364 coupon is size times ACT/365 |
| AccrualLaws.ThirtyEPlusOn31st | poms/common/formula_accruals.py:578-591 | 30E+/360 counts a start on the 31st as the 30th and an end on it as the 1st of the next month |
| AccrualLaws.ThirtyEPlusMonths | poms/common/formula_accruals.py:578-591 | Over k months from day 28 or earlier it is exactly k twelfths of the coupon |
| AccrualLaws.PeriodicitiesByFrequency | poms/instruments/models.py:558-583 | Which periodicities the window serves, which is refused and which have no fixed period |
| AccrualLaws.PaymentsOfAYear | poms/instruments/models.py:545-556 | The 1st annual, 2nd semi-annual, 4th quarterly, 6th bimonthly and 12th monthly payment is the same day of the next year |
| AccrualLaws.FifthOfAYear | poms/common/formula_accruals.py:53-184 | The method itself: 73 days into an annual ACT/365 period that starts on 1 January the factor is 0.2 |
| Periods.AnchorMeaning | poms/common/utils.py:30-33 | Period starts are Mondays, firsts of a month, of a quarter, of a year |
| Periods.StartShiftMeaning | poms/common/utils.py:29-33 | Except for days, the start offset goes to the latest anchor strictly before the date |
| Periods.EndShiftMeaning | poms/common/utils.py:34-40 | The end offsets go to the first month end on or after, the first quarter or year end after, and six days on unless from a Sunday |
| Periods.SplitDateRange | poms/common/utils.py:785-827 | The loop with its skips computes the split |
| Periods.SplitAt | poms/common/utils.py:799-827 | Pair i is built from calendar period number first + i, up to the last one that starts in the range |
| Periods.SplitTiles | poms/common/utils.py:28-54 | Unadjusted pairs tile time without gap or overlap and cover the range; the first lies wholly before it exactly when the start is an anchor |
| Periods.SplitKeepsBusinessDays | poms/common/utils.py:799-827 | Adjusted pairs have business-day ends in order, cover every business day of the range, and leave only weekend days between them |
| Periods.PairIsUnique | poms/common/utils.py:799-827 | No day is in two adjusted pairs |
| PickDates.PickDatesFromRange | poms/common/utils.py:841-899 | The loop with its skips, shifts and duplicate check computes the pick |
| PickDates.RawDatesMeaning | poms/common/utils.py:860-880 | Before shifting: the range's anchors in order and the uneven edge, nothing else |
| PickDates.PickMeaning | poms/common/utils.py:860-899 | Strictly increasing; every anchor of the range is represented after shifting and nothing else but the kept edge; starts or ends at the shifted edge; empty exactly without anchors |
| PickDates.MovedMeaning | poms/common/utils.py:886-895 | Where weekends are moved, starts go to the first business day not before the date and ends to the last not after it |
| PickDates.PickDaily | poms/common/utils.py:881-899 | A daily business-day pick is the list of business days |
| PickDates.WeeklyEndsInOrder | poms/common/utils.py:830-899 | Weekly ends come out in order exactly for empty ranges, Sunday starts, and whole weeks or a day short of them; with business days also from a Monday to a Friday or Saturday, and from a Saturday to the Sunday of a later week |
| PickDates.WeeklyEnds | poms/common/utils.py:830-899 | Which dates weekly ends are made of: each step but one on the end date moved on, and the end date |
| PickDates.WeeklyStartsInOrder | poms/common/utils.py:830-899 | Weekly starts are always in order and are exactly the moved start of the range and the Mondays of the whole weeks from there |
| Xirr.FXnpv | poms/common/formula_accruals.py:691-701 | The accumulated value at every rate from -1 up for any gaps, and at every rate for whole-year gaps; infinity at -1, and the failure on no data |
| Xirr.DaysAndYearsAgree | poms/common/formula_accruals.py:698-700 | Discounting by a daily growth and by its yearly rate give the same value |
| Xirr.NpvOfTwo | poms/common/formula_accruals.py:691-701 | A payment now and one k years later are worth the first plus the second over (1 + rate) to the k, at every rate but -1 |
| Xirr.NpvOfConcat | poms/common/formula_accruals.py:697-700 | The value of two lists of flows is the sum of their values |
| Xirr.NpvAtRateZero | poms/common/formula_accruals.py:691-701 | At rate 0 it is the sum of the flows |
| Xirr.NpvStrictlyDecreases | poms/common/formula_accruals.py:691-701 | For one flow of any size followed by receipts, one of them positive and later, a higher rate gives a strictly lower value, for any day gaps |
| Xirr.InternalRateUnique | poms/common/formula_accruals.py:691-732 | At most one rate above -1 has value 0 |
| Xirr.PresentValueIsXnpv | poms/common/formula_accruals.py:691-701 | For whole-year gaps the value by rate is the present value of the data, at every rate |
| Xirr.FXirr | poms/common/formula_accruals.py:704-732 | On the data's own present values the loop follows the Newton iteration with its give-up and stop tests |
| Xirr.FXirrAnyGaps | poms/common/formula_accruals.py:704-732 | The same for flows at any gaps, given their f_xnpv |
| Xirr.StepExactly | poms/common/formula_accruals.py:710-727 | What a step does, in present values: it gives up at the pole and on a small slope, else goes to the zero of the chord through the two values, and stops there exactly when within the tolerance |
| Xirr.StepTowardsRate | poms/common/formula_accruals.py:710-727 | For an investment a rate more than a difference step below the internal rate is followed by a higher one, one above it by a lower one, and neither step ends above it |
| Xirr.ResultExactly | poms/common/formula_accruals.py:710-732 | The result is the rate on which the iteration stopped, and 0 when it gave up or ran out of steps |
| Xirr.NonZeroResultIsNearRoot | poms/common/formula_accruals.py:704-732 | Every non-zero result is the rate on which a visited rate's step stopped, within tolerance of it, and the value there is below tolerance times slope |
| Xirr.XirrIsNearRoot | poms/common/formula_accruals.py:704-732 | So for flows at whole-year gaps, in terms of their present values at that rate and one difference step later |
| Xirr.NpvBelowChord | poms/common/formula_accruals.py:691-701 | The present value of an investment is convex in the rate |
| Xirr.XirrIsInternalRate | poms/common/formula_accruals.py:704-732 | For an investment with internal rate rho, a non-zero result never exceeds rho by twice the tolerance, and with the default tolerance is within tolerance and difference step of rho |
| NestedObjects.Visit | poms/common/utils.py:1017-1034 | The search ends on every finite graph; an object is skipped exactly when already seen, and the seen set only grows |
| NestedObjects.NestedUnder | poms/common/utils.py:1017-1034 | The mutating recursion returns the tree and leaves the seen set that the function gives |
| NestedObjects.Nested | poms/common/utils.py:1036-1043 | One entry per tree of the forest, flagged as protected by its own object |
| NestedObjects.VisitAdds | poms/common/utils.py:1017-1034 | One visit adds exactly what the object reaches outside the seen set, each once, along edges, in depth-first order |
| NestedObjects.ForestIsReachableSet | poms/common/utils.py:1012-1043 | The forest holds each object reachable from the roots exactly once and no other; links are edges; seen is the reachable set; order is depth first |
| ErrorTree.LeavesConserved | finmars_standardized_errors/formatter.py:146-180 | One error per non-empty message, in order, carrying its code, its text and its key where that is not empty, for every detail including nested lists |
| ErrorTree.JoinInjective | finmars_standardized_errors/formatter.py:157-171 | Attribute names of separator-free, non-empty segments determine the path |
| ErrorTree.AttributesSpellLabels | finmars_standardized_errors/formatter.py:154-171 | Every attribute name is the rendering of the keys and numbers passed on the way down |
| ErrorTree.LabelsArePlaces | finmars_standardized_errors/formatter.py:154-171 | At any depth, the numbered paths are the messages' real paths exactly when numbering and positions agree |
| ErrorTree.NamesArePlacesExactly | finmars_standardized_errors/formatter.py:146-180 | The names reported are those of the messages' places if and only if the detail is aligned |
| ErrorTree.AlignedWithoutNesting | finmars_standardized_errors/formatter.py:154-165 | With no list directly in a list, that means no inline message stands before a numbered item with a message |
| ErrorTree.PlacesHold | finmars_standardized_errors/formatter.py:146-171 | Looking a place up in the detail finds the slot or list that holds its message |
| ErrorTree.ErrorsLeadBack | finmars_standardized_errors/formatter.py:108-180 | Following an error's name in the original detail leads to its message |
| ErrorTree.OneMessage | finmars_standardized_errors/formatter.py:150-153 | A message in a list is reported under the list's name |
| ErrorTree.OwnMessage | finmars_standardized_errors/formatter.py:150-165 | One of the package's own class is numbered like a nested item |
| Examples.FlattenExample | finmars_standardized_errors/formatter.py:111-144 | The documented example: three errors with their codes, texts and names |
| ErrorSchema.FieldDocuments | finmars_standardized_errors/openapi_utils.py:48-93 | The documented names, in order, spell templates of field names, INDEX and KEY, whatever the nesting and prefix |
| ErrorSchema.FieldsLead | finmars_standardized_errors/openapi_utils.py:48-84 | Every documented name carries the very field its segments lead to |
| Examples.OrderNames | finmars_standardized_errors/openapi_utils.py:48-84 | The names documented for a serializer with a list, a dict and a list of serializers |
| ErrorSchema.PrefixExtends | finmars_standardized_errors/openapi_utils.py:87-93 | Extending a prefix extends the path it stands for by one segment |
| ErrorSchema.SerializerCovers | finmars_standardized_errors/openapi_utils.py:66-70 | A serializer documents its non-field errors and, under each member's name, what that member documents; nothing else |
| ErrorSchema.CoveredExactly | finmars_standardized_errors/openapi_utils.py:48-84 | For every field tree and detail of its shape, all reported paths are documented if and only if no serializer received a bare message list |
| ErrorSchema.ErrorsAreDocumented | finmars_standardized_errors/formatter.py:146-180 | Then every attribute agrees segment by segment with the name of a documented field, but for numbers at INDEX and keys at KEY |
| ErrorSchema.AttributesDocumentedExactly | finmars_standardized_errors/openapi_utils.py:48-93 | On attribute names, for members not called INDEX or KEY: every attribute is documented if and only if no serializer received a bare message list |
| ErrorSchema.PolymorphicIsDocumented | finmars_standardized_errors/openapi_utils.py:61-65 | The same for a polymorphic proxy and any one of its serializers |
| TaskStore.Least | poms/celery_tasks/models.py:263-266 | The row deleted is the one with the smallest id among those that count |
| TaskStore.Task.Save | poms/celery_tasks/models.py:251-266 | What is written, what is pruned, what the task keeps in memory; a task whose row is gone is inserted again |
| TaskStore.Task.Cancel | poms/celery_tasks/models.py:178-186 | The task is stored as cancelled, with everything else it holds in memory |
| TaskStore.Task.UpdateProgress | poms/celery_tasks/models.py:247-249 | The whole task is saved with the new progress |
| TaskStore.AutoCancelByTtl | poms/celery_tasks/tasks.py:55-68 | The due tasks are timed out and saved in the order of the query, each as the query loaded it, with what every save prunes |
| TaskStore.SweepWithinLimit | poms/celery_tasks/tasks.py:55-68 | Within the limit, in any order, exactly the pending tasks whose expiry has passed become timeouts with a line added to their notes; nothing else changes |
| TaskStore.SweptNeverDue | poms/celery_tasks/tasks.py:57-68 | A second sweep at the same or an earlier time finds nothing due |
| TaskStore.ExpiryNeedsSecondSave | poms/celery_tasks/models.py:252-255 | One save never makes a new task expire; when the same instance saves it again it is due exactly when pending and out of time |
| TaskExpiry.ExpiryWrittenExactly | poms/celery_tasks/models.py:251-255 | Over every sequence of loads, edits and saves by any instances: an expiry reaches the table if and only if some instance saves again after a save without loading in between; until then the task is never due |
| TaskExpiry.ExpiryIsCreationPlusTtl | poms/celery_tasks/models.py:254-255 | While its row is not lost, a task with an expiry is due exactly when pending from creation plus time to live on |
| TaskExpiry.ReloadedTaskNeverExpires | poms/celery_tasks/base.py:36-52 | Created, loaded by the worker, set pending and saved: two saves, and due at no time |
| TaskExpiry.StaleSaveErasesExpiry | poms/celery_tasks/models.py:251-255 | An instance loaded before the expiry was written removes it again with its save |
| TaskExpiry.StartReloaded | poms/celery_tasks/base.py:36-52 | The worker's start on the objects themselves: the row it leaves, pending and never due |
| TaskStore.SaveNewTaskTwice | poms/celery_tasks/models.py:251-266 | Two saves of a new task by one instance leave exactly that second row in the table |
| TaskStore.AddNewest | poms/celery_tasks/models.py:257-266 | Adding an id above all others and pruning the smallest keeps the largest ids |
| TaskStore.AddStale | poms/celery_tasks/models.py:257-266 | Re-saving a pruned task prunes it again and nothing else |
| TaskStore.StepKeepsMostRecent | poms/celery_tasks/models.py:251-266 | Every create or re-save keeps all reports and exactly the most recent other tasks |
| TaskStore.RunKeepsMostRecent | poms/celery_tasks/models.py:251-266 | So after every run from the empty table: at most 3000 counted tasks, those with the largest ids, and no report lost |
| TaskStore.AtMost3000 | poms/celery_tasks/models.py:257-266 | In numbers: at most 3000 tasks that are not reports, fewer only when every task ever created is there |
| TaskStore.ReportTypes | poms/celery_tasks/models.py:258-260 | Which two types are never pruned |
| TaskStore.SaveWithinLimit | poms/celery_tasks/models.py:251-255 | Below the limit a save changes one row, and one whose row is gone is created anew with the current time |
| PackageInstall.InstallConfiguration | poms/configuration/tasks.py:511-696 | The child's saves, reports, import and failures give the table and outcome specified |
| PackageInstall.InstallPackage | poms/configuration/tasks.py:727-916 | The whole installer, pruning and the rollback of its start included, gives the table and outcome specified |
| PackageInstall.ChildInstallAdvances | poms/configuration/tasks.py:511-696 | A child ends done when it returns; in error without a release, in error or pending without a download, pending on a failed import or lost parent; the parent hears of its step only; no other older task changes |
| PackageInstall.OneChildInstalled | poms/configuration/tasks.py:855-862 | One round of the loop keeps earlier children done and later ones initial, and the parent's progress rising |
| PackageInstall.ChildrenEnd | poms/configuration/tasks.py:855-862 | After the loop all children are done, or one failed in its own way, those before it are done and those after it cancelled |
| PackageInstall.PackageFinishedClean | poms/configuration/tasks.py:864-916 | The parent ends done, its progress climbing to the total over all actions |
| PackageInstall.PackageRun | poms/configuration/tasks.py:727-916 | Over every run: clean runs leave parent and children done, failed ones leave none initial, progress never falls nor passes the total |
| PackageInstall.ParentLostAtStart | poms/configuration/tasks.py:794-853 | A parent pruned by its children's creation stops the run and the transaction takes everything back: the rows are those before, only the id sequence has advanced |
| PackageInstall.ParentSurvivesExactly | poms/configuration/tasks.py:794-853 | Within the limit the parent survives the start if and only if it is a report or fewer than the limit of counted tasks and children are above it |
| PackageInstall.NoRelease | poms/configuration/tasks.py:757-767 | Without a release the run raises, no task is created, the parent is in error with its other fields as before, and no other row changes |
| PackageInstall.NoParent | poms/configuration/tasks.py:731 | Without the parent's row nothing happens |
| PackageInstall.FirstFailureMeaning | poms/configuration/tasks.py:855-862 | The index names the first child that does not install, all before it do |
| PackageInstall.PackageRunWithRoom | poms/configuration/tasks.py:727-916 | With room for two tasks a child, the run succeeds exactly when every child's calls do, every child's row exists at the end, and the failed child is the first whose calls failed |
| PackageOutcome.PackageExactly | poms/configuration/tasks.py:727-916 | With room, the whole outcome: success exactly when every child installs; every row of the table afterwards, field by field, imports included; and every progress the parent reported, in order |
| PackageOutcome.ChildWrites | poms/configuration/tasks.py:511-696 | With room, every write of one child in order: its own, its parent's and its import's |
| PackageOutcome.ChildrenCreatedWrites | poms/configuration/tasks.py:813-842 | Every child is written twice as initial when it is created |
| PackageOutcome.PercentMeaning | poms/configuration/tasks.py:610 | A step's percentage is rounded down, at most 100, and 100 only at the last step |
| SoftDelete.DelCodeInjective | poms/expressions_engine/functions.py:1403-1413 | Different counter values give different generated codes |
| SoftDelete.Registry.GenerateDelCode | poms/expressions_engine/functions.py:1389-1415 | The counter advances by one even when the code is then refused as too long |
| SoftDelete.DelCodes | poms/expressions_engine/functions.py:1410-1413 | A generated code fits exactly while the counter is below 10 to the 22 |
| SoftDelete.FirstDelCode | poms/common/models.py:209-213 | The first code is del, 16 zeros and a one |
| SoftDelete.Instance.Save | poms/common/models.py:76-84 | Missing code and short name default to the name; the unique code decides whether the row is written |
| SoftDelete.Instance.FakeDelete | poms/common/models.py:183-236 | The object's row and the counter afterwards, for the dash object, an exhausted counter, a taken code and the normal case |
| SoftDelete.Instance.Restore | poms/common/models.py:238-298 | The row that a restore writes, or its refusal by the unique code |
| SoftDelete.Registry.Destroy | poms/common/mixins.py:72-97 | The dash object is refused, a live object soft-deleted, a deleted one removed |
| SoftDelete.DestroyExactly | poms/common/mixins.py:72-97 | Case by case: unknown and dash objects are left alone, a deleted object's row goes, a live one gets a generated code, keeps its own aside, both names marked, disabled; an exhausted counter changes nothing else |
| SoftDelete.CreatedMeaning | poms/common/models.py:76-84 | A new object's row field by field, or its refusal because the code is there |
| SoftDelete.Registry.BulkDelete | poms/celery_tasks/tasks.py:154-187 | Every listed object is tried, failures included, and the last failure is raised |
| SoftDelete.BulkDeleteExactly | poms/celery_tasks/tasks.py:154-187 | Of any existing objects the deleted ones go, the live ones are soft-deleted, dash and unlisted ones stay; only an exhausted counter is raised, and does not stop it |
| SoftDelete.Registry.BulkRestore | poms/common/mixins.py:194-233 | Guard, then restores in query order up to the first refusal |
| SoftDelete.GuardExactly | poms/common/mixins.py:205-233 | When the guard refuses for a code in use, when for a missing object, and that it then changes nothing |
| SoftDelete.RestoredUpTo | poms/celery_tasks/tasks.py:218-249 | A batch stops at the first object whose code is not free at its turn, and what came before stays restored |
| SoftDelete.RestoreAfterDelete | poms/common/models.py:238-298 | Delete and restore give back the user code always, the name if and only if it held no mark, and the whole row under an exact condition |
| SoftDelete.RoundsKeepCodeAndName | poms/common/models.py:183-298 | After any number of rounds code and name are the original and the mark has not accumulated |
| SoftDelete.SoftDeleteSound | poms/common/models.py:183-236 | A soft delete keeps all codes distinct and is never refused by the database |
| SoftDelete.RestoreBatchSound | poms/celery_tasks/tasks.py:218-232 | A batch whose codes are free and different is restored completely and nothing else changes |
| SoftDelete.BulkRestoreExactly | poms/common/mixins.py:205-233 | A batch of deleted objects is restored if and only if no code is in use and all are different |
| SoftDelete.RestoredExactly | poms/celery_tasks/tasks.py:218-232 | Any batch goes through if and only if each object's new code is free at its turn, and then just the listed objects are restored |
| SoftDelete.AnyBatchExactly | poms/common/mixins.py:205-233 | The same behind the guard for batches that list live objects, and afterwards codes are sound exactly when the live ones' names are usable as codes |
| SoftDelete.BulkDeleteMeaning | poms/celery_tasks/tasks.py:154-187 | While generated codes fit, a bulk delete of live objects succeeds and soft-deletes just those |
| SoftDelete.BulkRestoreUndoesBulkDelete | poms/celery_tasks/tasks.py:154-232 | Restoring the deleted batch in any order passes the guard, gives every code and unmarked name back and leaves all other objects alone |
| SoftDelete.StepSound | poms/common/mixins.py:72-233 | Every create, delete, bulk delete and guarded bulk restore, of live objects too, keeps user codes distinct; no delete and no restore of deleted objects with different codes is refused |
| SoftDelete.RunKeepsCodesDistinct | poms/common/mixins.py:72-233 | So over every run from the empty table |
| Decimal.StrInjective | finmars_standardized_errors/formatter.py:156-161 | Different list positions have different numerals |
| Decimal.ZeroFillDenotes | poms/expressions_engine/functions.py:1410 | Padding keeps the number and reaches the width |
| Text.RemoveAllChanges | poms/common/models.py:271-272 | Removing a pattern changes exactly the strings that contain it |
| Text.Find | poms/configuration/utils.py:64 | The separator found is the first one, and none is found exactly when there is none |
| CodeNaming.SanitiseClean | poms/configuration/utils.py:40-41 | The result is lower-case letters, digits and single underscores |
| CodeNaming.SanitiseIdempotent | poms/configuration/utils.py:40-41 | Sanitising twice is once, and exactly the sanitised strings are left as they are |
| CodeNaming.SanitiseKeepsAlnums | poms/configuration/utils.py:40-41 | Every ASCII letter and digit survives, in order, in lower case |
| CodeNaming.ConfigurationModel.Save | poms/configuration/models.py:44-59 | The configuration code settled on, the failure without a user code, and the user code left |
| CodeNaming.SettledMeaning | poms/configuration/models.py:48-50 | A configuration code is kept; without one it is the local code of the space |
| CodeNaming.QualifiedIdempotent | poms/configuration/models.py:55-57 | A saved code carries its configuration and a further save leaves it unchanged |
| CodeNaming.SaveTwice | poms/configuration/models.py:44-59 | A second save of one object leaves it as the first did |
| CodeNaming.FileNameOfSaved | poms/configuration/utils.py:62-69 | The file name of a saved code is the sanitised raw code when that does not contain the configuration code and a colon |
| CodeNaming.FileNameOfSavedExactly | poms/configuration/utils.py:62-69 | That is the exact condition for every configuration code with a letter or digit |
| CodeNaming.SecondPartMeaning | poms/configuration/utils.py:64 | Splitting gives the text between the first separator and the next or the end, and fails exactly without a separator |
| Examples.QualifiedExample | poms/configuration/models.py:55-57 | A code saved under a configuration, and its file name |
| Deviations.CouponOnThe31st | poms/common/formula_accruals.py:127-134 | A quarterly first coupon on 31 March has accrued one day of 92 on that day |
| Deviations.SkippedLeapYear | poms/common/formula_accruals.py:229-236 | NL/365 miscounts from 31 December to 1 January across any leap year |
| Deviations.NegativeAtYearEnd | poms/common/formula_accruals.py:165-170 | ACT/ACT ISDA is negative from the last day of a leap year to the next day |
| Deviations.DecemberEnd | poms/common/formula_accruals.py:265-266 | 31 December ends its month but fails the end-of-month test |
| Deviations.NegativeAtMaturity | poms/common/formula_accruals.py:261-281 | On a maturity of 28 February the end-of-month count is negative |
| Deviations.GermanFebruary | poms/common/formula_accruals.py:529-553 | From 28 February to 15 March factor and coupon of 30/360 German are two days apart |
| Deviations.OneDayOfAct365A | poms/common/formula_accruals.py:208-211 | One day of ACT/365A: 2/365 in the factor, 2/360 in the coupon |
| Deviations.MonthBefore | poms/common/utils.py:30-33 | A monthly split from the first of a month begins with the month before |
| Deviations.SundayBeforeTuesday | poms/common/utils.py:830-838 | Weekly ends from a Monday to a Tuesday are out of order |
| Deviations.BareListUndocumented | finmars_standardized_errors/openapi_utils.py:66-70 | The error of a missing nested serializer is not documented |
| Deviations.ListInListMisnumbered | finmars_standardized_errors/formatter.py:156-165 | A message in a list directly in a list is reported under 0.1 where its place is 0.0 |
| Deviations.InlineBeforeNumbered | finmars_standardized_errors/formatter.py:150-165 | The item after an inline message is reported under 0 where its place is 1 |
| Deviations.OldestPackageNeverStarts | poms/configuration/tasks.py:794-853 | With 3000 counted tasks, the oldest of them cannot install a package that has dependencies |
| Deviations.MarkedNameIsLost | poms/common/models.py:271-272 | A name that held the mark does not come back |
| Deviations.LiveObjectIsRenamed | poms/common/models.py:271-274 | Restoring an object that was never deleted replaces its user code by its name |
| Deviations.FileNameLosesText | poms/configuration/utils.py:62-69 | A raw code a:b of configuration a loses its first part in the file name |

## Left out

- Xirr.FXnpv: rates below -1 only for flows at whole-year gaps; with other gaps powers of a negative base leave the reals.
- Xirr.FXirrAnyGaps: for other than whole-year gaps the discounts are irrational and enter as a function that agrees with the flows at every rate with a daily growth.
- Xirr.FXirr: only tolerances above 0; at 0 or below the loop never stops early and the source can divide by zero.
- Xirr.XirrIsInternalRate: that an internal rate exists is assumed, and results within tolerance of the pole at -1 or below it are not bounded.
- ErrorSchema.PolymorphicIsDocumented: a polymorphic proxy only at the root, where views declare it.
- ErrorSchema.ErrorsAreDocumented: the shapes of details are those REST framework's validation gives; which errors a field can raise is not modelled.
- PackageInstall.PackageRun: one clock value for a whole run, and import_configuration creates no task besides its own.
- SoftDelete.RunKeepsCodesDistinct: one master user; a code given to a new object, or a name that becomes the code of a live object in a restored batch, must not be empty or one the counter has yet to generate.
- SoftDelete.BulkRestoreUndoesBulkDelete: for a batch without the dash object, on which a delete does nothing.
- CodeNaming.ConfigurationModel.Save: lower-casing is that of ASCII text, which is all that the sanitised code contains.
- calculate_accrual_event_factor: the arithmetic is inside QuantLib.
- Floating-point rounding: amounts, factors and percentages are exact.
- Dates outside the years of datetime.date, parsing and formatting of dates: dates are unbounded ordinals and stand for their strings.
- Frequency "C", which returns its input, and calculate_period_date.
- The conversion of a coupon size or accrual schedule row read from the database into numbers; a missing or unparsable one.
- BaseTask's status steps, mark_task_as_finished, and terminal statuses, which the code lets later steps overwrite.
- Progress reports of the bulk-delete and bulk-restore tasks, and deletions that cascade to related rows.
- Revoking the broker message of a cancelled task, its options, results, error text and attachments.
- How the database clears a pruned parent's reference in its children, beyond a child loaded later having no parent.
- Row locks and concurrent runs: requests and tasks run one after another, and of transactions only the rollback of a package's start is modelled.
- Length limits of stored strings, is_active, modified_at and system messages of deleted and restored objects.
- Other users of the counter that generates deletion codes; they only advance it.
- Configuration.is_primary, manifests, files, storage, HTTP calls and logging.
- The error-code sets and examples of the API schema; the record of an error that the formatter stores.
- Filtering, grouping and sorting of querysets: their meaning is the database's.

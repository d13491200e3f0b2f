/** The fixed run parameters of `main` in data_mockery.py and what they imply: a fresh date
    cursor, 59 records a day from 2017-10-01, for 92 days, fills the fourth quarter of 2017
    exactly; and the sampling fraction, the target count over the eligible population. */
module Mockery {
  import opened Outcomes
  import opened DateCursor
  import opened Labels

  // ----- Day ordinals, numbered as Python's date.toordinal numbers them -----

  predicate IsLeap(y: int) {
    y % 4 == 0 && (y % 100 != 0 || y % 400 == 0)
  }

  function DaysInMonth(y: int, m: int): int
    requires 1 <= m <= 12
  {
    if m == 2 then (if IsLeap(y) then 29 else 28)
    else if m == 4 || m == 6 || m == 9 || m == 11 then 30
    else 31
  }

  function DaysBeforeMonth(y: int, m: int): (r: nat)
    requires 1 <= m <= 12
  {
    if m == 1 then 0 else DaysBeforeMonth(y, m - 1) + DaysInMonth(y, m - 1)
  }

  function DaysBeforeYear(y: int): int
    requires y >= 1
  {
    var y1 := y - 1;
    y1 * 365 + y1 / 4 - y1 / 100 + y1 / 400
  }

  function YearLength(y: int): int {
    if IsLeap(y) then 366 else 365
  }

  /** The months of a year add up to its length. */
  lemma MonthsFillYear(y: int)
    ensures DaysBeforeMonth(y, 12) + DaysInMonth(y, 12) == YearLength(y)
  {
    var feb := DaysInMonth(y, 2);
    assert DaysBeforeMonth(y, 2) == 31;
    assert DaysBeforeMonth(y, 3) == 31 + feb;
    assert DaysBeforeMonth(y, 4) == 62 + feb;
    assert DaysBeforeMonth(y, 5) == 92 + feb;
    assert DaysBeforeMonth(y, 6) == 123 + feb;
    assert DaysBeforeMonth(y, 7) == 153 + feb;
    assert DaysBeforeMonth(y, 8) == 184 + feb;
    assert DaysBeforeMonth(y, 9) == 215 + feb;
    assert DaysBeforeMonth(y, 10) == 245 + feb;
    assert DaysBeforeMonth(y, 11) == 276 + feb;
    assert DaysBeforeMonth(y, 12) == 306 + feb;
  }

  /** Month m ends no later than the year does. */
  lemma {:induction false} MonthEndsInYear(y: int, m: int)
    requires 1 <= m <= 12
    ensures DaysBeforeMonth(y, m) + DaysInMonth(y, m) <= YearLength(y)
    decreases 12 - m
  {
    if m < 12 {
      MonthEndsInYear(y, m + 1);
    } else {
      MonthsFillYear(y);
    }
  }

  /** Going from y - 1 to y, the quotient by k grows by one exactly when k divides y. */
  lemma DivStep(y: int, k: int)
    requires k > 0
    ensures y / k == (y - 1) / k + (if y % k == 0 then 1 else 0)
  {
    var q, r := (y - 1) / k, (y - 1) % k;
    if r == k - 1 {
      DivModUnique(y, k, q + 1, 0);
    } else {
      DivModUnique(y, k, q, r + 1);
    }
  }

  /** A year has a leap day when 4 divides it, less when 100 does, plus when 400 does. */
  lemma LeapDays(y: int)
    ensures YearLength(y) == 365 + (if y % 4 == 0 then 1 else 0)
      - (if y % 100 == 0 then 1 else 0) + (if y % 400 == 0 then 1 else 0)
  {
    if y % 100 == 0 {
      DivModUnique(y, 4, 25 * (y / 100), 0);
    }
    if y % 400 == 0 {
      DivModUnique(y, 100, 4 * (y / 400), 0);
    }
  }

  /** Year y + 1 starts right after the last day of year y. */
  lemma NextYearStart(y: int)
    requires y >= 1
    ensures DaysBeforeYear(y + 1) == DaysBeforeYear(y) + YearLength(y)
  {
    DivStep(y, 4);
    DivStep(y, 100);
    DivStep(y, 400);
    LeapDays(y);
    assert DaysBeforeYear(y + 1) == y * 365 + y / 4 - y / 100 + y / 400;
    assert DaysBeforeYear(y) == (y - 1) * 365 + (y - 1) / 4 - (y - 1) / 100 + (y - 1) / 400;
  }

  /** The ordinal of the proleptic Gregorian date y-m-d; 0001-01-01 is day 1. Day y-m-d is
      the (Ordinal - DaysBeforeYear(y))-th day of its year. */
  function Ordinal(y: int, m: int, d: int): (r: int)
    requires y >= 1 && 1 <= m <= 12 && 1 <= d <= DaysInMonth(y, m)
    ensures 1 <= r - DaysBeforeYear(y) <= YearLength(y)
    ensures y == 1 && m == 1 && d == 1 ==> r == 1
  {
    MonthEndsInYear(y, m);
    DaysBeforeYear(y) + DaysBeforeMonth(y, m) + d
  }

  /** The calendar date after y-m-d. */
  function NextDate(y: int, m: int, d: int): (int, int, int)
    requires y >= 1 && 1 <= m <= 12 && 1 <= d <= DaysInMonth(y, m)
  {
    if d < DaysInMonth(y, m) then (y, m, d + 1)
    else if m < 12 then (y, m + 1, 1)
    else (y + 1, 1, 1)
  }

  /** The next calendar date has the next ordinal, so `+ timedelta(days=n)` on a date is
      `+ n` on its ordinal, across month and year ends. */
  lemma OrdinalNextDay(y: int, m: int, d: int)
    requires y >= 1 && 1 <= m <= 12 && 1 <= d <= DaysInMonth(y, m)
    ensures var (y', m', d') := NextDate(y, m, d);
      && y' >= 1 && 1 <= m' <= 12 && 1 <= d' <= DaysInMonth(y', m')
      && Ordinal(y', m', d') == Ordinal(y, m, d) + 1
  {
    if d == DaysInMonth(y, m) && m == 12 {
      MonthsFillYear(y);
      NextYearStart(y);
    }
  }

  // ----- The constants of `main` -----

  const StartDate: int := Ordinal(2017, 10, 1)
  const NumberOfDays: nat := 92
  const RecordsPerDay: nat := 59
  const TotalNewRecords: nat := NumberOfDays * RecordsPerDay

  /** The constant labels and the week-label prefix handed to the generators. */
  const CalendarYear: int := 2017
  const YearHalf: string := "2017 HY2"
  const HalfQuarter: string := "2017 Q4"
  const WeekPrefix: string := "2017 Week "

  /** The generators `main` builds from these constants: the three constant labels hand back
      2017, "2017 HY2" and "2017 Q4" on every call, and a Quarter.Week label is
      "2017 Week " followed by a numeral from which the week number reads back. */
  lemma MainLabels(week: int)
    ensures StringGenerator(CalendarYear)() == 2017
    ensures StringGenerator(YearHalf)() == "2017 HY2"
    ensures StringGenerator(HalfQuarter)() == "2017 Q4"
    ensures var text := WeekLabel(WeekPrefix, week);
      text[..10] == "2017 Week " && ParseWeekLabel(WeekPrefix, text) == Some(week)
  {
    WeekLabelRoundTrip(WeekPrefix, week);
  }

  /** The 92 days from 2017-10-01 are exactly October, November and December 2017. */
  lemma RunSpansFourthQuarter()
    ensures StartDate == Ordinal(2017, 10, 1) == 736603
    ensures StartDate + NumberOfDays - 1 == Ordinal(2017, 12, 31) == 736694
    ensures StartDate + NumberOfDays == Ordinal(2018, 1, 1) == 736695
  {
  }

  lemma MulMono(a: int, b: int, n: nat)
    requires a >= b
    ensures a * n >= b * n
  {
    assert a * n - b * n == (a - b) * n;
  }

  lemma DivBelow(i: nat, n: nat, days: nat)
    requires n > 0 && i < n * days
    ensures i / n < days
  {
    var q := i / n;
    assert q * n <= i;
    if q >= days {
      MulMono(q, days, n);
    }
  }

  /** `days` full days at `n` records a day, and one call more. */
  lemma {:induction false} ConstRunRange(s: int, n: nat, days: nat)
    requires n > 0 && days > 0
    ensures var r := Calls(Const(n), Fresh(s), n * days + 1);
      && r.Ok?
      && (forall i :: 0 <= i < n * days ==> s <= r.value.dates[i] <= s + days - 1)
      && r.value.dates[n * days - 1] == s + days - 1
      && r.value.dates[n * days] == s + days
  {
    var total := n * days;
    ConstCapacityDates(s, n, total + 1);
    var dates := Calls(Const(n), Fresh(s), total + 1).value.dates;
    forall i | 0 <= i < total
      ensures s <= dates[i] <= s + days - 1
    {
      DivBelow(i, n, days);
      assert dates[i] == s + i / n;
    }
    assert (days - 1) * n == total - n;
    DivModUnique(total - 1, n, days - 1, n - 1);
    DivModUnique(total, n, days, 0);
    assert dates[total - 1] == s + (total - 1) / n;
    assert dates[total] == s + total / n;
  }

  /** The hard-coded run: 5428 calls of a fresh cursor with 59 records a day all return
      one of the 92 days from the start date on (2017-10-01 to 2017-12-31, by
      RunSpansFourthQuarter), the last of them the 92nd day; one call more would return the
      day after (2018-01-01). The run's parameters come in as arguments so that the solver
      reasons about the calls symbolically rather than evaluating 5429 of them. */
  lemma HardCodedRun(start: int, perDay: nat, days: nat)
    requires start == StartDate && perDay == RecordsPerDay && days == NumberOfDays
    ensures perDay * days == TotalNewRecords == 5428
    ensures var r := Calls(Const(perDay), Fresh(start), perDay * days + 1);
      && r.Ok?
      && (forall i :: 0 <= i < perDay * days ==> start <= r.value.dates[i] <= start + 91)
      && r.value.dates[perDay * days - 1] == start + 91
      && r.value.dates[perDay * days] == start + 92
  {
    ConstRunRange(start, perDay, days);
  }

  lemma {:induction false} TotalConst(n: nat, d: int, days: nat)
    requires n > 0
    ensures Total(Const(n), d, days) == n * days
    decreases days
  {
    if days > 0 {
      TotalConst(n, d + 1, days - 1);
    }
  }

  /** Each of the 92 days of the run is handed out exactly 59 times, one day after the other,
      and the cursor ends on 2017-12-31 with that day full. */
  lemma HardCodedRunFillsEachDay()
    ensures var end := Ordinal(2017, 12, 31);
      Calls(Const(RecordsPerDay), Fresh(StartDate), TotalNewRecords)
        == Ok(Trace(Blocks(Const(RecordsPerDay), StartDate, NumberOfDays), Cursor(end, end, RecordsPerDay)))
  {
    RunSpansFourthQuarter();
    TotalConst(RecordsPerDay, StartDate, NumberOfDays);
    PerDayCapacitySchedule(Const(RecordsPerDay), StartDate, NumberOfDays);
  }

  // ----- The sampling fraction -----

  /** A row survives `df.Half_Quarter != "2017 Q3"`: a null compares as unknown and is
      dropped, as is a third-quarter row. */
  predicate Eligible(halfQuarter: Option<string>) {
    halfQuarter.Some? && halfQuarter.value != "2017 Q3"
  }

  /** `df.filter(df.Half_Quarter != "2017 Q3").count()`: the rows outside the third quarter. */
  function PopulationCount(halfQuarter: seq<Option<string>>): (n: nat)
    ensures n <= |halfQuarter|
    ensures n == 0 <==> forall i :: 0 <= i < |halfQuarter| ==> !Eligible(halfQuarter[i])
    decreases |halfQuarter|
  {
    if halfQuarter == [] then 0
    else (if Eligible(halfQuarter[0]) then 1 else 0) + PopulationCount(halfQuarter[1..])
  }

  /** The positions, from `lo` on, of the rows that survive the filter. */
  ghost function EligibleRows(halfQuarter: seq<Option<string>>, lo: nat): set<nat> {
    set i: nat | lo <= i < |halfQuarter| && Eligible(halfQuarter[i])
  }

  lemma {:induction false} PopulationCountFrom(halfQuarter: seq<Option<string>>, lo: nat)
    requires lo <= |halfQuarter|
    ensures PopulationCount(halfQuarter[lo..]) == |EligibleRows(halfQuarter, lo)|
    decreases |halfQuarter| - lo
  {
    if lo < |halfQuarter| {
      var rest := halfQuarter[lo..];
      assert rest[0] == halfQuarter[lo] && rest[1..] == halfQuarter[lo + 1..];
      PopulationCountFrom(halfQuarter, lo + 1);
      var later := EligibleRows(halfQuarter, lo + 1);
      if Eligible(halfQuarter[lo]) {
        assert EligibleRows(halfQuarter, lo) == {lo} + later;
        assert lo !in later;
      } else {
        assert EligibleRows(halfQuarter, lo) == later;
      }
    } else {
      assert EligibleRows(halfQuarter, lo) == {};
    }
  }

  /** The count is the number of rows whose Half_Quarter is present and not "2017 Q3". */
  lemma PopulationCountIsEligibleRows(halfQuarter: seq<Option<string>>)
    ensures PopulationCount(halfQuarter) == |EligibleRows(halfQuarter, 0)|
  {
    PopulationCountFrom(halfQuarter, 0);
    assert halfQuarter[0..] == halfQuarter;
  }

  /** `total_new_records / df_population.count()`, as an exact ratio: a zero population
      raises ZeroDivisionError; otherwise the fraction times the population is the target,
      and it is at most 1 exactly when the population covers the target. */
  function SamplingFraction(totalNewRecords: nat, populationCount: nat): (r: Result<real>)
    ensures r.Err? <==> populationCount == 0
    ensures r.Err? ==> r.error == ZeroDivisionError
    ensures r.Ok? ==> r.value * populationCount as real == totalNewRecords as real
    ensures r.Ok? ==> (r.value <= 1.0 <==> totalNewRecords <= populationCount)
  {
    if populationCount == 0 then Err(ZeroDivisionError)
    else Ok(totalNewRecords as real / populationCount as real)
  }
}

/** The first-visit date selectors: which months a visit year offers, how a
    selected month is kept or reset, the birth-month options, and the table
    of visit rows `update_visit_inputs` rebuilds whenever the selected
    countries change. */
module VisitDates {
  import opened Prelude
  import opened Calendar
  import opened Sorting

  // ---------------------------------------------------------------------------
  // Month ranges

  /** The first month a visit in `year` may have: the birth month in the birth year. */
  function FirstMonth(year: int, birthYear: int, birthMonth: int): int {
    if year == birthYear then birthMonth else 1
  }

  /** The last month a visit in `year` may have: the current month in the current year. */
  function LastMonth(year: int, today: YearMonth): int {
    if year == today.year then today.month else 12
  }

  /** `get_month_options`, with its four cases: birth year and current year,
      birth year only, current year only, any other year. The options are
      the consecutive months between the first and the last allowed month. */
  function MonthOptions(year: int, birthYear: int, birthMonth: int, today: YearMonth): (r: seq<int>)
    ensures forall m :: m in r <==> FirstMonth(year, birthYear, birthMonth) <= m <= LastMonth(year, today)
    ensures forall i :: 0 <= i < |r| ==> r[i] == FirstMonth(year, birthYear, birthMonth) + i
  {
    if year == birthYear && year == today.year then Range(birthMonth, today.month + 1)
    else if year == birthYear then Range(birthMonth, 13)
    else if year == today.year then Range(1, today.month + 1)
    else Range(1, 13)
  }

  /** A selected month survives when it is offered; otherwise the first
      offered month is taken. */
  function KeepOrFirst(options: seq<int>, selected: int): (r: int)
    requires options != []
    ensures r in options
    ensures selected in options ==> r == selected
    ensures selected !in options ==> r == options[0]
  {
    if selected in options then selected else options[0]
  }

  /** `update_visit_month_options`: the month options for the selected year
      and the month to show. An unset birth year counts as 1990 and an unset
      birth month as January. The source indexes the first option, so the
      range must not be empty. */
  function VisitMonthOptions(selectedYear: int, dobMonth: Option<int>, dobYear: Option<int>,
                             selectedMonth: int, today: YearMonth): (r: (seq<int>, int))
    requires FirstMonth(selectedYear, Or(dobYear, 1990), Or(dobMonth, 1)) <= LastMonth(selectedYear, today)
    ensures forall m :: m in r.0 <==>
              FirstMonth(selectedYear, Or(dobYear, 1990), Or(dobMonth, 1)) <= m <= LastMonth(selectedYear, today)
    ensures r.1 in r.0
    ensures selectedMonth in r.0 ==> r.1 == selectedMonth
    ensures selectedMonth !in r.0 ==> r.1 == FirstMonth(selectedYear, Or(dobYear, 1990), Or(dobMonth, 1))
  {
    var options := MonthOptions(selectedYear, Or(dobYear, 1990), Or(dobMonth, 1), today);
    (options, KeepOrFirst(options, selectedMonth))
  }

  /** `update_dob_month_options`: January up to the current month in the
      current year, all twelve months otherwise. */
  function DobMonthOptions(selectedYear: int, today: YearMonth): (r: seq<int>)
    ensures forall m :: m in r <==> 1 <= m <= LastMonth(selectedYear, today)
  {
    if selectedYear == today.year then Range(1, today.month + 1) else Range(1, 13)
  }

  /** The birth-month options are the visit-month options of someone born
      in January, whatever their birth year. */
  lemma DobOptionsAreVisitOptionsFromJanuary(year: int, birthYear: int, today: YearMonth)
    ensures DobMonthOptions(year, today) == MonthOptions(year, birthYear, 1, today)
  {
    var a := DobMonthOptions(year, today);
    var b := MonthOptions(year, birthYear, 1, today);
    assert |a| == |b|;
    assert forall i :: 0 <= i < |a| ==> a[i] == b[i];
  }

  // ---------------------------------------------------------------------------
  // The visit table

  /** The dictionary-building loops of `update_visit_inputs`. */
  method CollectSelections(ids: seq<Label>, vals: seq<int>) returns (d: map<Label, int>)
    ensures d == LastValues(ids, vals)
  {
    d := map[];
    var n := ZipLength([|ids|, |vals|]);
    var i := 0;
    while i < n
      invariant 0 <= i <= n
      invariant d == LastValuesUpTo(ids, vals, i)
    {
      d := d[ids[i] := vals[i]];
      i := i + 1;
    }
  }

  /** `dict.get(key, default)`. */
  function Get(d: map<Label, int>, key: Label, default: int): int {
    if key in d then d[key] else default
  }

  /** The `(year, month)` a country is sorted by: its selected values, or the
      defaults for a country that has no selectors yet. */
  function VisitDate(years: map<Label, int>, months: map<Label, int>, defaultYear: int, defaultMonth: int, code: Label): YearMonth {
    YearMonth(Get(years, code, defaultYear), Get(months, code, defaultMonth))
  }

  function ByDate(years: map<Label, int>, months: map<Label, int>, defaultYear: int, defaultMonth: int): (Label, Label) -> bool {
    (a, b) => NotAfter(VisitDate(years, months, defaultYear, defaultMonth, a),
                       VisitDate(years, months, defaultYear, defaultMonth, b))
  }

  /** Comparing countries by their visit date is a total preorder, so `sorted` applies. */
  lemma ByDateIsTotalPreorder(years: map<Label, int>, months: map<Label, int>, defaultYear: int, defaultMonth: int)
    ensures TotalPreorder(ByDate(years, months, defaultYear, defaultMonth))
  {
    var le := ByDate(years, months, defaultYear, defaultMonth);
    forall a, b ensures le(a, b) || le(b, a) {
      BeforeTotal(VisitDate(years, months, defaultYear, defaultMonth, a), VisitDate(years, months, defaultYear, defaultMonth, b));
    }
  }

  /** A future year is reset to the current year. */
  function ClampYear(year: int, today: YearMonth): (r: int)
    ensures r <= today.year
    ensures year <= today.year ==> r == year
    ensures year > today.year ==> r == today.year
  {
    if year > today.year then today.year else year
  }

  /** One row of the visit table: the country, its year options and year,
      its month options and month. */
  datatype VisitRow = VisitRow(code: Label, yearOptions: seq<int>, year: int, monthOptions: seq<int>, month: int)

  /** Whether the month list of a country's (clamped) year is non-empty; the
      source indexes its first element. */
  predicate HasMonths(years: map<Label, int>, defaultYear: int, defaultMonth: int, today: YearMonth, code: Label) {
    var y := ClampYear(Get(years, code, defaultYear), today);
    FirstMonth(y, defaultYear, defaultMonth) <= LastMonth(y, today)
  }

  /** The row `update_visit_inputs` builds for one country: the years from the
      birth year to now, the clamped year, its months and a month among them. */
  function RowFor(years: map<Label, int>, months: map<Label, int>, defaultYear: int, defaultMonth: int,
                  today: YearMonth, code: Label): (r: VisitRow)
    requires HasMonths(years, defaultYear, defaultMonth, today, code)
    ensures r.code == code
    ensures forall y :: y in r.yearOptions <==> defaultYear <= y <= today.year
    ensures forall i :: 0 <= i < |r.yearOptions| ==> r.yearOptions[i] == defaultYear + i
    ensures r.year == ClampYear(Get(years, code, defaultYear), today)
    ensures r.year <= today.year
    ensures forall m :: m in r.monthOptions <==>
              FirstMonth(r.year, defaultYear, defaultMonth) <= m <= LastMonth(r.year, today)
    ensures r.month in r.monthOptions
    ensures Get(months, code, defaultMonth) in r.monthOptions ==> r.month == Get(months, code, defaultMonth)
    ensures Get(months, code, defaultMonth) !in r.monthOptions ==> r.month == FirstMonth(r.year, defaultYear, defaultMonth)
  {
    var y := ClampYear(Get(years, code, defaultYear), today);
    var options := MonthOptions(y, defaultYear, defaultMonth, today);
    VisitRow(code, Range(defaultYear, today.year + 1), y, options, KeepOrFirst(options, Get(months, code, defaultMonth)))
  }

  /** The rows for countries listed in display order. */
  function RowsFor(codes: seq<Label>, years: map<Label, int>, months: map<Label, int>, defaultYear: int, defaultMonth: int,
                   today: YearMonth): (rows: seq<VisitRow>)
    requires forall code :: code in codes ==> HasMonths(years, defaultYear, defaultMonth, today, code)
    ensures |rows| == |codes|
    ensures forall i :: 0 <= i < |codes| ==> rows[i] == RowFor(years, months, defaultYear, defaultMonth, today, codes[i])
  {
    seq(|codes|, i requires 0 <= i < |codes| => RowFor(years, months, defaultYear, defaultMonth, today, codes[i]))
  }

  /** The countries in display order: sorted by visit date. */
  function DisplayOrder(selected: seq<Label>, years: map<Label, int>, months: map<Label, int>,
                        defaultYear: int, defaultMonth: int): (sorted: seq<Label>)
    ensures multiset(sorted) == multiset(selected)
    ensures forall i, j :: 0 <= i < j < |sorted| ==>
              NotAfter(VisitDate(years, months, defaultYear, defaultMonth, sorted[i]),
                       VisitDate(years, months, defaultYear, defaultMonth, sorted[j]))
  {
    ByDateIsTotalPreorder(years, months, defaultYear, defaultMonth);
    SortBy(selected, ByDate(years, months, defaultYear, defaultMonth))
  }

  /** The table `update_visit_inputs` shows: a row per selected country, in
      order of visit date. The birth date falls back to January 1990. */
  function VisitRows(selected: seq<Label>, dobMonth: Option<int>, dobYear: Option<int>,
                     visitYears: seq<int>, visitMonths: seq<int>, yearIds: seq<Label>, monthIds: seq<Label>,
                     today: YearMonth): seq<VisitRow>
    requires var years := LastValues(yearIds, visitYears);
             forall code :: code in selected ==> HasMonths(years, Or(dobYear, 1990), Or(dobMonth, 1), today, code)
  {
    var years := LastValues(yearIds, visitYears);
    var months := LastValues(monthIds, visitMonths);
    var sorted := DisplayOrder(selected, years, months, Or(dobYear, 1990), Or(dobMonth, 1));
    assert forall code :: code in sorted ==> code in multiset(selected);
    RowsFor(sorted, years, months, Or(dobYear, 1990), Or(dobMonth, 1), today)
  }

  /** The rows list every selected country once (a permutation of the
      selection), ordered by visit date, earliest first. */
  lemma VisitRowsSortedPermutation(selected: seq<Label>, dobMonth: Option<int>, dobYear: Option<int>,
                                   visitYears: seq<int>, visitMonths: seq<int>, yearIds: seq<Label>, monthIds: seq<Label>,
                                   today: YearMonth)
    requires var years := LastValues(yearIds, visitYears);
             forall code :: code in selected ==> HasMonths(years, Or(dobYear, 1990), Or(dobMonth, 1), today, code)
    ensures var rows := VisitRows(selected, dobMonth, dobYear, visitYears, visitMonths, yearIds, monthIds, today);
            multiset(seq(|rows|, i requires 0 <= i < |rows| => rows[i].code)) == multiset(selected)
    ensures var rows := VisitRows(selected, dobMonth, dobYear, visitYears, visitMonths, yearIds, monthIds, today);
            var years := LastValues(yearIds, visitYears);
            var months := LastValues(monthIds, visitMonths);
            forall i, j :: 0 <= i < j < |rows| ==>
              NotAfter(VisitDate(years, months, Or(dobYear, 1990), Or(dobMonth, 1), rows[i].code),
                       VisitDate(years, months, Or(dobYear, 1990), Or(dobMonth, 1), rows[j].code))
  {
    var years := LastValues(yearIds, visitYears);
    var months := LastValues(monthIds, visitMonths);
    var sorted := DisplayOrder(selected, years, months, Or(dobYear, 1990), Or(dobMonth, 1));
    var rows := VisitRows(selected, dobMonth, dobYear, visitYears, visitMonths, yearIds, monthIds, today);
    assert seq(|rows|, i requires 0 <= i < |rows| => rows[i].code) == sorted;
  }

  /** The row-building loop of `update_visit_inputs`. */
  method BuildRows(sorted: seq<Label>, years: map<Label, int>, months: map<Label, int>, dy: int, dm: int, today: YearMonth)
    returns (rows: seq<VisitRow>)
    requires forall code :: code in sorted ==> HasMonths(years, dy, dm, today, code)
    ensures rows == RowsFor(sorted, years, months, dy, dm, today)
  {
    rows := [];
    var i := 0;
    while i < |sorted|
      invariant 0 <= i <= |sorted|
      invariant |rows| == i
      invariant forall k :: 0 <= k < i ==> rows[k] == RowFor(years, months, dy, dm, today, sorted[k])
    {
      var code := sorted[i];
      var y := Get(years, code, dy);
      var m := Get(months, code, dm);
      var yearOptions := Range(dy, today.year + 1);
      if y > today.year {
        y := today.year;
      }
      assert HasMonths(years, dy, dm, today, code);
      var monthOptions := MonthOptions(y, dy, dm, today);
      if m !in monthOptions {
        m := monthOptions[0];
      }
      rows := rows + [VisitRow(code, yearOptions, y, monthOptions, m)];
      i := i + 1;
    }
  }

  /** `update_visit_inputs`: no rows when nothing is selected, otherwise the
      visit table. */
  method UpdateVisitInputs(selected: seq<Label>, dobMonth: Option<int>, dobYear: Option<int>,
                           visitYears: seq<int>, visitMonths: seq<int>, yearIds: seq<Label>, monthIds: seq<Label>,
                           today: YearMonth)
    returns (rows: seq<VisitRow>)
    requires var years := LastValues(yearIds, visitYears);
             forall code :: code in selected ==> HasMonths(years, Or(dobYear, 1990), Or(dobMonth, 1), today, code)
    ensures rows == VisitRows(selected, dobMonth, dobYear, visitYears, visitMonths, yearIds, monthIds, today)
  {
    if selected == [] {
      return [];
    }
    var dm := Or(dobMonth, 1);
    var dy := Or(dobYear, 1990);
    var years := CollectSelections(yearIds, visitYears);
    var months := CollectSelections(monthIds, visitMonths);
    var sorted := DisplayOrder(selected, years, months, dy, dm);
    assert forall code :: code in sorted ==> code in multiset(selected);
    rows := BuildRows(sorted, years, months, dy, dm, today);
  }
}

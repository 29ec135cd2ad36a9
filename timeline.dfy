/** The numbers `generate_plot` hands to the chart "countries visited by age":
    the selected countries with the age of the first visit, ordered oldest
    visit at the bottom; for each one its zebra band, its green bar from the
    visit to today, the gold residence spans inside that bar, where its flag
    and its name label go; the axis ends, grid lines and ticks; the figure
    height, the bar and flag heights; and the summary percentage.

    Ages are `(year - birth year) + (month - birth month) / 12`, computed
    exactly. Today's date and the set of countries that have a flag image
    are parameters. */
module Timeline {
  import opened Prelude
  import opened Calendar
  import opened Sorting
  import opened Residence
  import opened ChartGeometry
  import opened Axes

  // ---------------------------------------------------------------------------
  // Ages

  /** Age in years at `d` of a person born in month `dob`. */
  function AgeOf(d: YearMonth, dob: YearMonth): real {
    (d.year - dob.year) as real + (d.month - dob.month) as real / 12.0
  }

  /** Whole months from the birth month to `d`. */
  function MonthsSince(dob: YearMonth, d: YearMonth): int {
    MonthNumber(d) - MonthNumber(dob)
  }

  /** An age is a whole number of months divided by twelve. */
  lemma AgeInMonths(d: YearMonth, dob: YearMonth)
    ensures AgeOf(d, dob) * 12.0 == MonthsSince(dob, d) as real
    ensures AgeOf(d, dob) == MonthsSince(dob, d) as real / 12.0
  {
  }

  /** A visit in the birth month has age 0. */
  lemma AgeAtBirth(dob: YearMonth)
    ensures AgeOf(dob, dob) == 0.0
  {
  }

  /** A later month gives a greater age. */
  lemma AgeMonotone(a: YearMonth, b: YearMonth, dob: YearMonth)
    requires ValidMonth(a) && ValidMonth(b)
    ensures Before(a, b) <==> AgeOf(a, dob) < AgeOf(b, dob)
  {
    BeforeIsMonthOrder(a, b);
    AgeInMonths(a, dob);
    AgeInMonths(b, dob);
  }

  // ---------------------------------------------------------------------------
  // The selected visit dates

  /** How many selector pairs `zip` yields from the four selector lists. */
  function VisitZipLength(monthIds: seq<Label>, yearIds: seq<Label>,
                          visitMonths: seq<Option<int>>, visitYears: seq<Option<int>>): (n: nat)
    ensures n <= |monthIds| && n <= |yearIds| && n <= |visitMonths| && n <= |visitYears|
    ensures n == |monthIds| || n == |yearIds| || n == |visitMonths| || n == |visitYears|
  {
    var lengths := [|monthIds|, |yearIds|, |visitMonths|, |visitYears|];
    assert lengths[0] == |monthIds| && lengths[1] == |yearIds|;
    assert lengths[2] == |visitMonths| && lengths[3] == |visitYears|;
    ZipLength(lengths)
  }

  /** The date a pair of selectors stands for: an unset (or zero) month is
      January, an unset year 1990. */
  function SelectedDate(month: Option<int>, year: Option<int>): YearMonth {
    YearMonth(Or(year, 1990), Or(month, 1))
  }

  function SelectedDates(visitMonths: seq<Option<int>>, visitYears: seq<Option<int>>, n: nat): (ds: seq<YearMonth>)
    requires n <= |visitMonths| && n <= |visitYears|
    ensures |ds| == n
  {
    seq(n, j requires 0 <= j < n => SelectedDate(visitMonths[j], visitYears[j]))
  }

  /** `visit_info`: each country code of a month selector mapped to its
      selected date; a later selector for the same code overrides. */
  function VisitInfo(monthIds: seq<Label>, yearIds: seq<Label>,
                     visitMonths: seq<Option<int>>, visitYears: seq<Option<int>>): map<Label, YearMonth>
  {
    var n := VisitZipLength(monthIds, yearIds, visitMonths, visitYears);
    LastValuesUpTo(monthIds, SelectedDates(visitMonths, visitYears, n), n)
  }

  /** The loop that fills `visit_info`. */
  method CollectVisitInfo(monthIds: seq<Label>, yearIds: seq<Label>,
                          visitMonths: seq<Option<int>>, visitYears: seq<Option<int>>)
    returns (info: map<Label, YearMonth>)
    ensures info == VisitInfo(monthIds, yearIds, visitMonths, visitYears)
  {
    var n := VisitZipLength(monthIds, yearIds, visitMonths, visitYears);
    ghost var dates := SelectedDates(visitMonths, visitYears, n);
    info := map[];
    var i := 0;
    while i < n
      invariant 0 <= i <= n
      invariant info == LastValuesUpTo(monthIds, dates, i)
    {
      var code := monthIds[i];
      info := info[code := YearMonth(Or(visitYears[i], 1990), Or(visitMonths[i], 1))];
      i := i + 1;
    }
  }

  /** A visited country. */
  datatype Visit = Visit(code: Label, date: YearMonth, age: real)

  /** `visit_info.get(code, …)` with the default January 1990, and the age. */
  function VisitOf(info: map<Label, YearMonth>, code: Label, dob: YearMonth): Visit {
    var d := if code in info then info[code] else YearMonth(1990, 1);
    Visit(code, d, AgeOf(d, dob))
  }

  function Visits(selected: seq<Label>, info: map<Label, YearMonth>, dob: YearMonth): (vs: seq<Visit>)
    ensures |vs| == |selected|
  {
    seq(|selected|, i requires 0 <= i < |selected| => VisitOf(info, selected[i], dob))
  }

  /** The visit of a selected country is dated by the last selector pair
      carrying its code, or January 1990 when no selector carries it; its age
      is measured from the birth month. */
  lemma SelectedVisitDate(monthIds: seq<Label>, yearIds: seq<Label>,
                          visitMonths: seq<Option<int>>, visitYears: seq<Option<int>>,
                          selected: seq<Label>, dob: YearMonth, i: nat)
    requires i < |selected|
    ensures var n := VisitZipLength(monthIds, yearIds, visitMonths, visitYears);
            var v := Visits(selected, VisitInfo(monthIds, yearIds, visitMonths, visitYears), dob)[i];
            && v.code == selected[i]
            && v.age == AgeOf(v.date, dob)
            && (forall j :: 0 <= j < n && monthIds[j] == selected[i] && LastOccurrence(monthIds, j, n) ==>
                  v.date == SelectedDate(visitMonths[j], visitYears[j]))
            && ((forall j :: 0 <= j < n ==> monthIds[j] != selected[i]) ==> v.date == YearMonth(1990, 1))
  {
    var n := VisitZipLength(monthIds, yearIds, visitMonths, visitYears);
    LastValuesMeaning(monthIds, SelectedDates(visitMonths, visitYears, n), n);
  }

  /** The loop that builds `visited`. */
  method BuildVisited(selected: seq<Label>, info: map<Label, YearMonth>, dob: YearMonth)
    returns (visited: seq<Visit>)
    ensures visited == Visits(selected, info, dob)
  {
    visited := [];
    var i := 0;
    while i < |selected|
      invariant 0 <= i <= |selected|
      invariant visited == Visits(selected, info, dob)[..i]
    {
      var code := selected[i];
      var d := if code in info then info[code] else YearMonth(1990, 1);
      visited := visited + [Visit(code, d, AgeOf(d, dob))];
      i := i + 1;
    }
  }

  // ---------------------------------------------------------------------------
  // Chart order

  /** Compares visits by age. */
  function ByAge(): (Visit, Visit) -> bool {
    (a: Visit, b: Visit) => a.age <= b.age
  }

  lemma ByAgeIsTotalPreorder()
    ensures TotalPreorder(ByAge())
  {
  }

  /** `reversed(sorted(visited, key=age))`: the chart's rows, top to bottom. */
  function ChartOrder(visited: seq<Visit>): (order: seq<Visit>)
    ensures |order| == |visited|
  {
    ByAgeIsTotalPreorder();
    var sorted := SortBy(visited, ByAge());
    assert |multiset(sorted)| == |multiset(visited)|;
    Reverse(sorted)
  }

  /** The rows are the visits, each once, the oldest age first. */
  lemma ChartOrderSorted(visited: seq<Visit>)
    ensures multiset(ChartOrder(visited)) == multiset(visited)
    ensures forall i, j :: 0 <= i < j < |visited| ==> ChartOrder(visited)[i].age >= ChartOrder(visited)[j].age
  {
    ByAgeIsTotalPreorder();
    var le := ByAge();
    var sorted := SortBy(visited, le);
    ReversePermutes(sorted);
    var order := ChartOrder(visited);
    assert order == Reverse(sorted);
    var n := |visited|;
    forall i, j | 0 <= i < j < n
      ensures order[i].age >= order[j].age
    {
      var a, b := n - 1 - j, n - 1 - i;
      assert le(sorted[a], sorted[b]);
    }
  }

  /** Python's `max(ages)`. */
  function MaxAge(vs: seq<Visit>): (m: real)
    requires vs != []
    ensures forall k :: 0 <= k < |vs| ==> vs[k].age <= m
    ensures exists k :: 0 <= k < |vs| && vs[k].age == m
  {
    if |vs| == 1 then vs[0].age
    else
      var rest := MaxAge(vs[1..]);
      var k :| 1 <= k < |vs| && vs[k].age == rest;
      assert forall k :: 1 <= k < |vs| ==> vs[k] == vs[1..][k - 1];
      Max(vs[0].age, rest)
  }

  /** On the chart order the oldest visit is the top row. */
  lemma TopRowIsOldest(visited: seq<Visit>)
    requires visited != []
    ensures MaxAge(ChartOrder(visited)) == ChartOrder(visited)[0].age
  {
    ChartOrderSorted(visited);
  }

  // ---------------------------------------------------------------------------
  // Residence periods

  /** A residence row turned into ages. */
  datatype ResidenceAge = ResidenceAge(code: Label, fromAge: real, untilAge: real)

  /** Every row with a country has all four date fields: the age arithmetic
      fails on an unset one. */
  predicate DatedWhenChosen(rows: seq<Period>) {
    forall i :: 0 <= i < |rows| && Chosen(rows[i].country) ==> HasDates(rows[i])
  }

  function AgesOf(p: Period, dob: YearMonth): ResidenceAge
    requires Chosen(p.country) && HasDates(p)
  {
    ResidenceAge(p.country.value, AgeOf(From(p), dob), AgeOf(Until(p), dob))
  }

  /** `residence_periods`: the rows with a country, in order, as ages. */
  function ResidenceAges(rows: seq<Period>, dob: YearMonth): seq<ResidenceAge>
    requires DatedWhenChosen(rows)
  {
    if rows == [] then []
    else
      var k := |rows| - 1;
      assert DatedWhenChosen(rows[..k]);
      ResidenceAges(rows[..k], dob) + (if Chosen(rows[k].country) then [AgesOf(rows[k], dob)] else [])
  }

  /** The residence ages are exactly those of the rows with a country. */
  lemma {:induction false} ResidenceAgesMembers(rows: seq<Period>, dob: YearMonth)
    requires DatedWhenChosen(rows)
    ensures forall ra :: ra in ResidenceAges(rows, dob) <==>
              exists j :: 0 <= j < |rows| && Chosen(rows[j].country) && ra == AgesOf(rows[j], dob)
  {
    if rows != [] {
      var k := |rows| - 1;
      ResidenceAgesMembers(rows[..k], dob);
      assert forall j :: 0 <= j < k ==> rows[..k][j] == rows[j];
    }
  }

  /** The loop that builds `residence_periods`, skipping rows without a country. */
  method CollectResidenceAges(rows: seq<Period>, dob: YearMonth) returns (periods: seq<ResidenceAge>)
    requires DatedWhenChosen(rows)
    ensures periods == ResidenceAges(rows, dob)
  {
    periods := [];
    var i := 0;
    while i < |rows|
      invariant 0 <= i <= |rows|
      invariant DatedWhenChosen(rows[..i])
      invariant periods == ResidenceAges(rows[..i], dob)
    {
      assert rows[..i + 1][..i] == rows[..i];
      var row := rows[i];
      if Chosen(row.country) {
        periods := periods + [AgesOf(row, dob)];
      }
      i := i + 1;
    }
    assert rows[..|rows|] == rows;
  }

  // ---------------------------------------------------------------------------
  // Spans drawn in a row

  /** A horizontal stretch of a row, in years of age. */
  datatype Span = Span(start: real, end: real)

  /** A residence period clipped to the bar `[barStart, barEnd]`. */
  function Clip(p: ResidenceAge, barStart: real, barEnd: real): Span {
    Span(Max(p.fromAge, barStart), Min(p.untilAge, barEnd))
  }

  /** The gold spans of the row of `code`: its residence periods clipped to
      the bar, those of positive length, in order. */
  function SpansFor(code: Label, periods: seq<ResidenceAge>, barStart: real, barEnd: real): (spans: seq<Span>)
    ensures forall k :: 0 <= k < |spans| ==> barStart <= spans[k].start < spans[k].end <= barEnd
  {
    if periods == [] then []
    else
      var k := |periods| - 1;
      var s := Clip(periods[k], barStart, barEnd);
      SpansFor(code, periods[..k], barStart, barEnd)
        + (if periods[k].code == code && s.end > s.start then [s] else [])
  }

  /** A span is drawn exactly for each period of the row's country whose
      clip to the bar has positive length. */
  lemma {:induction false} SpansForMembers(code: Label, periods: seq<ResidenceAge>, barStart: real, barEnd: real)
    ensures forall sp :: sp in SpansFor(code, periods, barStart, barEnd) <==>
              exists j :: 0 <= j < |periods| && periods[j].code == code
                          && sp == Clip(periods[j], barStart, barEnd) && sp.start < sp.end
  {
    if periods != [] {
      var k := |periods| - 1;
      SpansForMembers(code, periods[..k], barStart, barEnd);
      assert forall j :: 0 <= j < k ==> periods[..k][j] == periods[j];
    }
  }

  /** The inner loop over `residence_periods` for one row. */
  method RowSpans(code: Label, periods: seq<ResidenceAge>, barStart: real, barEnd: real) returns (spans: seq<Span>)
    ensures spans == SpansFor(code, periods, barStart, barEnd)
  {
    spans := [];
    var j := 0;
    while j < |periods|
      invariant 0 <= j <= |periods|
      invariant spans == SpansFor(code, periods[..j], barStart, barEnd)
    {
      assert periods[..j + 1][..j] == periods[..j];
      var period := periods[j];
      if period.code == code {
        var resStart := Max(period.fromAge, barStart);
        var resEnd := Min(period.untilAge, barEnd);
        if resEnd > resStart {
          spans := spans + [Span(resStart, resEnd)];
        }
      }
      j := j + 1;
    }
    assert periods[..|periods|] == periods;
  }

  // ---------------------------------------------------------------------------
  // Rows

  /** Everything drawn in chart row `i` (counted from the top). */
  datatype ChartRow = ChartRow(
    visit: Visit,
    block: int,
    bar: Span,
    spans: seq<Span>,
    flag: Option<FlagPlacement>,
    annotation: LabelPlacement)

  function RowAt(order: seq<Visit>, i: nat, periods: seq<ResidenceAge>, currentAge: real,
                 xMax: real, flags: set<Label>): ChartRow
    requires i < |order|
  {
    var v := order[i];
    ChartRow(v, Block(|order|, i), Span(v.age, currentAge),
             SpansFor(v.code, periods, v.age, currentAge),
             if v.code in flags then Some(PlaceFlag(v.age, xMax)) else None,
             PlaceLabel(v.age, xMax))
  }

  function ChartRows(order: seq<Visit>, periods: seq<ResidenceAge>, currentAge: real,
                     xMax: real, flags: set<Label>): (rows: seq<ChartRow>)
    ensures |rows| == |order|
  {
    seq(|order|, i requires 0 <= i < |order| => RowAt(order, i, periods, currentAge, xMax, flags))
  }

  /** The per-row loops of `generate_plot` (bars and gold spans, flags, name
      labels), gathered into one pass. */
  method BuildChartRows(order: seq<Visit>, periods: seq<ResidenceAge>, currentAge: real,
                        xMax: real, flags: set<Label>) returns (rows: seq<ChartRow>)
    ensures rows == ChartRows(order, periods, currentAge, xMax, flags)
  {
    rows := [];
    var i := 0;
    while i < |order|
      invariant 0 <= i <= |order|
      invariant rows == ChartRows(order, periods, currentAge, xMax, flags)[..i]
    {
      var v := order[i];
      var spans := RowSpans(v.code, periods, v.age, currentAge);
      var flag := if v.code in flags then Some(PlaceFlag(v.age, xMax)) else None;
      rows := rows + [ChartRow(v, Block(|order|, i), Span(v.age, currentAge), spans, flag, PlaceLabel(v.age, xMax))];
      i := i + 1;
    }
  }

  function RowVisits(rows: seq<ChartRow>): (vs: seq<Visit>)
    ensures |vs| == |rows|
  {
    seq(|rows|, i requires 0 <= i < |rows| => rows[i].visit)
  }

  /** Row `i` shows visit `i` of the order, in its zebra band, with its bar
      from the visit to today and a flag when one exists. */
  lemma RowsFollowOrder(order: seq<Visit>, periods: seq<ResidenceAge>, currentAge: real,
                        xMax: real, flags: set<Label>)
    ensures var rows := ChartRows(order, periods, currentAge, xMax, flags);
            && RowVisits(rows) == order
            && (forall i :: 0 <= i < |rows| ==>
                  && rows[i].block == Block(|order|, i)
                  && rows[i].bar == Span(order[i].age, currentAge)
                  && (rows[i].flag.Some? <==> order[i].code in flags))
  {
    var rows := ChartRows(order, periods, currentAge, xMax, flags);
    assert forall i :: 0 <= i < |rows| ==> RowVisits(rows)[i] == order[i];
  }

  // ---------------------------------------------------------------------------
  // The whole chart

  datatype Layout = Layout(
    rows: seq<ChartRow>,
    currentAge: real,
    xAxisMax: real,
    chartHeight: int,
    barHeight: real,
    flagHeight: real,
    gridLines: seq<GridLine>,
    xTicks: seq<int>,
    yTickVals: seq<real>,
    yTickText: seq<int>,
    percent: real)

  /** Either the "please select a country" message or a chart. */
  datatype Plot = NothingSelected | Chart(layout: Layout)

  /** What drawing a chart needs of its inputs: a real birth date
      (`datetime.date`), all dates of every residence row with a country,
      and an age for which the tick range is not empty. */
  predicate CanDraw(dob: YearMonth, residenceRows: seq<Period>, today: YearMonth) {
    && 1 <= dob.month <= 12 && 1 <= dob.year <= 9999
    && DatedWhenChosen(residenceRows)
    && TickEnd(MonthsSince(dob, today)) >= 0
  }

  function LayoutFor(dob: YearMonth, selected: seq<Label>, info: map<Label, YearMonth>,
                     residenceRows: seq<Period>, flags: set<Label>, today: YearMonth): Layout
    requires selected != [] && CanDraw(dob, residenceRows, today)
  {
    var order := ChartOrder(Visits(selected, info, dob));
    var n := |order|;
    var months := MonthsSince(dob, today);
    var currentAge := AgeOf(today, dob);
    var xMax := XAxisMax(currentAge, MaxAge(order));
    Layout(ChartRows(order, ResidenceAges(residenceRows, dob), currentAge, xMax, flags),
           currentAge, xMax, ChartHeight(n), BarHeight(n), FlagHeight(n),
           GridLines(months), XTickValues(months), YTickVals(n), YTickText(n),
           Percent(n, currentAge))
  }

  function PlotFor(dob: YearMonth, selected: seq<Label>,
                   monthIds: seq<Label>, yearIds: seq<Label>,
                   visitMonths: seq<Option<int>>, visitYears: seq<Option<int>>,
                   residenceRows: seq<Period>, flags: set<Label>, today: YearMonth): Plot
    requires selected != [] ==> CanDraw(dob, residenceRows, today)
  {
    if selected == [] then NothingSelected
    else Chart(LayoutFor(dob, selected, VisitInfo(monthIds, yearIds, visitMonths, visitYears),
                         residenceRows, flags, today))
  }

  /** `generate_plot`, the figure reduced to the numbers passed to it. */
  method GeneratePlot(dob: YearMonth, selected: seq<Label>,
                      monthIds: seq<Label>, yearIds: seq<Label>,
                      visitMonths: seq<Option<int>>, visitYears: seq<Option<int>>,
                      residenceRows: seq<Period>, flags: set<Label>, today: YearMonth)
    returns (plot: Plot)
    requires selected != [] ==> CanDraw(dob, residenceRows, today)
    ensures plot.NothingSelected? <==> selected == []
    ensures plot == PlotFor(dob, selected, monthIds, yearIds, visitMonths, visitYears, residenceRows, flags, today)
  {
    if selected == [] {
      return NothingSelected;
    }
    var info := CollectVisitInfo(monthIds, yearIds, visitMonths, visitYears);
    var visited := BuildVisited(selected, info, dob);
    var order := ChartOrder(visited);
    var n := |order|;
    var months := MonthsSince(dob, today);
    var currentAge := AgeOf(today, dob);
    var xMax := XAxisMax(currentAge, MaxAge(order));
    var periods := CollectResidenceAges(residenceRows, dob);
    var rows := BuildChartRows(order, periods, currentAge, xMax, flags);
    var xTicks := XTicks(months);
    plot := Chart(Layout(rows, currentAge, xMax, ChartHeight(n), BarHeight(n), FlagHeight(n),
                         GridLines(months), xTicks, YTickVals(n), YTickText(n),
                         Percent(n, currentAge)));
  }

  // ---------------------------------------------------------------------------
  // Properties of the chart

  /** The chart shows every selected visit once, the oldest age at the top,
      and each row's zebra band, bar and flag come from its own visit. */
  lemma ChartShowsEachVisitOnce(dob: YearMonth, selected: seq<Label>, info: map<Label, YearMonth>,
                                residenceRows: seq<Period>, flags: set<Label>, today: YearMonth)
    requires selected != [] && CanDraw(dob, residenceRows, today)
    ensures var l := LayoutFor(dob, selected, info, residenceRows, flags, today);
            && multiset(RowVisits(l.rows)) == multiset(Visits(selected, info, dob))
            && (forall i, j :: 0 <= i < j < |l.rows| ==> l.rows[i].visit.age >= l.rows[j].visit.age)
            && (forall i :: 0 <= i < |l.rows| ==>
                  && l.rows[i].block == Block(|selected|, i)
                  && l.rows[i].bar == Span(l.rows[i].visit.age, l.currentAge)
                  && (l.rows[i].flag.Some? <==> l.rows[i].visit.code in flags))
  {
    var visited := Visits(selected, info, dob);
    var order := ChartOrder(visited);
    ChartOrderSorted(visited);
    var l := LayoutFor(dob, selected, info, residenceRows, flags, today);
    var periods := ResidenceAges(residenceRows, dob);
    assert l.rows == ChartRows(order, periods, l.currentAge, l.xAxisMax, flags);
    RowsFollowOrder(order, periods, l.currentAge, l.xAxisMax, flags);
  }

  /** The gold spans of a row lie inside its green bar, and are exactly the
      clipped residence periods of that row's country with positive length. */
  lemma SpansInsideBars(dob: YearMonth, selected: seq<Label>, info: map<Label, YearMonth>,
                        residenceRows: seq<Period>, flags: set<Label>, today: YearMonth, i: nat)
    requires selected != [] && CanDraw(dob, residenceRows, today)
    requires i < |selected|
    ensures var l := LayoutFor(dob, selected, info, residenceRows, flags, today);
            var row := l.rows[i];
            && (forall sp :: sp in row.spans ==> row.bar.start <= sp.start < sp.end <= row.bar.end)
            && (forall sp :: sp in row.spans <==>
                  exists j :: 0 <= j < |residenceRows| && Chosen(residenceRows[j].country)
                              && residenceRows[j].country.value == row.visit.code
                              && sp == Clip(AgesOf(residenceRows[j], dob), row.bar.start, row.bar.end)
                              && sp.start < sp.end)
  {
    var l := LayoutFor(dob, selected, info, residenceRows, flags, today);
    var row := l.rows[i];
    var periods := ResidenceAges(residenceRows, dob);
    SpansForMembers(row.visit.code, periods, row.bar.start, row.bar.end);
    ResidenceAgesMembers(residenceRows, dob);
    forall sp
      ensures sp in row.spans <==>
                exists j :: 0 <= j < |residenceRows| && Chosen(residenceRows[j].country)
                            && residenceRows[j].country.value == row.visit.code
                            && sp == Clip(AgesOf(residenceRows[j], dob), row.bar.start, row.bar.end)
                            && sp.start < sp.end
    {
      if sp in row.spans {
        var k :| 0 <= k < |periods| && periods[k].code == row.visit.code
                 && sp == Clip(periods[k], row.bar.start, row.bar.end) && sp.start < sp.end;
        assert periods[k] in periods;
      }
      if exists j :: 0 <= j < |residenceRows| && Chosen(residenceRows[j].country)
                     && residenceRows[j].country.value == row.visit.code
                     && sp == Clip(AgesOf(residenceRows[j], dob), row.bar.start, row.bar.end)
                     && sp.start < sp.end {
        var j :| 0 <= j < |residenceRows| && Chosen(residenceRows[j].country)
                 && residenceRows[j].country.value == row.visit.code
                 && sp == Clip(AgesOf(residenceRows[j], dob), row.bar.start, row.bar.end)
                 && sp.start < sp.end;
        var ra := AgesOf(residenceRows[j], dob);
        assert ra in periods;
        var k :| 0 <= k < |periods| && periods[k] == ra;
      }
    }
  }

  /** The age axis reaches at least a year past today's age and past every
      visit, and every age tick is at most today's age. */
  lemma AxisCoversChart(dob: YearMonth, selected: seq<Label>, info: map<Label, YearMonth>,
                        residenceRows: seq<Period>, flags: set<Label>, today: YearMonth)
    requires selected != [] && CanDraw(dob, residenceRows, today)
    ensures var l := LayoutFor(dob, selected, info, residenceRows, flags, today);
            && l.xAxisMax >= l.currentAge + 1.0
            && (forall i :: 0 <= i < |l.rows| ==> l.rows[i].visit.age + 1.0 <= l.xAxisMax)
            && (forall v :: v in l.xTicks ==> v as real <= l.currentAge)
            && l.currentAge * 12.0 == MonthsSince(dob, today) as real
  {
    var l := LayoutFor(dob, selected, info, residenceRows, flags, today);
    var months := MonthsSince(dob, today);
    AgeInMonths(today, dob);
    XTicksIncreasing(months);
    forall v | v in l.xTicks
      ensures v as real <= l.currentAge
    {
      assert 12 * v <= months;
      assert (12 * v) as real <= months as real;
    }
  }
}

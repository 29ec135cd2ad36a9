# Countries visited by age — a Dafny model of the timeline app's logic

The application is a Dash web page. A person gives their birth month and
year, picks the countries they have visited and the month of each first
visit, and may list the periods they lived in a country. It then draws a
horizontal bar chart: one row per country, a green bar from the age of the
first visit to today's age, gold spans for residence periods, a flag and a
name label per row, and a summary percentage.

This project models the logic inside the callbacks, lifted out of the widget
code:

- `prelude.dfy` (`Prelude`): the widgets' `None` as `Option`, Python's
  `x or d`, `range(lo, hi)`, and `dict(zip(keys, values))` with later pairs
  overriding earlier ones.
- `calendar.dfy` (`Calendar`): `(year, month)` pairs compared as Python
  tuples, and the half-open overlap test between two periods.
- `sorting.dfy` (`Sorting`): Python's `sorted(..., key=...)` as a stable
  insertion sort under a total preorder, and `reversed`.
- `residence.dfy` (`Residence`): `autocorrect_from_until`, and the list
  logic of `update_residence_periods`. That logic removes a row, supplies a
  default row, appends a chained row, and cuts the table at the first
  invalid row. It runs over the five parallel lists, and its specification
  is a function on the zipped rows.
- `option_filter.dfy` (`OptionFilter`): `restrict_until_options` and
  `restrict_from_options`. Each finds the edited row, collects the other
  rows' periods, and walks the candidate years and months, keeping those
  that overlap no other row.
- `visit_dates.dfy` (`VisitDates`): the month ranges of
  `update_visit_month_options` and `update_dob_month_options`, and the
  visit table of `update_visit_inputs`, sorted by visit date.
- `chart_geometry.dfy` (`ChartGeometry`): the layout numbers of
  `generate_plot`. These are the figure height, bar and flag heights in data
  units, zebra bands, the end of the age axis, flag and label placement, and
  the summary percentage.
- `axes.dfy` (`Axes`): the grid lines, the age ticks and the country-count
  ticks. Today's age is always a whole number of months divided by twelve,
  so `int`, `round` and `% 1` on it are computed exactly on the months.
- `timeline.dfy` (`Timeline`): `generate_plot` itself, reduced to the
  numbers it hands to the figure. It computes the visit dates and ages, the
  chart order, each row's bar, gold spans, flag and label, and the whole
  layout.

Today's date is a parameter everywhere. Ages are Dafny `real`s, which are
exact rationals. A country is identified by its label, an opaque string.

## Model

| member | source | states |
|---|---|---|
| `Prelude.Or` | countryGen_dash.py:189-190 | `x or d` on an optional int falls back to the default exactly when the value is unset or zero, so a non-zero default such as 1 or 1990 never yields 0 |
| `Prelude.ZipLength` | countryGen_dash.py:197 | `zip` yields as many tuples as the shortest list has: no more than any list, exactly as many as one of them, none when there are no lists |
| `Prelude.LastValuesMeaning` | countryGen_dash.py:196-205 | the dict built from zipped ids and values has exactly the zipped ids as keys, each holding the value of its last occurrence |
| `Calendar.BeforeIsMonthOrder` | countryGen_dash.py:1005-1007 | for real months, tuple order on `(year, month)` is the order of consecutive month numbers |
| `Calendar.BeforeTotal` | countryGen_dash.py:1007-1010 | tuple order is a strict total order: irreflexive, asymmetric and total, so exactly one of `<`, `==`, `>` holds |
| `Calendar.OverlapsSymmetric` | countryGen_dash.py:891 | the overlap test gives the same answer with the two periods swapped |
| `Calendar.TouchingDoesNotOverlap` | countryGen_dash.py:891 | a period ending where another starts does not overlap it (half-open) |
| `Calendar.OverlapsIffSharedMonth` | countryGen_dash.py:891 | for non-empty periods the test holds exactly when some month lies in both |
| `Sorting.SortBy` | countryGen_dash.py:214 | the result is ordered by the key and is a permutation of the input |
| `Sorting.InsertSorted` | countryGen_dash.py:214 | inserting into an ordered list keeps it ordered |
| `Sorting.Reverse` | countryGen_dash.py:340 | element `k` of the result is element `n-1-k` of the input |
| `Sorting.ReversePermutes` | countryGen_dash.py:340 | reversing is a permutation |
| `Residence.Autocorrect` | countryGen_dash.py:998-1011 | a row with an unset date field is unchanged; an until before from moves both endpoints to until; otherwise unchanged; the result always has from <= until |
| `Residence.AutocorrectIdempotent` | countryGen_dash.py:998-1011 | correcting twice equals correcting once |
| `Residence.InvertedIsTupleOrder` | countryGen_dash.py:802 | on a dated row the truncation loop's test is "until before from" in tuple order |
| `Residence.AutocorrectedRowIsKept` | countryGen_dash.py:800-807 | a corrected dated row with a country passes the truncation loop |
| `Residence.TruncationIsFirstInvalidCut` | countryGen_dash.py:798-813 | the result is a prefix, row 0 is kept, every kept later row has a country and is not inverted, and the first dropped row fails |
| `Residence.CutUnique` | countryGen_dash.py:798-807 | those facts determine where the table is cut |
| `Residence.TruncationIdempotent` | countryGen_dash.py:798-813 | truncating a truncated table changes nothing |
| `Residence.WithoutIndex` | countryGen_dash.py:759-765 | removing an index in range drops exactly that position and keeps the rest in order; an index out of range changes nothing |
| `Residence.FirstUnused` | countryGen_dash.py:782-783 | the first option not used by any row, or none exactly when all are used |
| `Residence.EmptyTableGetsDefault` | countryGen_dash.py:766-777 | when no row is added, an empty table gets exactly one row: first option, birth month to today |
| `Residence.AddAppendsChainedRow` | countryGen_dash.py:778-796 | "add" on a visible section appends one row from the previous last until (or the birth month) to today; its country is the first option no row uses, else the first option, else none |
| `Residence.ResolvedMayOverlap` | countryGen_dash.py:797-806 | the resolver only truncates: two well-ordered overlapping rows are both shown, and an inverted first row is shown too |
| `Residence.EmptyTableAddGetsDefaultAndChainedRow` | countryGen_dash.py:766-796 | "add" on an empty table gives the default row followed by a row from today to today, which survives truncation exactly when it has a country |
| `Residence.ResolvedShape` | countryGen_dash.py:758-813 | the rendered table is never empty, is a prefix of the prepared table, keeps its first row, and every later row has a country and from <= until |
| `Residence.TruncateAtFirstInvalid` | countryGen_dash.py:798-813 | the `last_valid` loop and the cut leave five equally long lists whose rows are the truncated table |
| `Residence.UpdateResidencePeriods` | countryGen_dash.py:743-813 | the five lists, rebound step by step, are the resolved table |
| `OptionFilter.FirstMatchFrom` | countryGen_dash.py:869-872 | the index found is the first matching row, or none when no row matches |
| `OptionFilter.FindRow` | countryGen_dash.py:868-872 | the `this_idx` loop returns that first match |
| `OptionFilter.FromLookupIgnoresFromFields` | countryGen_dash.py:944-948 | the from-side lookup finds the same row whatever any row's from fields are, so of two rows with the same country and until it never picks the later |
| `OptionFilter.OtherIntervalsMembers` | countryGen_dash.py:877-881 | the other periods are exactly those of rows other than the edited one that have a from-year and an until-year |
| `OptionFilter.CollectOtherPeriods` | countryGen_dash.py:877-881 | the `other_periods` loop builds that list |
| `OptionFilter.AnyOverlap` | countryGen_dash.py:889-893 | the inner loop reports an overlap exactly when some other period overlaps the candidate |
| `OptionFilter.OfferedAmongMembers` | countryGen_dash.py:887-898 | a month is offered for a year exactly when it is tried and its candidate is offered |
| `OptionFilter.YearOfferedMeaning` | countryGen_dash.py:894-896 | a year is offered exactly when one of its tried months is |
| `OptionFilter.MonthsListedMeaning` | countryGen_dash.py:897-898 | months are listed only for the pivot year and the current value's year, and are then the offered ones |
| `OptionFilter.YearsWhereMember` | countryGen_dash.py:886-896 | a year is kept by the candidate-year loop exactly when it lies in the scanned range and passes the year test |
| `OptionFilter.YearsWhereIncreasing` | countryGen_dash.py:886-896 | the candidate-year loop keeps its years in strictly increasing order |
| `OptionFilter.YearsBelowMembers` | countryGen_dash.py:886-896 | the offered years are the candidate years with an offered month |
| `OptionFilter.YearsBelowIncreasing` | countryGen_dash.py:895-896 | each offered year is listed once, in increasing order |
| `OptionFilter.MonthsBelowMembers` | countryGen_dash.py:886-898 | the listed months are those listed for some candidate year |
| `OptionFilter.ScanMonths` | countryGen_dash.py:887-898 | one pass of the month loop appends the year once if it is offered, and its listed months |
| `OptionFilter.ScanCandidates` | countryGen_dash.py:886-898 | the nested loops produce exactly the offered years and listed months |
| `OptionFilter.OfferedAvoidsCountedRows` | countryGen_dash.py:889-894 | an offered candidate is the row's current value or overlaps no other counted row |
| `OptionFilter.RestrictUntilOptions` | countryGen_dash.py:850-906 | the until options are the walk's results with the from-year and from-month as fallbacks, and both lists are never empty |
| `OptionFilter.UntilYearsBounded` | countryGen_dash.py:855-857 | offered until-years lie between the from-year and the current year |
| `OptionFilter.OfferedUntilYearsAvoidOtherRows` | countryGen_dash.py:886-896 | each offered until-year has a month giving a period that overlaps no other row, or it is the current until value |
| `OptionFilter.RestrictFromOptions` | countryGen_dash.py:923-982 | the from options are the walk's results with the birth year and birth month as fallbacks, and both lists are never empty |
| `OptionFilter.FromYearsBounded` | countryGen_dash.py:929-931 | offered from-years lie between the birth year and the until-year |
| `OptionFilter.OfferedFromYearsAvoidOtherRows` | countryGen_dash.py:962-972 | each offered from-year has a month giving a period that overlaps no other row, or it is the current from value |
| `VisitDates.MonthOptions` | countryGen_dash.py:234-246 | the options are the consecutive months from the birth month (in the birth year, else January) to the current month (in the current year, else December) |
| `VisitDates.KeepOrFirst` | countryGen_dash.py:249-251 | the month shown is an option: the selected one when offered, else the first |
| `VisitDates.VisitMonthOptions` | countryGen_dash.py:285-302 | month options for the selected year with birth date defaults 1990 and January, and the shown month is among them |
| `VisitDates.DobMonthOptions` | countryGen_dash.py:615-622 | birth-month options are January to the current month in the current year, else all twelve |
| `VisitDates.DobOptionsAreVisitOptionsFromJanuary` | countryGen_dash.py:615-622 | they equal the visit-month options of someone born in January |
| `VisitDates.CollectSelections` | countryGen_dash.py:194-205 | the dictionary loops build `dict(zip(ids, values))` |
| `VisitDates.ByDateIsTotalPreorder` | countryGen_dash.py:207-214 | comparing countries by `(year, month)` is a total preorder |
| `VisitDates.ClampYear` | countryGen_dash.py:231-232 | a future year becomes the current year; others are unchanged |
| `VisitDates.RowFor` | countryGen_dash.py:224-251 | a row offers the years from the birth year to now in increasing order, the selected year capped at the current year, that year's months, and the selected month when offered, else the first offered month |
| `VisitDates.DisplayOrder` | countryGen_dash.py:207-214 | the countries are a permutation of the selection, ordered by visit date |
| `VisitDates.VisitRowsSortedPermutation` | countryGen_dash.py:185-251 | the table lists every selected country once, earliest visit first |
| `VisitDates.BuildRows` | countryGen_dash.py:221-252 | the row loop builds one row per country in display order |
| `VisitDates.UpdateVisitInputs` | countryGen_dash.py:185-274 | no rows without a selection, otherwise the sorted visit table |
| `ChartGeometry.ChartHeight` | countryGen_dash.py:352-354 | the height is 600 pixels or 64 per country, whichever is larger |
| `ChartGeometry.ChartHeightMonotone` | countryGen_dash.py:354 | more countries never make the chart shorter |
| `ChartGeometry.AtLeastSlotPixelsPerRow` | countryGen_dash.py:355 | each row gets at least 64 pixels |
| `ChartGeometry.BarAndFlagHeights` | countryGen_dash.py:355-359 | the margin is one pixel, and 0 < flag height < bar height < 1 row |
| `ChartGeometry.Block` | countryGen_dash.py:386 | the zebra band is 0 or 1 |
| `ChartGeometry.ZebraBands` | countryGen_dash.py:386 | the bottom row is in band 0, a row shares its band with its neighbour inside each group of five counted from the bottom, and rows five apart are in different bands |
| `ChartGeometry.Padding` | countryGen_dash.py:350 | the padding is one year up to age 5, a fifth of the age between ages 5 and 10, and two years from age 10 |
| `ChartGeometry.XAxisMax` | countryGen_dash.py:349-350 | the axis ends past the later of today's age and the oldest visit by one year up to age 5, a fifth of the age from 5 to 10, and two years from age 10 |
| `ChartGeometry.PlaceFlag` | countryGen_dash.py:424-431 | a flag starts at the visit age when it fits before the axis end; otherwise it is centred on the visit age, or half a flag inside the right end when the age is that close to it, or half a flag inside the left end when the age is that close to it and the axis is at least a flag wide |
| `ChartGeometry.PlaceLabel` | countryGen_dash.py:484-493 | a label goes 2.7 years right of the visit when it fits, else it is flipped to 2.7 years left, never below 0 |
| `ChartGeometry.Percent` | countryGen_dash.py:522 | the percentage times today's age is 100 times the country count, and 0 before any age |
| `Axes.TruncYears` | countryGen_dash.py:449 | `int(age)` truncates toward zero |
| `Axes.RoundYears` | countryGen_dash.py:451 | `round(age)` is the nearest whole year, ties to even |
| `Axes.GridLines` | countryGen_dash.py:363-369 | one grid line per whole year from 0 to `int(age)`, major every fifth year, none past today's age |
| `Axes.StepRange` | countryGen_dash.py:450 | `range(lo, hi, step)` is empty exactly when `lo >= hi`, and otherwise starts at `lo` |
| `Axes.StepRangeBounds` | countryGen_dash.py:450 | its values lie in `[lo, hi)` and the last is within a step of `hi` |
| `Axes.StepRangeIncreasing` | countryGen_dash.py:450 | its values increase strictly |
| `Axes.StepRangeMembers` | countryGen_dash.py:450 | for the steps 1 and 5 the source uses, its values are exactly `lo` plus the multiples of the step, below `hi` |
| `Axes.KeepUpTo` | countryGen_dash.py:453 | the filter keeps exactly the values not past today's age |
| `Axes.KeepUpToIncreasing` | countryGen_dash.py:453 | the filter keeps order |
| `Axes.XTicksIncreasing` | countryGen_dash.py:448-453 | the age ticks increase strictly and none is past today's age |
| `Axes.XTicksMembers` | countryGen_dash.py:448-453 | a tick is a multiple of the step (5 past age 10, else 1) up to the rounded-up age, or the rounded age when it lies past the last multiple, and is not past today's age |
| `Axes.XTicksStartAtZero` | countryGen_dash.py:448-453 | once born, the ticks start at 0 |
| `Axes.ListRange` | countryGen_dash.py:450 | the loop lists `range(lo, stop, step)` |
| `Axes.FilterUpTo` | countryGen_dash.py:453 | the loop keeps the values not past today's age |
| `Axes.XTicks` | countryGen_dash.py:448-453 | the tick computation yields the specified ticks |
| `Axes.YTicksPaired` | countryGen_dash.py:457-462 | equal numbers of positions and labels, label `c` at `n - 0.5 - c`, the labels are exactly `0, 5, 10, …` up to `n` together with `n`, and `n` appears exactly once, at -0.5 |
| `Timeline.AgeInMonths` | countryGen_dash.py:337 | an age is the number of whole months since the birth month divided by 12 |
| `Timeline.AgeAtBirth` | countryGen_dash.py:337 | a visit in the birth month has age 0 |
| `Timeline.AgeMonotone` | countryGen_dash.py:337 | a later month gives a greater age, and conversely |
| `Timeline.VisitZipLength` | countryGen_dash.py:329 | the visit loop runs over as many selector pairs as the shortest of its four lists |
| `Timeline.CollectVisitInfo` | countryGen_dash.py:328-331 | the loop builds `visit_info` keyed by the month selector's code |
| `Timeline.SelectedVisitDate` | countryGen_dash.py:328-338 | a visit is dated by the last selector pair with its code (unset year 1990, unset month January), or January 1990 without one, and its age is measured from the birth month |
| `Timeline.BuildVisited` | countryGen_dash.py:332-338 | the loop builds one visit per selected country, in selection order |
| `Timeline.ByAgeIsTotalPreorder` | countryGen_dash.py:339 | comparing visits by age is a total preorder |
| `Timeline.ChartOrderSorted` | countryGen_dash.py:339-340 | the chart order is a permutation of the visits with non-increasing age |
| `Timeline.MaxAge` | countryGen_dash.py:349 | `max(ages)` is at least every age and is one of them |
| `Timeline.TopRowIsOldest` | countryGen_dash.py:344-349 | on the chart order `max(ages)` is the top row's age |
| `Timeline.ResidenceAgesMembers` | countryGen_dash.py:373-383 | the residence periods are exactly the rows with a country, as ages |
| `Timeline.CollectResidenceAges` | countryGen_dash.py:373-383 | the loop builds them, skipping rows without a country |
| `Timeline.SpansFor` | countryGen_dash.py:402-406 | every gold span lies inside the bar and has positive length |
| `Timeline.SpansForMembers` | countryGen_dash.py:402-406 | the spans are exactly the row country's periods clipped to the bar, of positive length |
| `Timeline.RowSpans` | countryGen_dash.py:402-406 | the inner loop builds those spans |
| `Timeline.RowsFollowOrder` | countryGen_dash.py:384-390 | row `i` shows visit `i` of the chart order, in zebra band `Block(n, i)`, with its bar from the visit to today and a flag exactly when one exists |
| `Timeline.BuildChartRows` | countryGen_dash.py:384-493 | the per-row loops build every row's numbers |
| `Timeline.GeneratePlot` | countryGen_dash.py:324-522 | no chart exactly when nothing is selected, otherwise the specified layout |
| `Timeline.ChartShowsEachVisitOnce` | countryGen_dash.py:332-390 | the chart shows every selected visit once, oldest at the top, each with its band, bar and flag |
| `Timeline.SpansInsideBars` | countryGen_dash.py:373-406 | a row's gold spans lie inside its bar and are exactly the clipped periods of its country with positive length |
| `Timeline.AxisCoversChart` | countryGen_dash.py:346-453 | the axis reaches a year past today's age and every visit, every age tick is at most today's age, and today's age is whole months over 12 |

## Left out

- The Dash layout, component trees, `build_row`, headers and styles. Callback wiring is left out too: what triggered a callback is an input value.
- The visibility callbacks `enable_country_select`, `toggle_residence_section`, `hide_toggle_residence_btn` and `show_visit_label`. They only change style dictionaries.
- `get_flag_base64` does HTTP, file caching and image processing. The set of countries that have a flag image is an input instead.
- The country catalogue, `get_continent` and the label lookups by `next(...)`. A label is treated as the country code, so every label is found.
- The plotly figure itself, its colours and the fixed shapes. Only the numbers passed to it are modelled.
- The clock: today's date is a parameter.
- Floating point. Ages are exact rationals; Python computes them in binary floating point.
- `:.1f` formatting, month names, `str` of tick labels, and the summary HTML.
- The `isinstance(yid, dict)` test of `update_visit_inputs`, and `ensure_list` of `update_residence_periods`. Selector ids are modelled as codes and the five inputs as lists.
- Python's crashes are preconditions: `None < int` in the truncation loop, indexing an empty month list, `datetime.date` of an invalid birth date, arithmetic on an unset residence date, and `x_tickvals[-1]` of an empty range.
- The birth month and year are plain integers where a callback uses them without a fallback. They are `Option`s where it applies `or` or `is None` to them. The same holds for the visit year and month selectors.
- `Sorting.SortBy` does not state stability: the ensures give order and permutation only, although the insertion sort keeps equal keys in input order as Python's `sorted` does.
- `Timeline.BuildChartRows`: `generate_plot` draws bars, flags and labels in three separate loops over the rows. The model computes each row's numbers in one pass, since none of those loops depends on another.
- The second check of `autocorrect_from_until` (line 1009) can never fire and is kept as written. The from-field comparisons of the from-side row lookup (line 946) compare a value with itself, so the lookup matches on country and until only, as in the source.
- `Residence.Resolved` does not keep residence periods apart. `update_residence_periods` only truncates at the first invalid row, and it never checks the first row. Non-overlap holds only for values picked from the filtered dropdown options, and a row's current value is always offered. `Residence.ResolvedMayOverlap` exhibits both gaps.
- `age_now` and `y_pos` in `generate_plot` are computed but never used.

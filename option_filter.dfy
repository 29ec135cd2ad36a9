/** The option lists offered for a residence row's "until" and "from"
    dropdowns (`restrict_until_options` and `restrict_from_options`).

    Both callbacks find the edited row among all rows, collect every other
    row's period as a pair of `(year, month)` tuples, and then walk the
    candidate years and months, keeping each candidate whose period
    `[from, until)` overlaps no other row, and always keeping the row's
    current value. Only the varying endpoint and the ranges differ, so the
    walk is modelled once (`ScanCandidates`) and the two callbacks supply
    its parameters. */
module OptionFilter {
  import opened Prelude
  import opened Calendar
  import opened Residence

  // ---------------------------------------------------------------------------
  // Finding the edited row

  /** How a callback recognises the edited row among all rows.
      `restrict_until_options` compares all five fields; the test in
      `restrict_from_options` also names the from fields, but compares each
      of them with itself, so in effect it matches on country and until only. */
  datatype RowKey =
    | WholeRow(row: Period)
    | CountryAndUntil(country: Option<Label>, untilYear: int, untilMonth: int)

  predicate Matches(key: RowKey, r: Period) {
    match key
    case WholeRow(p) => r == p
    case CountryAndUntil(c, y, m) => r.country == c && r.untilYear == Some(y) && r.untilMonth == Some(m)
  }

  /** The index of the first row from `i` on that matches `key`. */
  function FirstMatchFrom(rows: seq<Period>, key: RowKey, i: nat): (r: Option<nat>)
    requires i <= |rows|
    ensures r.None? <==> forall k :: i <= k < |rows| ==> !Matches(key, rows[k])
    ensures r.Some? ==> i <= r.value < |rows| && Matches(key, rows[r.value])
                        && forall k :: i <= k < r.value ==> !Matches(key, rows[k])
    decreases |rows| - i
  {
    if i == |rows| then None
    else if Matches(key, rows[i]) then Some(i)
    else FirstMatchFrom(rows, key, i + 1)
  }

  function FirstMatch(rows: seq<Period>, key: RowKey): Option<nat> {
    FirstMatchFrom(rows, key, 0)
  }

  /** The `this_idx` loop: the first matching row, or none. */
  method FindRow(rows: seq<Period>, key: RowKey) returns (thisIdx: Option<nat>)
    ensures thisIdx == FirstMatch(rows, key)
  {
    thisIdx := None;
    var idx := 0;
    while idx < |rows|
      invariant 0 <= idx <= |rows|
      invariant FirstMatchFrom(rows, key, idx) == FirstMatch(rows, key)
    {
      if Matches(key, rows[idx]) {
        thisIdx := Some(idx);
        break;
      }
      idx := idx + 1;
    }
  }

  /** Two tables that agree on every row's country and until. */
  predicate SameCountriesAndUntils(rows: seq<Period>, others: seq<Period>) {
    && |rows| == |others|
    && forall k :: 0 <= k < |rows| ==>
         && rows[k].country == others[k].country
         && rows[k].untilYear == others[k].untilYear
         && rows[k].untilMonth == others[k].untilMonth
  }

  lemma {:induction false} FirstMatchFromIgnoresFromFields(rows: seq<Period>, others: seq<Period>,
                                                           c: Option<Label>, y: int, m: int, i: nat)
    requires SameCountriesAndUntils(rows, others) && i <= |rows|
    ensures FirstMatchFrom(rows, CountryAndUntil(c, y, m), i) == FirstMatchFrom(others, CountryAndUntil(c, y, m), i)
    decreases |rows| - i
  {
    if i < |rows| {
      FirstMatchFromIgnoresFromFields(rows, others, c, y, m, i + 1);
    }
  }

  /** The from-side lookup depends only on the rows' countries and untils:
      changing any from field of any row does not change the row it finds,
      so of two rows with the same country and until it settles on the
      earlier one, whatever their from fields are. */
  lemma FromLookupIgnoresFromFields(rows: seq<Period>, others: seq<Period>, c: Option<Label>, y: int, m: int)
    requires SameCountriesAndUntils(rows, others)
    ensures FirstMatch(rows, CountryAndUntil(c, y, m)) == FirstMatch(others, CountryAndUntil(c, y, m))
    ensures forall i, j :: 0 <= i < j < |rows| && Matches(CountryAndUntil(c, y, m), rows[i])
              ==> FirstMatch(rows, CountryAndUntil(c, y, m)) != Some(j)
  {
    FirstMatchFromIgnoresFromFields(rows, others, c, y, m, 0);
  }

  // ---------------------------------------------------------------------------
  // The other rows' periods

  /** `age_tuple`: an unset (or zero) year counts as the birth year, an unset
      month as January. */
  function AgeTuple(y: Option<int>, m: Option<int>, dobYear: int): YearMonth {
    YearMonth(Or(y, dobYear), Or(m, 1))
  }

  /** Rows without a from-year or an until-year, and the edited row, are skipped. */
  predicate Counted(rows: seq<Period>, k: nat, thisIdx: Option<nat>)
    requires k < |rows|
  {
    Some(k) != thisIdx && rows[k].fromYear.Some? && rows[k].untilYear.Some?
  }

  function PeriodOf(r: Period, dobYear: int): Interval {
    Interval(AgeTuple(r.fromYear, r.fromMonth, dobYear), AgeTuple(r.untilYear, r.untilMonth, dobYear))
  }

  function OtherIntervals(rows: seq<Period>, thisIdx: Option<nat>, dobYear: int): seq<Interval> {
    if rows == [] then []
    else
      var k := |rows| - 1;
      OtherIntervals(rows[..k], thisIdx, dobYear)
        + (if Counted(rows, k, thisIdx) then [PeriodOf(rows[k], dobYear)] else [])
  }

  /** `other_periods` holds exactly the periods of the counted rows. */
  lemma {:induction false} OtherIntervalsMembers(rows: seq<Period>, thisIdx: Option<nat>, dobYear: int)
    ensures forall iv :: iv in OtherIntervals(rows, thisIdx, dobYear) <==>
              exists k :: 0 <= k < |rows| && Counted(rows, k, thisIdx) && iv == PeriodOf(rows[k], dobYear)
  {
    if rows != [] {
      var k := |rows| - 1;
      var front := rows[..k];
      OtherIntervalsMembers(front, thisIdx, dobYear);
      forall iv | iv in OtherIntervals(rows, thisIdx, dobYear)
        ensures exists j :: 0 <= j < |rows| && Counted(rows, j, thisIdx) && iv == PeriodOf(rows[j], dobYear)
      {
        if iv in OtherIntervals(front, thisIdx, dobYear) {
          var j :| 0 <= j < |front| && Counted(front, j, thisIdx) && iv == PeriodOf(front[j], dobYear);
          assert rows[j] == front[j];
        } else {
          assert Counted(rows, k, thisIdx) && iv == PeriodOf(rows[k], dobYear);
        }
      }
      forall iv | exists j :: 0 <= j < |rows| && Counted(rows, j, thisIdx) && iv == PeriodOf(rows[j], dobYear)
        ensures iv in OtherIntervals(rows, thisIdx, dobYear)
      {
        var j :| 0 <= j < |rows| && Counted(rows, j, thisIdx) && iv == PeriodOf(rows[j], dobYear);
        if j < k {
          assert front[j] == rows[j];
          assert Counted(front, j, thisIdx);
        }
      }
    }
  }

  /** The `other_periods` loop. */
  method CollectOtherPeriods(rows: seq<Period>, thisIdx: Option<nat>, dobYear: int) returns (others: seq<Interval>)
    ensures others == OtherIntervals(rows, thisIdx, dobYear)
  {
    others := [];
    var idx := 0;
    while idx < |rows|
      invariant 0 <= idx <= |rows|
      invariant others == OtherIntervals(rows[..idx], thisIdx, dobYear)
    {
      assert rows[..idx + 1][..idx] == rows[..idx];
      var r := rows[idx];
      if !(Some(idx) == thisIdx || r.fromYear.None? || r.untilYear.None?) {
        others := others + [PeriodOf(r, dobYear)];
      }
      idx := idx + 1;
    }
    assert rows[..|rows|] == rows;
  }

  // ---------------------------------------------------------------------------
  // The candidate walk

  predicate OverlapsAny(c: Interval, others: seq<Interval>) {
    exists k :: 0 <= k < |others| && Overlaps(c, others[k])
  }

  /** The innermost loop, which stops at the first overlapping period. */
  method AnyOverlap(c: Interval, others: seq<Interval>) returns (overlap: bool)
    ensures overlap <==> OverlapsAny(c, others)
  {
    overlap := false;
    var k := 0;
    while k < |others|
      invariant 0 <= k <= |others|
      invariant forall j :: 0 <= j < k ==> !Overlaps(c, others[j])
    {
      if Overlaps(c, others[k]) {
        overlap := true;
        break;
      }
      k := k + 1;
    }
  }

  /** Which endpoint the candidates stand for. */
  datatype Side = VaryUntil | VaryFrom

  /** The parameters of one walk: the fixed endpoint, the candidate years
      `lo..hi`, the pivot year whose month list is restricted (all other
      years try January to December), the other rows' periods and the
      edited row's current value of the varying endpoint. */
  datatype Scan = Scan(
    side: Side, fixed: YearMonth, lo: int, hi: int, pivot: int, pivotMonths: seq<int>,
    others: seq<Interval>, currentYear: Option<int>, currentMonth: Option<int>)

  function Candidate(s: Scan, y: int, m: int): Interval {
    if s.side == VaryUntil then Interval(s.fixed, YearMonth(y, m)) else Interval(YearMonth(y, m), s.fixed)
  }

  /** A candidate is offered when its period overlaps no other row, or when
      it is the edited row's current value. */
  predicate Offered(s: Scan, y: int, m: int) {
    !OverlapsAny(Candidate(s, y, m), s.others) || (s.currentYear == Some(y) && s.currentMonth == Some(m))
  }

  function MonthsTried(s: Scan, y: int): seq<int> {
    if y == s.pivot then s.pivotMonths else Range(1, 13)
  }

  /** Months are listed for the pivot year and for the current value's year. */
  predicate ListsMonths(s: Scan, y: int) {
    y == s.pivot || s.currentYear == Some(y)
  }

  function OfferedAmong(s: Scan, y: int, ms: seq<int>): seq<int> {
    if ms == [] then []
    else
      var k := |ms| - 1;
      OfferedAmong(s, y, ms[..k]) + (if Offered(s, y, ms[k]) then [ms[k]] else [])
  }

  predicate YearOffered(s: Scan, y: int) {
    OfferedAmong(s, y, MonthsTried(s, y)) != []
  }

  function MonthsListed(s: Scan, y: int): seq<int> {
    if ListsMonths(s, y) then OfferedAmong(s, y, MonthsTried(s, y)) else []
  }

  /** The years `x` of `lo .. y-1` with `offered(x)`, in increasing order. */
  function YearsWhere(lo: int, y: int, offered: int -> bool): seq<int>
    decreases y - lo
  {
    if y <= lo then [] else YearsWhere(lo, y - 1, offered) + (if offered(y - 1) then [y - 1] else [])
  }

  function OfferedYear(s: Scan): int -> bool {
    x => YearOffered(s, x)
  }

  /** The years offered among `lo .. y-1`. */
  function YearsBelow(s: Scan, y: int): seq<int> {
    YearsWhere(s.lo, y, OfferedYear(s))
  }

  /** The months listed for the years `lo .. y-1`. */
  function MonthsBelow(s: Scan, y: int): seq<int>
    decreases y - s.lo
  {
    if y <= s.lo then [] else MonthsBelow(s, y - 1) + MonthsListed(s, y - 1)
  }

  lemma {:induction false} OfferedAmongMembers(s: Scan, y: int, ms: seq<int>)
    ensures forall m :: m in OfferedAmong(s, y, ms) <==> m in ms && Offered(s, y, m)
  {
    if ms != [] {
      var k := |ms| - 1;
      OfferedAmongMembers(s, y, ms[..k]);
      assert ms == ms[..k] + [ms[k]];
    }
  }

  /** A year is offered exactly when one of the months tried for it is. */
  lemma YearOfferedMeaning(s: Scan, y: int)
    ensures YearOffered(s, y) <==> exists m :: m in MonthsTried(s, y) && Offered(s, y, m)
  {
    var ms := MonthsTried(s, y);
    var o := OfferedAmong(s, y, ms);
    OfferedAmongMembers(s, y, ms);
    if o != [] {
      var m := o[0];
      assert m in o;
      assert m in ms && Offered(s, y, m);
    }
    if exists m :: m in ms && Offered(s, y, m) {
      var m :| m in ms && Offered(s, y, m);
      assert m in o;
    }
  }

  /** A year's listed months are its offered months, when it lists any. */
  lemma MonthsListedMeaning(s: Scan, y: int)
    ensures forall m :: m in MonthsListed(s, y) <==> ListsMonths(s, y) && m in MonthsTried(s, y) && Offered(s, y, m)
  {
    OfferedAmongMembers(s, y, MonthsTried(s, y));
  }

  lemma {:induction false} YearsWhereMember(lo: int, y: int, offered: int -> bool, x: int)
    ensures x in YearsWhere(lo, y, offered) <==> lo <= x < y && offered(x)
    decreases y - lo
  {
    if y > lo {
      YearsWhereMember(lo, y - 1, offered, x);
    }
  }

  lemma {:induction false} YearsWhereIncreasing(lo: int, y: int, offered: int -> bool)
    ensures forall i, j :: 0 <= i < j < |YearsWhere(lo, y, offered)| ==>
              YearsWhere(lo, y, offered)[i] < YearsWhere(lo, y, offered)[j]
    decreases y - lo
  {
    if y > lo {
      YearsWhereIncreasing(lo, y - 1, offered);
      var front := YearsWhere(lo, y - 1, offered);
      var r := YearsWhere(lo, y, offered);
      forall i, j | 0 <= i < j < |r|
        ensures r[i] < r[j]
      {
        if j >= |front| {
          YearsWhereMember(lo, y - 1, offered, front[i]);
        }
      }
    }
  }

  /** The offered years are the years of `lo .. y-1` with an offered month. */
  lemma YearsBelowMembers(s: Scan, y: int)
    ensures forall x :: x in YearsBelow(s, y) <==> s.lo <= x < y && YearOffered(s, x)
  {
    forall x
      ensures x in YearsBelow(s, y) <==> s.lo <= x < y && YearOffered(s, x)
    {
      YearsWhereMember(s.lo, y, OfferedYear(s), x);
    }
  }

  /** Each offered year is listed once, in increasing order. */
  lemma YearsBelowIncreasing(s: Scan, y: int)
    ensures forall i, j :: 0 <= i < j < |YearsBelow(s, y)| ==> YearsBelow(s, y)[i] < YearsBelow(s, y)[j]
  {
    YearsWhereIncreasing(s.lo, y, OfferedYear(s));
  }

  /** The listed months are those listed for some year of `lo .. y-1`. */
  lemma {:induction false} MonthsBelowMembers(s: Scan, y: int)
    ensures forall m :: m in MonthsBelow(s, y) <==> exists x :: s.lo <= x < y && m in MonthsListed(s, x)
    decreases y - s.lo
  {
    if y > s.lo {
      MonthsBelowMembers(s, y - 1);
    }
  }

  /** One pass of the month loop for year `y`: the year is appended once,
      on its first offered month, and the offered months are appended when
      the year lists months. */
  method ScanMonths(s: Scan, y: int, years0: seq<int>, months0: seq<int>) returns (years: seq<int>, months: seq<int>)
    requires y !in years0
    ensures years == years0 + (if YearOffered(s, y) then [y] else [])
    ensures months == months0 + MonthsListed(s, y)
  {
    years, months := years0, months0;
    var ms := MonthsTried(s, y);
    var j := 0;
    while j < |ms|
      invariant 0 <= j <= |ms|
      invariant years == years0 + (if OfferedAmong(s, y, ms[..j]) != [] then [y] else [])
      invariant months == months0 + (if ListsMonths(s, y) then OfferedAmong(s, y, ms[..j]) else [])
    {
      assert ms[..j + 1][..j] == ms[..j];
      var m := ms[j];
      var overlap := AnyOverlap(Candidate(s, y, m), s.others);
      if !overlap || (Some(y) == s.currentYear && Some(m) == s.currentMonth) {
        if y !in years {
          years := years + [y];
        }
        if y == s.pivot || Some(y) == s.currentYear {
          months := months + [m];
        }
      }
      j := j + 1;
    }
    assert ms[..|ms|] == ms;
  }

  /** The nested year/month loops with their appends. */
  method ScanCandidates(s: Scan) returns (years: seq<int>, months: seq<int>)
    ensures years == YearsBelow(s, s.hi + 1)
    ensures months == MonthsBelow(s, s.hi + 1)
  {
    years, months := [], [];
    var y := s.lo;
    while y <= s.hi
      invariant s.lo <= y && (y <= s.hi + 1 || y == s.lo)
      invariant years == YearsBelow(s, y) && months == MonthsBelow(s, y)
    {
      YearsBelowMembers(s, y);
      assert y !in years;
      years, months := ScanMonths(s, y, years, months);
      assert years == YearsBelow(s, y + 1);
      assert months == MonthsBelow(s, y + 1);
      y := y + 1;
    }
  }

  /** Every other row's period that the walk compares with is the period of
      a counted row, so an offered candidate overlaps no counted row. */
  lemma OfferedAvoidsCountedRows(s: Scan, rows: seq<Period>, thisIdx: Option<nat>, dobYear: int, y: int, m: int)
    requires s.others == OtherIntervals(rows, thisIdx, dobYear)
    requires Offered(s, y, m)
    ensures (s.currentYear == Some(y) && s.currentMonth == Some(m))
            || forall k :: 0 <= k < |rows| && Counted(rows, k, thisIdx) ==>
                 !Overlaps(Candidate(s, y, m), PeriodOf(rows[k], dobYear))
  {
    if !(s.currentYear == Some(y) && s.currentMonth == Some(m)) {
      OtherIntervalsMembers(rows, thisIdx, dobYear);
      forall k | 0 <= k < |rows| && Counted(rows, k, thisIdx)
        ensures !Overlaps(Candidate(s, y, m), PeriodOf(rows[k], dobYear))
      {
        var iv := PeriodOf(rows[k], dobYear);
        assert iv in s.others;
        var j :| 0 <= j < |s.others| && s.others[j] == iv;
      }
    }
  }

  // ---------------------------------------------------------------------------
  // restrict_until_options

  /** The row's own fields after `restrict_until_options`'s defaults, as
      (from-year, from-month, until-year): an unset from-year is the birth
      year, an unset until-year the from-year, an unset from-month the birth
      month (or January). */
  function UntilDefaults(fromYear: Option<int>, fromMonth: Option<int>, untilYear: Option<int>,
                         dobYear: int, dobMonth: Option<int>): (int, int, int)
  {
    var fy := if fromYear.Some? then fromYear.value else dobYear;
    (fy, if fromMonth.Some? then fromMonth.value else Or(dobMonth, 1), if untilYear.Some? then untilYear.value else fy)
  }

  function UntilKey(fromYear: Option<int>, fromMonth: Option<int>, country: Option<Label>,
                    untilYear: Option<int>, untilMonth: Option<int>, dobYear: int, dobMonth: Option<int>): RowKey
  {
    var d := UntilDefaults(fromYear, fromMonth, untilYear, dobYear, dobMonth);
    WholeRow(Period(country, Some(d.0), Some(d.1), Some(d.2), untilMonth))
  }

  /** The months tried for the until-year: from the from-month when the
      until-year is the from-year, up to the current month in the current
      year. */
  function UntilMonthRange(fy: int, fm: int, uy: int, today: YearMonth): seq<int> {
    if uy == fy then Range(fm, if uy == today.year then today.month + 1 else 13)
    else if uy == today.year then Range(1, today.month + 1)
    else Range(1, 13)
  }

  /** The walk `restrict_until_options` performs: until-years from the
      from-year to the current year; the until-year's months start at the
      from-month when both years agree and stop at the current month in the
      current year. */
  function UntilScan(fromYear: Option<int>, fromMonth: Option<int>, country: Option<Label>,
                     untilYear: Option<int>, untilMonth: Option<int>, rows: seq<Period>,
                     dobYear: int, dobMonth: Option<int>, today: YearMonth): Scan
  {
    var d := UntilDefaults(fromYear, fromMonth, untilYear, dobYear, dobMonth);
    var pivotMonths := UntilMonthRange(d.0, d.1, d.2, today);
    var thisIdx := FirstMatch(rows, UntilKey(fromYear, fromMonth, country, untilYear, untilMonth, dobYear, dobMonth));
    Scan(VaryUntil, AgeTuple(Some(d.0), Some(d.1), dobYear), d.0, today.year, d.2, pivotMonths,
         OtherIntervals(rows, thisIdx, dobYear),
         if thisIdx.Some? then rows[thisIdx.value].untilYear else None,
         if thisIdx.Some? then rows[thisIdx.value].untilMonth else None)
  }

  /** `restrict_until_options`: the until-years and until-months to offer.
      The lists fall back to the from-year and from-month when the walk
      offers nothing. */
  method RestrictUntilOptions(fromYear: Option<int>, fromMonth: Option<int>, country: Option<Label>,
                              untilYear: Option<int>, untilMonth: Option<int>, rows: seq<Period>,
                              dobYear: int, dobMonth: Option<int>, today: YearMonth)
    returns (yearOptions: seq<int>, monthOptions: seq<int>)
    ensures var d := UntilDefaults(fromYear, fromMonth, untilYear, dobYear, dobMonth);
            var s := UntilScan(fromYear, fromMonth, country, untilYear, untilMonth, rows, dobYear, dobMonth, today);
            && yearOptions == (if YearsBelow(s, s.hi + 1) == [] then [d.0] else YearsBelow(s, s.hi + 1))
            && monthOptions == (if MonthsBelow(s, s.hi + 1) == [] then [d.1] else MonthsBelow(s, s.hi + 1))
    ensures yearOptions != [] && monthOptions != []
  {
    var d := UntilDefaults(fromYear, fromMonth, untilYear, dobYear, dobMonth);
    var fy, fm, uy := d.0, d.1, d.2;
    var pivotMonths := UntilMonthRange(fy, fm, uy, today);
    var thisIdx := FindRow(rows, UntilKey(fromYear, fromMonth, country, untilYear, untilMonth, dobYear, dobMonth));
    var thisFrom := AgeTuple(Some(fy), Some(fm), dobYear);
    var others := CollectOtherPeriods(rows, thisIdx, dobYear);
    var currentYear := if thisIdx.Some? then rows[thisIdx.value].untilYear else None;
    var currentMonth := if thisIdx.Some? then rows[thisIdx.value].untilMonth else None;
    var s := Scan(VaryUntil, thisFrom, fy, today.year, uy, pivotMonths, others, currentYear, currentMonth);
    assert s == UntilScan(fromYear, fromMonth, country, untilYear, untilMonth, rows, dobYear, dobMonth, today);
    yearOptions, monthOptions := ScanCandidates(s);
    if yearOptions == [] {
      yearOptions := [fy];
    }
    if monthOptions == [] {
      monthOptions := [fm];
    }
  }

  /** The until-years offered run from the from-year to the current year. */
  lemma UntilYearsBounded(fromYear: Option<int>, fromMonth: Option<int>, country: Option<Label>,
                          untilYear: Option<int>, untilMonth: Option<int>, rows: seq<Period>,
                          dobYear: int, dobMonth: Option<int>, today: YearMonth, y: int)
    requires var s := UntilScan(fromYear, fromMonth, country, untilYear, untilMonth, rows, dobYear, dobMonth, today);
             y in YearsBelow(s, s.hi + 1)
    ensures (if fromYear.Some? then fromYear.value else dobYear) <= y <= today.year
  {
    var s := UntilScan(fromYear, fromMonth, country, untilYear, untilMonth, rows, dobYear, dobMonth, today);
    YearsBelowMembers(s, s.hi + 1);
  }

  /** Every until-year the walk offers has a month whose period
      `[from, (year, month))` overlaps no counted other row, or is the row's
      current until value. */
  lemma OfferedUntilYearsAvoidOtherRows(
    fromYear: Option<int>, fromMonth: Option<int>, country: Option<Label>,
    untilYear: Option<int>, untilMonth: Option<int>, rows: seq<Period>,
    dobYear: int, dobMonth: Option<int>, today: YearMonth, y: int)
    requires var s := UntilScan(fromYear, fromMonth, country, untilYear, untilMonth, rows, dobYear, dobMonth, today);
             y in YearsBelow(s, s.hi + 1)
    ensures var s := UntilScan(fromYear, fromMonth, country, untilYear, untilMonth, rows, dobYear, dobMonth, today);
            var thisIdx := FirstMatch(rows, UntilKey(fromYear, fromMonth, country, untilYear, untilMonth, dobYear, dobMonth));
            exists m :: m in MonthsTried(s, y) &&
              ((s.currentYear == Some(y) && s.currentMonth == Some(m))
               || forall k :: 0 <= k < |rows| && Counted(rows, k, thisIdx) ==>
                    !Overlaps(Interval(s.fixed, YearMonth(y, m)), PeriodOf(rows[k], dobYear)))
  {
    var s := UntilScan(fromYear, fromMonth, country, untilYear, untilMonth, rows, dobYear, dobMonth, today);
    var thisIdx := FirstMatch(rows, UntilKey(fromYear, fromMonth, country, untilYear, untilMonth, dobYear, dobMonth));
    YearsBelowMembers(s, s.hi + 1);
    YearOfferedMeaning(s, y);
    var m :| m in MonthsTried(s, y) && Offered(s, y, m);
    OfferedAvoidsCountedRows(s, rows, thisIdx, dobYear, y, m);
  }

  // ---------------------------------------------------------------------------
  // restrict_from_options

  /** The row's until fields and the birth month after
      `restrict_from_options`'s defaults, as (until-year, until-month,
      birth-month): an unset until-year is the current year, an unset
      until-month the current month in the current year and December
      otherwise, an unset birth month January. */
  function FromDefaults(untilYear: Option<int>, untilMonth: Option<int>, dobMonth: Option<int>, today: YearMonth): (int, int, int)
  {
    var uy := if untilYear.Some? then untilYear.value else today.year;
    (uy,
     if untilMonth.Some? then untilMonth.value else if uy == today.year then today.month else 12,
     if dobMonth.Some? then dobMonth.value else 1)
  }

  function FromKey(country: Option<Label>, untilYear: Option<int>, untilMonth: Option<int>,
                   dobMonth: Option<int>, today: YearMonth): RowKey
  {
    var d := FromDefaults(untilYear, untilMonth, dobMonth, today);
    CountryAndUntil(country, d.0, d.1)
  }

  /** The months tried for the birth year: from the birth month when the
      until-year is the birth year, up to the until-month when the
      until-year is the birth year or the current year. */
  function FromMonthRange(uy: int, um: int, dm: int, dobYear: int, today: YearMonth): seq<int> {
    if uy == dobYear then Range(dm, um + 1)
    else if uy == today.year then Range(1, um + 1)
    else Range(1, 13)
  }

  /** The walk `restrict_from_options` performs: from-years from the birth
      year to the until-year; the birth year's months start at the birth
      month and stop at the until-month when the until-year is the birth
      year. */
  function FromScan(country: Option<Label>, untilYear: Option<int>, untilMonth: Option<int>,
                    rows: seq<Period>, dobYear: int, dobMonth: Option<int>, today: YearMonth): Scan
  {
    var d := FromDefaults(untilYear, untilMonth, dobMonth, today);
    var pivotMonths := FromMonthRange(d.0, d.1, d.2, dobYear, today);
    var thisIdx := FirstMatch(rows, FromKey(country, untilYear, untilMonth, dobMonth, today));
    Scan(VaryFrom, AgeTuple(Some(d.0), Some(d.1), dobYear), dobYear, d.0, dobYear, pivotMonths,
         OtherIntervals(rows, thisIdx, dobYear),
         if thisIdx.Some? then rows[thisIdx.value].fromYear else None,
         if thisIdx.Some? then rows[thisIdx.value].fromMonth else None)
  }

  /** `restrict_from_options`: the from-years and from-months to offer, with
      the birth year and birth month as fallbacks. */
  method RestrictFromOptions(country: Option<Label>, untilYear: Option<int>, untilMonth: Option<int>,
                             rows: seq<Period>, dobYear: int, dobMonth: Option<int>, today: YearMonth)
    returns (yearOptions: seq<int>, monthOptions: seq<int>)
    ensures var d := FromDefaults(untilYear, untilMonth, dobMonth, today);
            var s := FromScan(country, untilYear, untilMonth, rows, dobYear, dobMonth, today);
            && yearOptions == (if YearsBelow(s, s.hi + 1) == [] then [dobYear] else YearsBelow(s, s.hi + 1))
            && monthOptions == (if MonthsBelow(s, s.hi + 1) == [] then [d.2] else MonthsBelow(s, s.hi + 1))
    ensures yearOptions != [] && monthOptions != []
  {
    var d := FromDefaults(untilYear, untilMonth, dobMonth, today);
    var uy, um, dm := d.0, d.1, d.2;
    var pivotMonths := FromMonthRange(uy, um, dm, dobYear, today);
    var thisIdx := FindRow(rows, FromKey(country, untilYear, untilMonth, dobMonth, today));
    var thisUntil := AgeTuple(Some(uy), Some(um), dobYear);
    var others := CollectOtherPeriods(rows, thisIdx, dobYear);
    var currentYear := if thisIdx.Some? then rows[thisIdx.value].fromYear else None;
    var currentMonth := if thisIdx.Some? then rows[thisIdx.value].fromMonth else None;
    var s := Scan(VaryFrom, thisUntil, dobYear, uy, dobYear, pivotMonths, others, currentYear, currentMonth);
    assert s == FromScan(country, untilYear, untilMonth, rows, dobYear, dobMonth, today);
    yearOptions, monthOptions := ScanCandidates(s);
    if yearOptions == [] {
      yearOptions := [dobYear];
    }
    if monthOptions == [] {
      monthOptions := [dm];
    }
  }

  /** The from-years offered run from the birth year to the until-year. */
  lemma FromYearsBounded(country: Option<Label>, untilYear: Option<int>, untilMonth: Option<int>,
                         rows: seq<Period>, dobYear: int, dobMonth: Option<int>, today: YearMonth, y: int)
    requires var s := FromScan(country, untilYear, untilMonth, rows, dobYear, dobMonth, today);
             y in YearsBelow(s, s.hi + 1)
    ensures dobYear <= y <= (if untilYear.Some? then untilYear.value else today.year)
  {
    var s := FromScan(country, untilYear, untilMonth, rows, dobYear, dobMonth, today);
    YearsBelowMembers(s, s.hi + 1);
  }

  /** Every from-year the walk offers has a month whose period
      `[(year, month), until)` overlaps no counted other row, or is the
      row's current from value. */
  lemma OfferedFromYearsAvoidOtherRows(
    country: Option<Label>, untilYear: Option<int>, untilMonth: Option<int>,
    rows: seq<Period>, dobYear: int, dobMonth: Option<int>, today: YearMonth, y: int)
    requires var s := FromScan(country, untilYear, untilMonth, rows, dobYear, dobMonth, today);
             y in YearsBelow(s, s.hi + 1)
    ensures var s := FromScan(country, untilYear, untilMonth, rows, dobYear, dobMonth, today);
            var thisIdx := FirstMatch(rows, FromKey(country, untilYear, untilMonth, dobMonth, today));
            exists m :: m in MonthsTried(s, y) &&
              ((s.currentYear == Some(y) && s.currentMonth == Some(m))
               || forall k :: 0 <= k < |rows| && Counted(rows, k, thisIdx) ==>
                    !Overlaps(Interval(YearMonth(y, m), s.fixed), PeriodOf(rows[k], dobYear)))
  {
    var s := FromScan(country, untilYear, untilMonth, rows, dobYear, dobMonth, today);
    var thisIdx := FirstMatch(rows, FromKey(country, untilYear, untilMonth, dobMonth, today));
    YearsBelowMembers(s, s.hi + 1);
    YearOfferedMeaning(s, y);
    var m :| m in MonthsTried(s, y) && Offered(s, y, m);
    OfferedAvoidsCountedRows(s, rows, thisIdx, dobYear, y, m);
  }
}

/** The residence-period table: rows of country, from-year, from-month,
    until-year and until-month, kept by the application as five parallel
    lists of widget values, any of which may be unset (`None`).

    This module models `autocorrect_from_until`, which forces from <= until
    in one row, and the list logic of `update_residence_periods`, which
    removes a row, supplies a default row, appends a row chained from the
    last one, and cuts the table at the first invalid row. */
module Residence {
  import opened Prelude
  import opened Calendar

  datatype Period = Period(
    country: Option<Label>,
    fromYear: Option<int>,
    fromMonth: Option<int>,
    untilYear: Option<int>,
    untilMonth: Option<int>)

  /** Python truthiness of the country value: set and not the empty string. */
  predicate Chosen(c: Option<Label>) {
    c.Some? && c.value != ""
  }

  predicate HasDates(p: Period) {
    p.fromYear.Some? && p.fromMonth.Some? && p.untilYear.Some? && p.untilMonth.Some?
  }

  function From(p: Period): YearMonth
    requires HasDates(p)
  {
    YearMonth(p.fromYear.value, p.fromMonth.value)
  }

  function Until(p: Period): YearMonth
    requires HasDates(p)
  {
    YearMonth(p.untilYear.value, p.untilMonth.value)
  }

  // ---------------------------------------------------------------------------
  // autocorrect_from_until

  /** Forces from <= until on a fully dated row by moving the from endpoint
      back to the until one; a row with an unset date field is left alone.
      The source's second test ("from after until") is the first test read
      the other way round, so its branch is never taken; it is kept here. */
  function Autocorrect(p: Period): (r: Period)
    ensures r.country == p.country
    ensures !HasDates(p) ==> r == p
    ensures HasDates(p) ==> HasDates(r) && NotAfter(From(r), Until(r))
    ensures HasDates(p) && Before(Until(p), From(p)) ==> From(r) == Until(p) && Until(r) == Until(p)
    ensures HasDates(p) && NotAfter(From(p), Until(p)) ==> r == p
  {
    if p.fromYear.None? || p.fromMonth.None? then p
    else if p.untilYear.None? || p.untilMonth.None? then p
    else
      var f := YearMonth(p.fromYear.value, p.fromMonth.value);
      var u := YearMonth(p.untilYear.value, p.untilMonth.value);
      if Before(u, f) then p.(fromYear := p.untilYear, fromMonth := p.untilMonth)
      else if Before(u, f) then p.(untilYear := p.fromYear, untilMonth := p.fromMonth)
      else p
  }

  /** Correcting a corrected row changes nothing. */
  lemma AutocorrectIdempotent(p: Period)
    ensures Autocorrect(Autocorrect(p)) == Autocorrect(p)
  {
  }

  // ---------------------------------------------------------------------------
  // Validity test of the truncation loop

  /** The fields the truncation loop compares are present: the years always,
      the months when the years are equal (Python raises on `None < int`). */
  predicate Comparable(p: Period) {
    && p.untilYear.Some? && p.fromYear.Some?
    && (p.untilYear.value == p.fromYear.value ==> p.untilMonth.Some? && p.fromMonth.Some?)
  }

  /** The loop's "until before from" test. */
  predicate Inverted(p: Period)
    requires Comparable(p)
  {
    || p.untilYear.value < p.fromYear.value
    || (p.untilYear.value == p.fromYear.value && p.untilMonth.value < p.fromMonth.value)
  }

  /** A row at index 1 or later that the loop keeps. */
  predicate Keeps(p: Period) {
    Comparable(p) && !Inverted(p) && Chosen(p.country)
  }

  /** On a fully dated row the loop's test is the tuple order. */
  lemma InvertedIsTupleOrder(p: Period)
    requires HasDates(p)
    ensures Comparable(p) && (Inverted(p) <==> Before(Until(p), From(p)))
  {
  }

  /** A corrected, fully dated row with a country is always kept. */
  lemma AutocorrectedRowIsKept(p: Period)
    requires HasDates(p) && Chosen(p.country)
    ensures Keeps(Autocorrect(p))
  {
    InvertedIsTupleOrder(Autocorrect(p));
  }

  /** The loop reaches only rows it can compare: every row from index 1 on
      whose predecessors (from index 1) were all kept is comparable. */
  predicate Scannable(rows: seq<Period>) {
    forall i :: 1 <= i < |rows| && (forall j :: 1 <= j < i ==> Keeps(rows[j])) ==> Comparable(rows[i])
  }

  /** `last_valid`: the scan from index 1 stops at the first row not kept. */
  function CutFrom(rows: seq<Period>, i: nat): (c: nat)
    requires 1 <= i <= |rows|
    ensures i <= c <= |rows|
    decreases |rows| - i
  {
    if i == |rows| then i
    else if Keeps(rows[i]) then CutFrom(rows, i + 1)
    else i
  }

  function Cut(rows: seq<Period>): (c: nat)
    ensures c <= |rows|
  {
    if rows == [] then 0 else CutFrom(rows, 1)
  }

  function Truncated(rows: seq<Period>): seq<Period> {
    rows[..Cut(rows)]
  }

  lemma {:induction false} CutFromBounds(rows: seq<Period>, i: nat)
    requires 1 <= i <= |rows|
    requires forall j :: 1 <= j < i ==> Keeps(rows[j])
    ensures forall j :: 1 <= j < CutFrom(rows, i) ==> Keeps(rows[j])
    ensures CutFrom(rows, i) < |rows| ==> !Keeps(rows[CutFrom(rows, i)])
    decreases |rows| - i
  {
    if i < |rows| && Keeps(rows[i]) {
      CutFromBounds(rows, i + 1);
    }
  }

  /** The truncation keeps a prefix: row 0 always, then every row up to the
      first row (from index 1) that is inverted or has no country, and
      nothing from that row on. */
  lemma TruncationIsFirstInvalidCut(rows: seq<Period>)
    ensures |Truncated(rows)| <= |rows| && Truncated(rows) == rows[..|Truncated(rows)|]
    ensures rows != [] ==> 1 <= |Truncated(rows)| && Truncated(rows)[0] == rows[0]
    ensures forall i :: 1 <= i < |Truncated(rows)| ==> Keeps(Truncated(rows)[i])
    ensures |Truncated(rows)| < |rows| ==> !Keeps(rows[|Truncated(rows)|])
  {
    if rows != [] {
      CutFromBounds(rows, 1);
    }
  }

  /** The three facts of `TruncationIsFirstInvalidCut` determine the cut. */
  lemma CutUnique(rows: seq<Period>, k: nat)
    requires rows != [] && 1 <= k <= |rows|
    requires forall j :: 1 <= j < k ==> Keeps(rows[j])
    requires k < |rows| ==> !Keeps(rows[k])
    ensures Cut(rows) == k
  {
    TruncationIsFirstInvalidCut(rows);
  }

  /** Truncating a truncated table changes nothing. */
  lemma TruncationIdempotent(rows: seq<Period>)
    ensures Truncated(Truncated(rows)) == Truncated(rows)
  {
    TruncationIsFirstInvalidCut(rows);
    var t := Truncated(rows);
    if t != [] {
      CutUnique(t, |t|);
    }
  }

  // ---------------------------------------------------------------------------
  // Row-list maintenance

  /** `[x for i, x in enumerate(s) if i != idx]`. */
  function WithoutIndex<T>(s: seq<T>, idx: int): (r: seq<T>)
    ensures 0 <= idx < |s| ==> |r| == |s| - 1
    ensures 0 <= idx < |s| ==> forall k :: 0 <= k < |r| ==> r[k] == s[if k < idx then k else k + 1]
    ensures !(0 <= idx < |s|) ==> r == s
  {
    if s == [] then []
    else (if idx == 0 then [] else [s[0]]) + WithoutIndex(s[1..], idx - 1)
  }

  /** The first option no row uses yet, if any. */
  function FirstUnused(options: seq<Label>, used: set<Option<Label>>): (r: Option<Label>)
    ensures r.None? <==> forall k :: 0 <= k < |options| ==> Some(options[k]) in used
    ensures r.Some? ==> exists k :: 0 <= k < |options| && options[k] == r.value
                          && Some(options[k]) !in used
                          && forall j :: 0 <= j < k ==> Some(options[j]) in used
  {
    if options == [] then None
    else if Some(options[0]) !in used then Some(options[0])
    else
      var r := FirstUnused(options[1..], used);
      if r.Some? then
        var k :| 0 <= k < |options[1..]| && options[1..][k] == r.value
                 && Some(options[1..][k]) !in used
                 && forall j :: 0 <= j < k ==> Some(options[1..][j]) in used;
        assert options[k + 1] == r.value;
        r
      else r
  }

  /** The country of an added row: the first visited country not in the
      table yet, else the first visited country, else none. */
  function NextCountry(options: seq<Label>, used: set<Option<Label>>): Option<Label> {
    match FirstUnused(options, used)
    case Some(c) => Some(c)
    case None => if options != [] then Some(options[0]) else None
  }

  function CountriesOf(rows: seq<Period>): set<Option<Label>> {
    set k | 0 <= k < |rows| :: rows[k].country
  }

  /** The row supplied when the table is empty: first visited country, from
      the birth month to today. */
  function DefaultPeriod(options: seq<Label>, dob: YearMonth, today: YearMonth): Period {
    Period(if options != [] then Some(options[0]) else None,
           Some(dob.year), Some(dob.month), Some(today.year), Some(today.month))
  }

  /** The row appended by "add": from where the last row ends (or the birth
      month where that is unset) until today. */
  function ChainedPeriod(rows: seq<Period>, options: seq<Label>, dob: YearMonth, today: YearMonth): Period
    requires rows != []
  {
    var last := rows[|rows| - 1];
    Period(NextCountry(options, CountriesOf(rows)),
           Some(last.untilYear.GetOr(dob.year)), Some(last.untilMonth.GetOr(dob.month)),
           Some(today.year), Some(today.month))
  }

  /** What fired the callback; the source reads it from `ctx.triggered_id`. */
  datatype Trigger = AddPeriod | RemovePeriod(index: int) | OtherChange

  function AfterRemove(rows: seq<Period>, trigger: Trigger): seq<Period> {
    if trigger.RemovePeriod? then WithoutIndex(rows, trigger.index) else rows
  }

  function AtLeastOneRow(rows: seq<Period>, options: seq<Label>, dob: YearMonth, today: YearMonth): seq<Period> {
    if rows == [] then [DefaultPeriod(options, dob, today)] else rows
  }

  function AfterAdd(rows: seq<Period>, trigger: Trigger, visible: bool,
                    options: seq<Label>, dob: YearMonth, today: YearMonth): seq<Period>
    requires rows != []
  {
    if trigger == AddPeriod && visible then rows + [ChainedPeriod(rows, options, dob, today)] else rows
  }

  /** The table the truncation loop scans. */
  function Prepared(rows: seq<Period>, trigger: Trigger, visible: bool,
                    options: seq<Label>, dob: YearMonth, today: YearMonth): seq<Period>
  {
    AfterAdd(AtLeastOneRow(AfterRemove(rows, trigger), options, dob, today), trigger, visible, options, dob, today)
  }

  /** The table `update_residence_periods` renders. */
  function Resolved(rows: seq<Period>, trigger: Trigger, visible: bool,
                    options: seq<Label>, dob: YearMonth, today: YearMonth): seq<Period>
  {
    Truncated(Prepared(rows, trigger, visible, options, dob, today))
  }

  /** The rendered table is never empty, keeps the first prepared row, and
      every later row has a country and does not end before it starts. */
  lemma ResolvedShape(rows: seq<Period>, trigger: Trigger, visible: bool,
                      options: seq<Label>, dob: YearMonth, today: YearMonth)
    ensures var p := Prepared(rows, trigger, visible, options, dob, today);
            var r := Resolved(rows, trigger, visible, options, dob, today);
            && 1 <= |r| <= |p| && r == p[..|r|] && r[0] == p[0]
            && (forall i :: 1 <= i < |r| ==> Chosen(r[i].country) && Comparable(r[i]) && !Inverted(r[i]))
  {
    TruncationIsFirstInvalidCut(Prepared(rows, trigger, visible, options, dob, today));
  }

  /** An empty table (after any removal) gets exactly the default row. */
  lemma EmptyTableGetsDefault(rows: seq<Period>, trigger: Trigger, visible: bool,
                              options: seq<Label>, dob: YearMonth, today: YearMonth)
    requires AfterRemove(rows, trigger) == []
    requires !(trigger == AddPeriod && visible)
    ensures Resolved(rows, trigger, visible, options, dob, today) == [DefaultPeriod(options, dob, today)]
  {
  }

  /** The resolver only truncates at the first invalid row; it does not
      remove overlaps and never checks the first row. Two well-ordered rows
      whose periods overlap are both shown, and so is an inverted first row. */
  lemma ResolvedMayOverlap(options: seq<Label>, dob: YearMonth, today: YearMonth)
    ensures var a := Period(Some("AT"), Some(2000), Some(1), Some(2010), Some(1));
            var b := Period(Some("BE"), Some(2005), Some(1), Some(2008), Some(1));
            && Resolved([a, b], OtherChange, true, options, dob, today) == [a, b]
            && Overlaps(Interval(YearMonth(2000, 1), YearMonth(2010, 1)), Interval(YearMonth(2005, 1), YearMonth(2008, 1)))
    ensures var x := Period(Some("AT"), Some(2010), Some(1), Some(2000), Some(1));
            && Inverted(x)
            && Resolved([x], OtherChange, true, options, dob, today) == [x]
  {
    var a := Period(Some("AT"), Some(2000), Some(1), Some(2010), Some(1));
    var b := Period(Some("BE"), Some(2005), Some(1), Some(2008), Some(1));
    assert Keeps(b);
    CutUnique([a, b], 2);
    var x := Period(Some("AT"), Some(2010), Some(1), Some(2000), Some(1));
    CutUnique([x], 1);
  }

  /** "Add" on a visible section with an empty table gives the default row
      and then a row chained from it, which starts and ends today; the
      chained row is shown exactly when it has a country. */
  lemma EmptyTableAddGetsDefaultAndChainedRow(rows: seq<Period>, visible: bool,
                                              options: seq<Label>, dob: YearMonth, today: YearMonth)
    requires rows == [] && visible
    ensures var d := DefaultPeriod(options, dob, today);
            var c := ChainedPeriod([d], options, dob, today);
            && Prepared(rows, AddPeriod, visible, options, dob, today) == [d, c]
            && c.fromYear == Some(today.year) && c.fromMonth == Some(today.month)
            && c.untilYear == Some(today.year) && c.untilMonth == Some(today.month)
            && (c.country.None? <==> options == [])
            && Resolved(rows, AddPeriod, visible, options, dob, today) == (if Chosen(c.country) then [d, c] else [d])
  {
    var d := DefaultPeriod(options, dob, today);
    var c := ChainedPeriod([d], options, dob, today);
    var p := [d, c];
    assert Prepared(rows, AddPeriod, visible, options, dob, today) == p;
    TruncationIsFirstInvalidCut(p);
    if Chosen(c.country) {
      assert Keeps(p[1]);
      CutUnique(p, 2);
    } else {
      CutUnique(p, 1);
    }
  }

  /** "Add" on a visible section appends one row and leaves the others alone;
      the new row chains from the previous last row and runs until today. */
  lemma AddAppendsChainedRow(rows: seq<Period>, visible: bool,
                             options: seq<Label>, dob: YearMonth, today: YearMonth)
    requires rows != [] && visible
    ensures var p := Prepared(rows, AddPeriod, visible, options, dob, today);
            var last := rows[|rows| - 1];
            && |p| == |rows| + 1 && p[..|rows|] == rows
            && p[|rows|].fromYear == Some(last.untilYear.GetOr(dob.year))
            && p[|rows|].fromMonth == Some(last.untilMonth.GetOr(dob.month))
            && p[|rows|].untilYear == Some(today.year) && p[|rows|].untilMonth == Some(today.month)
            && (p[|rows|].country.None? <==> options == [])
            && (p[|rows|].country.Some? ==> p[|rows|].country.value in options)
            && p[|rows|].country == (if FirstUnused(options, CountriesOf(rows)).Some?
                                     then FirstUnused(options, CountriesOf(rows))
                                     else if options == [] then None else Some(options[0]))
  {
    var p := Prepared(rows, AddPeriod, visible, options, dob, today);
    assert p == rows + [ChainedPeriod(rows, options, dob, today)];
    var c := FirstUnused(options, CountriesOf(rows));
    if c.Some? {
      var k :| 0 <= k < |options| && options[k] == c.value;
    }
  }

  // ---------------------------------------------------------------------------
  // The callback itself, over the five parallel lists

  function Zip(cs: seq<Option<Label>>, fys: seq<Option<int>>, fms: seq<Option<int>>,
               uys: seq<Option<int>>, ums: seq<Option<int>>): seq<Period>
    requires |fys| == |cs| && |fms| == |cs| && |uys| == |cs| && |ums| == |cs|
  {
    seq(|cs|, i requires 0 <= i < |cs| => Period(cs[i], fys[i], fms[i], uys[i], ums[i]))
  }

  lemma ZipWithoutIndex(cs: seq<Option<Label>>, fys: seq<Option<int>>, fms: seq<Option<int>>,
                        uys: seq<Option<int>>, ums: seq<Option<int>>, idx: int)
    requires |fys| == |cs| && |fms| == |cs| && |uys| == |cs| && |ums| == |cs|
    ensures var w := WithoutIndex(cs, idx);
            && |WithoutIndex(fys, idx)| == |w| && |WithoutIndex(fms, idx)| == |w|
            && |WithoutIndex(uys, idx)| == |w| && |WithoutIndex(ums, idx)| == |w|
            && Zip(w, WithoutIndex(fys, idx), WithoutIndex(fms, idx), WithoutIndex(uys, idx), WithoutIndex(ums, idx))
               == WithoutIndex(Zip(cs, fys, fms, uys, ums), idx)
  {
    var z := Zip(cs, fys, fms, uys, ums);
    var w := WithoutIndex(cs, idx);
    var lhs := Zip(w, WithoutIndex(fys, idx), WithoutIndex(fms, idx), WithoutIndex(uys, idx), WithoutIndex(ums, idx));
    var rhs := WithoutIndex(z, idx);
    if 0 <= idx < |cs| {
      assert |lhs| == |rhs|;
      forall k | 0 <= k < |lhs|
        ensures lhs[k] == rhs[k]
      {
        var j := if k < idx then k else k + 1;
        assert rhs[k] == z[j];
      }
    }
  }

  lemma ZipAppend(cs: seq<Option<Label>>, fys: seq<Option<int>>, fms: seq<Option<int>>,
                  uys: seq<Option<int>>, ums: seq<Option<int>>, p: Period)
    requires |fys| == |cs| && |fms| == |cs| && |uys| == |cs| && |ums| == |cs|
    ensures Zip(cs + [p.country], fys + [p.fromYear], fms + [p.fromMonth], uys + [p.untilYear], ums + [p.untilMonth])
         == Zip(cs, fys, fms, uys, ums) + [p]
  {
  }

  lemma ZipPrefix(cs: seq<Option<Label>>, fys: seq<Option<int>>, fms: seq<Option<int>>,
                  uys: seq<Option<int>>, ums: seq<Option<int>>, k: nat)
    requires |fys| == |cs| && |fms| == |cs| && |uys| == |cs| && |ums| == |cs| && k <= |cs|
    ensures Zip(cs[..k], fys[..k], fms[..k], uys[..k], ums[..k]) == Zip(cs, fys, fms, uys, ums)[..k]
  {
  }

  /** The `last_valid` loop and the cut of all five lists at `last_valid`. */
  method TruncateAtFirstInvalid(
    countries: seq<Option<Label>>, fromYears: seq<Option<int>>, fromMonths: seq<Option<int>>,
    untilYears: seq<Option<int>>, untilMonths: seq<Option<int>>)
    returns (cs: seq<Option<Label>>, fys: seq<Option<int>>, fms: seq<Option<int>>,
             uys: seq<Option<int>>, ums: seq<Option<int>>)
    requires |fromYears| == |countries| && |fromMonths| == |countries|
    requires |untilYears| == |countries| && |untilMonths| == |countries|
    requires Scannable(Zip(countries, fromYears, fromMonths, untilYears, untilMonths))
    ensures |fys| == |cs| && |fms| == |cs| && |uys| == |cs| && |ums| == |cs|
    ensures Zip(cs, fys, fms, uys, ums) == Truncated(Zip(countries, fromYears, fromMonths, untilYears, untilMonths))
  {
    ghost var rows := Zip(countries, fromYears, fromMonths, untilYears, untilMonths);
    var n := |countries|;
    var lastValid := if n > 0 then 1 else 0;
    var i := 1;
    while i < n
      invariant n > 0 ==> 1 <= i <= n && lastValid == i
      invariant lastValid <= n
      invariant forall j :: 1 <= j < i && j < n ==> Keeps(rows[j])
    {
      assert rows[i] == Period(countries[i], fromYears[i], fromMonths[i], untilYears[i], untilMonths[i]);
      if untilYears[i].value < fromYears[i].value
         || (untilYears[i].value == fromYears[i].value && untilMonths[i].value < fromMonths[i].value) {
        break;
      }
      if !Chosen(countries[i]) {
        break;
      }
      lastValid := i + 1;
      i := i + 1;
    }
    if n > 0 {
      CutUnique(rows, lastValid);
    }
    ZipPrefix(countries, fromYears, fromMonths, untilYears, untilMonths, lastValid);
    cs, fys, fms, uys, ums := countries[..lastValid], fromYears[..lastValid], fromMonths[..lastValid],
                              untilYears[..lastValid], untilMonths[..lastValid];
  }

  /** The list part of `update_residence_periods`: the five lists are rebound
      step by step exactly as the callback does, and the result is the
      resolved table. */
  method UpdateResidencePeriods(
    trigger: Trigger, visible: bool, options: seq<Label>, dob: YearMonth, today: YearMonth,
    countries: seq<Option<Label>>, fromYears: seq<Option<int>>, fromMonths: seq<Option<int>>,
    untilYears: seq<Option<int>>, untilMonths: seq<Option<int>>)
    returns (cs: seq<Option<Label>>, fys: seq<Option<int>>, fms: seq<Option<int>>,
             uys: seq<Option<int>>, ums: seq<Option<int>>)
    requires |fromYears| == |countries| && |fromMonths| == |countries|
    requires |untilYears| == |countries| && |untilMonths| == |countries|
    requires Scannable(Prepared(Zip(countries, fromYears, fromMonths, untilYears, untilMonths),
                                trigger, visible, options, dob, today))
    ensures |fys| == |cs| && |fms| == |cs| && |uys| == |cs| && |ums| == |cs|
    ensures Zip(cs, fys, fms, uys, ums)
         == Resolved(Zip(countries, fromYears, fromMonths, untilYears, untilMonths),
                     trigger, visible, options, dob, today)
  {
    ghost var input := Zip(countries, fromYears, fromMonths, untilYears, untilMonths);
    cs, fys, fms, uys, ums := countries, fromYears, fromMonths, untilYears, untilMonths;
    // Remove the row whose button was clicked.
    if trigger.RemovePeriod? {
      var idx := trigger.index;
      ZipWithoutIndex(cs, fys, fms, uys, ums, idx);
      cs := WithoutIndex(cs, idx);
      fys := WithoutIndex(fys, idx);
      fms := WithoutIndex(fms, idx);
      uys := WithoutIndex(uys, idx);
      ums := WithoutIndex(ums, idx);
    }
    assert Zip(cs, fys, fms, uys, ums) == AfterRemove(input, trigger);
    // Always keep at least one row.
    if |cs| == 0 {
      var d := DefaultPeriod(options, dob, today);
      cs, fys, fms, uys, ums := [d.country], [d.fromYear], [d.fromMonth], [d.untilYear], [d.untilMonth];
    }
    ghost var kept := AtLeastOneRow(AfterRemove(input, trigger), options, dob, today);
    assert Zip(cs, fys, fms, uys, ums) == kept;
    // Append a row chained from the last one.
    if trigger == AddPeriod && visible {
      var used := set k | 0 <= k < |cs| :: cs[k];
      assert forall k :: 0 <= k < |cs| ==> kept[k].country == cs[k];
      assert used == CountriesOf(kept);
      var next := NextCountry(options, used);
      var lastUntilYear := if uys[|uys| - 1].Some? then uys[|uys| - 1].value else dob.year;
      var lastUntilMonth := if ums[|ums| - 1].Some? then ums[|ums| - 1].value else dob.month;
      assert Period(next, Some(lastUntilYear), Some(lastUntilMonth), Some(today.year), Some(today.month))
          == ChainedPeriod(kept, options, dob, today);
      ZipAppend(cs, fys, fms, uys, ums, ChainedPeriod(kept, options, dob, today));
      cs := cs + [next];
      fys := fys + [Some(lastUntilYear)];
      fms := fms + [Some(lastUntilMonth)];
      uys := uys + [Some(today.year)];
      ums := ums + [Some(today.month)];
    }
    assert Zip(cs, fys, fms, uys, ums) == Prepared(input, trigger, visible, options, dob, today);
    cs, fys, fms, uys, ums := TruncateAtFirstInvalid(cs, fys, fms, uys, ums);
  }
}

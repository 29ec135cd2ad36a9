/** Month-granular dates. The application compares `(year, month)` pairs as
    Python tuples, that is lexicographically, and treats a residence period
    as the half-open interval `[from, until)` of such pairs. */
module Calendar {

  datatype YearMonth = YearMonth(year: int, month: int)

  /** Python's tuple comparison `a < b` on `(year, month)`. */
  predicate Before(a: YearMonth, b: YearMonth) {
    a.year < b.year || (a.year == b.year && a.month < b.month)
  }

  /** Python's tuple comparison `a <= b` on `(year, month)`. */
  predicate NotAfter(a: YearMonth, b: YearMonth) {
    Before(a, b) || a == b
  }

  function Latest(a: YearMonth, b: YearMonth): YearMonth {
    if Before(a, b) then b else a
  }

  predicate ValidMonth(d: YearMonth) {
    1 <= d.month <= 12
  }

  /** The number of months from year 0, January excluded; for real dates
      it numbers the months consecutively. */
  function MonthNumber(d: YearMonth): int {
    d.year * 12 + d.month
  }

  /** For real dates the tuple order is the order of the month numbers. */
  lemma BeforeIsMonthOrder(a: YearMonth, b: YearMonth)
    requires ValidMonth(a) && ValidMonth(b)
    ensures Before(a, b) <==> MonthNumber(a) < MonthNumber(b)
  {
    if a.year < b.year {
      assert a.year * 12 + 12 <= b.year * 12;
    } else if b.year < a.year {
      assert b.year * 12 + 12 <= a.year * 12;
    }
  }

  /** Tuple order is a strict total order. */
  lemma BeforeTotal(a: YearMonth, b: YearMonth)
    ensures Before(a, b) || a == b || Before(b, a)
    ensures !(Before(a, b) && Before(b, a))
    ensures !Before(a, a)
  {
  }

  /** A residence period `[start, end)` in month space. */
  datatype Interval = Interval(start: YearMonth, end: YearMonth)

  predicate Within(t: YearMonth, i: Interval) {
    NotAfter(i.start, t) && Before(t, i.end)
  }

  predicate NonEmpty(i: Interval) {
    Before(i.start, i.end)
  }

  /** The application's overlap test, `not (this_until <= o_from or this_from >= o_until)`. */
  predicate Overlaps(a: Interval, b: Interval) {
    !(NotAfter(a.end, b.start) || NotAfter(b.end, a.start))
  }

  /** The test does not depend on which interval is "this" one. */
  lemma OverlapsSymmetric(a: Interval, b: Interval)
    ensures Overlaps(a, b) <==> Overlaps(b, a)
  {
  }

  /** Half-open: an interval that ends where the other starts does not overlap it. */
  lemma TouchingDoesNotOverlap(a: Interval, b: Interval)
    requires a.end == b.start
    ensures !Overlaps(a, b) && !Overlaps(b, a)
  {
  }

  /** For non-empty intervals the test means exactly that some month lies in both. */
  lemma OverlapsIffSharedMonth(a: Interval, b: Interval)
    requires NonEmpty(a) && NonEmpty(b)
    ensures Overlaps(a, b) <==> exists t :: Within(t, a) && Within(t, b)
  {
    if Overlaps(a, b) {
      var t := Latest(a.start, b.start);
      BeforeTotal(a.start, b.start);
      assert Within(t, a) && Within(t, b);
    }
    if exists t :: Within(t, a) && Within(t, b) {
      var t :| Within(t, a) && Within(t, b);
      BeforeTotal(a.end, b.start);
      BeforeTotal(b.end, a.start);
      assert !NotAfter(a.end, b.start);
    }
  }
}

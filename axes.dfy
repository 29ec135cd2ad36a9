/** The chart's axes: the yearly grid lines, the age ticks along the x axis
    and the country-count ticks along the y axis. The current age is
    `months / 12` for a whole number of months, so Python's `int`, `round`
    and `% 1` on it are computed exactly on the months. */
module Axes {

  /** Python's `int(months / 12)`: truncation toward zero. */
  function TruncYears(months: int): (r: int)
    ensures months >= 0 ==> 0 <= r && 12 * r <= months < 12 * r + 12
    ensures months < 0 ==> r <= 0 && 12 * r - 12 < months <= 12 * r
  {
    if months >= 0 then months / 12 else -((-months) / 12)
  }

  /** Python's `round(months / 12)`: the nearest whole year, a tie going to
      the even one. */
  function RoundYears(months: int): (r: int)
    ensures 12 * r - 6 <= months <= 12 * r + 6
    ensures months == 12 * r - 6 || months == 12 * r + 6 ==> r % 2 == 0
  {
    var q := months / 12;
    var rem := months % 12;
    if rem < 6 then q
    else if rem > 6 then q + 1
    else if q % 2 == 0 then q
    else q + 1
  }

  // ---------------------------------------------------------------------------
  // Grid lines

  /** A vertical grid line at a whole age; every fifth year is drawn stronger. */
  datatype GridLine = GridLine(age: int, major: bool)

  /** The grid lines for the ages `0 .. int(current_age)`. */
  function GridLines(months: int): (lines: seq<GridLine>)
    ensures |lines| == if TruncYears(months) >= 0 then TruncYears(months) + 1 else 0
    ensures forall k :: 0 <= k < |lines| ==> lines[k].age == k && (lines[k].major <==> k % 5 == 0)
    ensures months >= 0 ==> forall k :: 0 <= k < |lines| ==> 12 * lines[k].age <= months
  {
    var n := TruncYears(months) + 1;
    seq(if n > 0 then n else 0, k => GridLine(k, k % 5 == 0))
  }

  // ---------------------------------------------------------------------------
  // Age ticks

  /** Ticks every five years past age ten, every year before. */
  function TickStep(months: int): int {
    if months > 120 then 5 else 1
  }

  /** The age rounded up to a whole year (`int(age)`, plus one unless the
      age is whole). */
  function TickEnd(months: int): int {
    if months % 12 == 0 then TruncYears(months) else TruncYears(months) + 1
  }

  /** Python's `range(lo, hi, step)` for a positive step. */
  function StepRange(lo: int, hi: int, step: int): (r: seq<int>)
    requires step > 0
    ensures lo < hi <==> r != []
    ensures r != [] ==> r[0] == lo
    decreases hi - lo
  {
    if lo < hi then [lo] + StepRange(lo + step, hi, step) else []
  }

  /** The range stays within `[lo, hi)` and its last value is within one
      step of `hi`. */
  lemma {:induction false} StepRangeBounds(lo: int, hi: int, step: int)
    requires step > 0
    ensures var r := StepRange(lo, hi, step);
            (forall k :: 0 <= k < |r| ==> lo <= r[k] < hi) &&
            (r != [] ==> hi <= r[|r| - 1] + step)
    decreases hi - lo
  {
    if lo < hi {
      StepRangeBounds(lo + step, hi, step);
      var rest := StepRange(lo + step, hi, step);
      var r := StepRange(lo, hi, step);
      assert r == [lo] + rest;
      forall k | 0 < k < |r|
        ensures lo <= r[k] < hi
      {
        assert r[k] == rest[k - 1];
      }
    }
  }

  /** The values `v` with `v <= current_age`, in order. */
  function KeepUpTo(vs: seq<int>, months: int): (r: seq<int>)
    ensures forall v :: v in r <==> v in vs && 12 * v <= months
  {
    if vs == [] then []
    else
      var k := |vs| - 1;
      assert vs == vs[..k] + [vs[k]];
      KeepUpTo(vs[..k], months) + (if 12 * vs[k] <= months then [vs[k]] else [])
  }

  predicate Increasing(s: seq<int>) {
    forall i, j :: 0 <= i < j < |s| ==> s[i] < s[j]
  }

  /** The x tick values: every step from 0 to the rounded-up age, the age
      rounded to the nearest year when that lies past the last step, and
      then only the values not beyond the age. The source reads the last
      step, so the range must not be empty. */
  function XTickValues(months: int): seq<int>
    requires TickEnd(months) >= 0
  {
    var steps := StepRange(0, TickEnd(months) + 1, TickStep(months));
    var r := RoundYears(months);
    KeepUpTo(if steps[|steps| - 1] < r then steps + [r] else steps, months)
  }

  lemma {:induction false} StepRangeIncreasing(lo: int, hi: int, step: int)
    requires step > 0
    ensures Increasing(StepRange(lo, hi, step))
    decreases hi - lo
  {
    if lo < hi {
      StepRangeIncreasing(lo + step, hi, step);
      var r := StepRange(lo, hi, step);
      assert r == [lo] + StepRange(lo + step, hi, step);
      forall i, j | 0 <= i < j < |r|
        ensures r[i] < r[j]
      {
        if i == 0 {
          assert r[j] == StepRange(lo + step, hi, step)[j - 1];
        }
      }
    }
  }

  lemma {:induction false} KeepUpToIncreasing(vs: seq<int>, months: int)
    requires Increasing(vs)
    ensures Increasing(KeepUpTo(vs, months))
  {
    if vs != [] {
      var k := |vs| - 1;
      assert Increasing(vs[..k]);
      KeepUpToIncreasing(vs[..k], months);
      var front := KeepUpTo(vs[..k], months);
      var r := KeepUpTo(vs, months);
      assert r == front + (if 12 * vs[k] <= months then [vs[k]] else []);
      forall i, j | 0 <= i < j < |r|
        ensures r[i] < r[j]
      {
        if j >= |front| {
          assert r[i] in front && r[i] in vs[..k];
          var m :| 0 <= m < k && vs[..k][m] == r[i];
        }
      }
    }
  }

  /** Python's `range(lo, hi, step)` holds exactly the values `lo + j*step` below `hi`. */
  lemma {:induction false} StepRangeMembers(lo: int, hi: int, step: int, v: int)
    requires step == 1 || step == 5
    ensures v in StepRange(lo, hi, step) <==> lo <= v < hi && (v - lo) % step == 0
    decreases hi - lo
  {
    if lo < hi {
      StepRangeMembers(lo + step, hi, step, v);
      assert StepRange(lo, hi, step) == [lo] + StepRange(lo + step, hi, step);
      if step == 1 {
        assert (v - lo) % 1 == 0;
      } else {
        assert (v - lo) % 5 == (v - (lo + 5)) % 5;
      }
    }
  }

  /** The values the x ticks are filtered from. */
  function TickCandidates(months: int): (all: seq<int>)
    requires TickEnd(months) >= 0
    ensures XTickValues(months) == KeepUpTo(all, months)
  {
    var steps := StepRange(0, TickEnd(months) + 1, TickStep(months));
    var r := RoundYears(months);
    if steps[|steps| - 1] < r then steps + [r] else steps
  }

  /** The x ticks increase strictly and never pass the current age. */
  lemma XTicksIncreasing(months: int)
    requires TickEnd(months) >= 0
    ensures Increasing(XTickValues(months))
    ensures forall v :: v in XTickValues(months) ==> 12 * v <= months
  {
    var steps := StepRange(0, TickEnd(months) + 1, TickStep(months));
    StepRangeIncreasing(0, TickEnd(months) + 1, TickStep(months));
    var all := TickCandidates(months);
    assert Increasing(all);
    KeepUpToIncreasing(all, months);
  }

  /** A value is an x tick exactly when it is not past the current age and
      is either a multiple of the step up to the rounded-up age or the age
      rounded to the nearest year lying past the last such multiple. */
  lemma XTicksMembers(months: int, v: int)
    requires TickEnd(months) >= 0
    ensures var steps := StepRange(0, TickEnd(months) + 1, TickStep(months));
            v in XTickValues(months) <==>
              12 * v <= months &&
              ((0 <= v <= TickEnd(months) && v % TickStep(months) == 0)
               || (v == RoundYears(months) && steps[|steps| - 1] < v))
  {
    StepRangeMembers(0, TickEnd(months) + 1, TickStep(months), v);
    var all := TickCandidates(months);
    assert v in XTickValues(months) <==> v in all && 12 * v <= months;
  }

  /** Once the person is born the x ticks start at age 0. */
  lemma XTicksStartAtZero(months: int)
    requires months >= 0
    ensures TickEnd(months) >= 0
    ensures XTickValues(months) != [] && XTickValues(months)[0] == 0
  {
    XTicksMembers(months, 0);
    XTicksIncreasing(months);
    var ticks := XTickValues(months);
    var j :| 0 <= j < |ticks| && ticks[j] == 0;
    XTicksMembers(months, ticks[0]);
    assert 0 <= ticks[0] <= ticks[j];
  }

  /** The values of `range(lo, stop, step)`, listed by a loop. */
  method ListRange(lo: int, stop: int, step: int) returns (values: seq<int>)
    requires step > 0
    ensures values == StepRange(lo, stop, step)
  {
    values := [];
    var v := lo;
    while v < stop
      invariant values + StepRange(v, stop, step) == StepRange(lo, stop, step)
      decreases stop - v
    {
      ghost var rest := StepRange(v + step, stop, step);
      assert StepRange(v, stop, step) == [v] + rest;
      assert values + ([v] + rest) == (values + [v]) + rest;
      values := values + [v];
      v := v + step;
    }
  }

  /** The comprehension `[v for v in values if v <= current_age]`. */
  method FilterUpTo(values: seq<int>, months: int) returns (kept: seq<int>)
    ensures kept == KeepUpTo(values, months)
  {
    kept := [];
    var i := 0;
    while i < |values|
      invariant 0 <= i <= |values|
      invariant kept == KeepUpTo(values[..i], months)
    {
      assert values[..i + 1][..i] == values[..i];
      if 12 * values[i] <= months {
        kept := kept + [values[i]];
      }
      i := i + 1;
    }
    assert values[..|values|] == values;
  }

  /** The x ticks as `generate_plot` builds them: the range, the appended
      rounded age, then the filter. */
  method XTicks(months: int) returns (ticks: seq<int>)
    requires TickEnd(months) >= 0
    ensures ticks == XTickValues(months)
  {
    var step := if months > 120 then 5 else 1;
    var values := ListRange(0, TickEnd(months) + 1, step);
    var r := RoundYears(months);
    if values[|values| - 1] < r {
      values := values + [r];
    }
    ticks := FilterUpTo(values, months);
  }

  // ---------------------------------------------------------------------------
  // Country-count ticks

  /** The y tick positions for `n` countries: row boundaries `n - 0.5 - 5i`,
      and the top edge `-0.5` first when `n` is not a multiple of five. */
  function YTickVals(n: nat): seq<real> {
    var main := seq(n / 5 + 1, i => n as real - 0.5 - (5 * i) as real);
    if n % 5 != 0 then [-0.5] + main else main
  }

  /** The y tick labels: `0, 5, 10, …`, and `n` first when `n` is not a
      multiple of five. */
  function YTickText(n: nat): seq<int> {
    var main := seq(n / 5 + 1, i => 5 * i);
    if n % 5 != 0 then [n] + main else main
  }

  /** Every label `c` sits at `n - 0.5 - c`, the boundary below which `c`
      countries lie (the axis is reversed); the label `n` appears exactly
      once, at the top edge `-0.5`; and the labels are exactly the multiples
      of five from 0 up to n, together with n. */
  lemma YTicksPaired(n: nat)
    ensures |YTickVals(n)| == |YTickText(n)|
    ensures forall k :: 0 <= k < |YTickText(n)| ==>
              YTickVals(n)[k] == n as real - 0.5 - YTickText(n)[k] as real
    ensures forall k :: 0 <= k < |YTickText(n)| ==> 0 <= YTickText(n)[k] <= n
    ensures exists k :: 0 <= k < |YTickText(n)| && YTickText(n)[k] == n && YTickVals(n)[k] == -0.5
    ensures forall k, k' :: 0 <= k < |YTickText(n)| && 0 <= k' < |YTickText(n)| &&
              YTickText(n)[k] == n && YTickText(n)[k'] == n
              ==> k == k'
    ensures forall c :: c in YTickText(n) <==> (0 <= c <= n && c % 5 == 0) || c == n
  {
    var q := n / 5;
    var t := YTickText(n);
    var off := if n % 5 != 0 then 1 else 0;
    forall c | 0 <= c <= n && c % 5 == 0
      ensures c in t
    {
      assert c == 5 * (c / 5) && c / 5 <= q;
      assert t[c / 5 + off] == c;
    }
    forall c | c in t
      ensures (0 <= c <= n && c % 5 == 0) || c == n
    {
      var k :| 0 <= k < |t| && t[k] == c;
      if k >= off {
        assert c == 5 * (k - off);
      }
    }
    assert 5 * q <= n;
    if n % 5 == 0 {
      assert YTickText(n)[q] == n;
    } else {
      assert YTickText(n)[0] == n;
    }
  }
}

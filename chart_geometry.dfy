/** The layout numbers of the "countries visited by age" chart: its height,
    the bar and flag heights in data units, the zebra bands, the right end
    of the age axis, where each flag and each name label goes, and the
    summary percentage. Ages are exact rationals here. */
module ChartGeometry {

  /** Flag height in pixels, the clamp `min(82, max(42, 62))`. */
  const FlagHeightPx: int := 62
  /** Each country's slot: the flag plus one pixel above and below. */
  const SlotHeightPx: int := FlagHeightPx + 2
  const MinChartHeightPx: int := 600
  /** Gap in pixels between neighbouring bars and around each flag. */
  const MarginPx: real := 1.0

  /** The figure height in pixels for `n` countries. */
  function ChartHeight(n: nat): (h: int)
    ensures h >= MinChartHeightPx && h >= n * SlotHeightPx
    ensures h == MinChartHeightPx || h == n * SlotHeightPx
  {
    if MinChartHeightPx < n * SlotHeightPx then n * SlotHeightPx else MinChartHeightPx
  }

  /** More countries never make the chart shorter. */
  lemma ChartHeightMonotone(n: nat, m: nat)
    requires n <= m
    ensures ChartHeight(n) <= ChartHeight(m)
  {
    assert n * SlotHeightPx <= m * SlotHeightPx;
  }

  /** Pixels per row of the y axis (each country is one data unit). */
  function PixelsPerDataUnit(n: nat): real {
    if n > 0 then ChartHeight(n) as real / n as real else 1.0
  }

  function MarginDataUnits(n: nat): real {
    MarginPx / PixelsPerDataUnit(n)
  }

  /** The bar thickness in data units: the row less a margin above and below. */
  function BarHeight(n: nat): real {
    1.0 - 2.0 * MarginDataUnits(n)
  }

  /** The flag height in data units: the bar less a margin above and below. */
  function FlagHeight(n: nat): real {
    BarHeight(n) - 2.0 * MarginDataUnits(n)
  }

  lemma AtLeastSlotPixelsPerRow(n: nat)
    requires n > 0
    ensures PixelsPerDataUnit(n) >= SlotHeightPx as real
  {
    var h := ChartHeight(n) as real;
    var k := n as real;
    assert h >= SlotHeightPx as real * k;
    assert (h / k) * k == h;
  }

  /** With countries on the chart, the margin is one pixel, and the flag is
      thinner than the bar, which is thinner than its row; both are visible. */
  lemma BarAndFlagHeights(n: nat)
    requires n > 0
    ensures MarginDataUnits(n) * PixelsPerDataUnit(n) == MarginPx
    ensures 0.0 < FlagHeight(n) < BarHeight(n) < 1.0
  {
    AtLeastSlotPixelsPerRow(n);
    var p := PixelsPerDataUnit(n);
    var m := MarginDataUnits(n);
    assert m * p == 1.0;
    assert 0.0 < m;
    assert m <= 1.0 / 64.0;
  }

  /** The zebra band of chart row `i`: rows come in bands of five counted
      from the bottom row, alternating between the two greens. */
  function Block(n: int, i: int): (b: int)
    ensures b == 0 || b == 1
  {
    ((n - 1 - i) / 5) % 2
  }

  /** The bottom row is in the first band, a row shares its band with the
      row above it unless it is the top of a group of five counted from the
      bottom, and moving five rows flips the band. */
  lemma ZebraBands(n: int, i: int)
    ensures Block(n, n - 1) == 0
    ensures (n - 1 - i) % 5 != 0 ==> Block(n, i) == Block(n, i + 1)
    ensures Block(n, i) != Block(n, i + 5)
  {
    var a := n - 1 - i - 5;
    assert n - 1 - i == a + 5;
    assert (a + 5) / 5 == a / 5 + 1;
    var d := n - 1 - i;
    if d % 5 != 0 {
      assert d == 5 * (d / 5) + d % 5;
      assert d - 1 == 5 * (d / 5) + (d % 5 - 1);
      assert (d - 1) / 5 == d / 5;
    }
  }

  function Max(a: real, b: real): real { if a < b then b else a }
  function Min(a: real, b: real): real { if b < a then b else a }

  /** The space right of the last age: a fifth of the current age, at least
      one year and at most two. */
  function Padding(currentAge: real): (p: real)
    ensures 1.0 <= p <= 2.0
    ensures 5.0 <= currentAge <= 10.0 ==> p == currentAge * 0.2
    ensures currentAge <= 5.0 ==> p == 1.0
    ensures currentAge >= 10.0 ==> p == 2.0
  {
    Max(1.0, Min(2.0, currentAge * 0.2))
  }

  /** `x_axis_max`: the later of the current age and the oldest visit age,
      plus the padding. */
  function XAxisMax(currentAge: real, maxVisitAge: real): (x: real)
    ensures x >= currentAge + 1.0 && x >= maxVisitAge + 1.0
    ensures x <= currentAge + 2.0 || x <= maxVisitAge + 2.0
    ensures currentAge <= 5.0 ==> x == Max(currentAge, maxVisitAge) + 1.0
    ensures 5.0 <= currentAge <= 10.0 ==> x == Max(currentAge, maxVisitAge) + currentAge * 0.2
    ensures currentAge >= 10.0 ==> x == Max(currentAge, maxVisitAge) + 2.0
  {
    Max(currentAge, maxVisitAge) + Padding(currentAge)
  }

  const FlagWidth: real := 2.5

  datatype FlagPlacement = FlagPlacement(x: real, centred: bool)

  /** A flag starts at the visit age; when that would overflow the axis it
      is centred on the visit age instead, moved only as far as needed to
      stay half a flag inside each end. */
  function PlaceFlag(age: real, xMax: real): (f: FlagPlacement)
    ensures !f.centred <==> age + FlagWidth <= xMax
    ensures !f.centred ==> f.x == age
    ensures f.centred ==> f.x <= xMax - FlagWidth / 2.0
    ensures f.centred && xMax >= FlagWidth ==> f.x >= FlagWidth / 2.0
    ensures f.centred && FlagWidth / 2.0 <= age <= xMax - FlagWidth / 2.0 ==> f.x == age
    ensures f.centred ==> f.x == age || f.x == xMax - FlagWidth / 2.0 || f.x == FlagWidth / 2.0
    ensures f.centred && age > xMax - FlagWidth / 2.0 ==> f.x == xMax - FlagWidth / 2.0
    ensures f.centred && age < FlagWidth / 2.0 && xMax >= FlagWidth ==> f.x == FlagWidth / 2.0
  {
    if age + FlagWidth > xMax then FlagPlacement(Min(xMax - FlagWidth / 2.0, Max(FlagWidth / 2.0, age)), true)
    else FlagPlacement(age, false)
  }

  /** Distance from the visit age to the name label, and the label's
      estimated width, in years. */
  const LabelOffset: real := 2.7
  const LabelWidth: real := 2.5

  datatype LabelPlacement = LabelPlacement(x: real, flipped: bool)

  /** The name label goes right of the flag; when it would overflow the
      axis it is flipped to the left, but not left of age zero. */
  function PlaceLabel(age: real, xMax: real): (l: LabelPlacement)
    ensures !l.flipped <==> age + LabelOffset + LabelWidth <= xMax
    ensures !l.flipped ==> l.x == age + LabelOffset
    ensures l.flipped ==> l.x >= 0.0 && l.x >= age - LabelOffset
    ensures l.flipped ==> l.x == 0.0 || l.x == age - LabelOffset
  {
    if age + LabelOffset + LabelWidth > xMax then LabelPlacement(Max(age - LabelOffset, 0.0), true)
    else LabelPlacement(age + LabelOffset, false)
  }

  /** The summary's "percent of your age": countries per year of age, times
      100, and 0 before the first birthday month has passed. */
  function Percent(n: nat, currentAge: real): (p: real)
    ensures currentAge > 0.0 ==> p * currentAge == 100.0 * n as real
    ensures currentAge <= 0.0 ==> p == 0.0
    ensures p >= 0.0
  {
    if currentAge > 0.0 then (n as real / currentAge) * 100.0 else 0.0
  }
}

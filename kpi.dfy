/** The indicator cards: choosing the two comparison years, the per-metric
    current/previous means and their percent change, the value formatters, and
    the most frequent regime type of the current year. */
module Kpi {
  import opened Cells
  import opened Tables
  import opened Aggregation

  // ---------------------------------------------------------------------------
  // Comparison periods
  // ---------------------------------------------------------------------------

  /** The previous and the current year of a comparison. */
  datatype Periods = Periods(prev: int, curr: int)

  /** `years = sorted(filtered['Year'].unique())`; with at least two of them the
      current year is `years[-1]` and the previous one `years[-2]`. */
  function ComparisonPeriods(rows: seq<Record>): Option<Periods> {
    var ys := SortedYears(rows);
    if |ys| < 2 then None else Some(Periods(ys[|ys| - 2], ys[|ys| - 1]))
  }

  /** There is no comparison exactly when the rows do not span two distinct
      years. Otherwise the current year is the latest year present and the
      previous year is the latest year present before it, which need not be
      the calendar year before. */
  lemma PeriodsSpec(rows: seq<Record>)
    ensures ComparisonPeriods(rows).None? <==>
              forall r1, r2 :: r1 in rows && r2 in rows ==> r1.year == r2.year
    ensures ComparisonPeriods(rows).Some? ==>
              var p := ComparisonPeriods(rows).value;
              && p.prev < p.curr
              && p.prev in Years(rows) && p.curr in Years(rows)
              && (forall y :: y in Years(rows) ==> y <= p.curr)
              && (forall y :: y in Years(rows) && y < p.curr ==> y <= p.prev)
  {
    var ys := SortedYears(rows);
    if |ys| < 2 {
      forall r1, r2 | r1 in rows && r2 in rows ensures r1.year == r2.year {
        assert r1.year in Years(rows) && r2.year in Years(rows);
        assert r1.year in ys && r2.year in ys;
      }
    } else {
      assert ys[0] in Years(rows) && ys[1] in Years(rows);
      var r1 :| r1 in rows && r1.year == ys[0];
      var r2 :| r2 in rows && r2.year == ys[1];
      assert r1.year != r2.year;
      var n := |ys|;
      forall y | y in Years(rows) ensures y <= ys[n - 1] && (y < ys[n - 1] ==> y <= ys[n - 2]) {
        assert y in ys;
      }
    }
  }

  // ---------------------------------------------------------------------------
  // Per-metric comparison
  // ---------------------------------------------------------------------------

  /** Current-year mean, previous-year mean and the percent change between them. */
  datatype Delta = Delta(curr: real, prev: real, pct: real)

  /** `((curr - prev) / prev) * 100`. */
  function PercentChange(curr: real, prev: real): real
    requires prev != 0.0
  {
    (curr - prev) / prev * 100.0
  }

  /** The guards and arithmetic shared by `calc_kpi` and `calc_kpi_large`: no
      comparison for an unknown column, a missing mean in either year, or a
      previous mean of exactly zero. */
  function Compare(columns: set<string>, cur: seq<Record>, prev: seq<Record>, col: string): (d: Option<Delta>)
    ensures d.None? <==>
              || col !in columns
              || ColumnMean(cur, col).None? || ColumnMean(prev, col).None?
              || ColumnMean(prev, col).value == 0.0
    ensures d.Some? ==>
              && ColumnMean(cur, col) == Some(d.value.curr)
              && ColumnMean(prev, col) == Some(d.value.prev)
              && d.value.pct * d.value.prev == (d.value.curr - d.value.prev) * 100.0
  {
    if col !in columns then None
    else
      var c := ColumnMean(cur, col);
      var p := ColumnMean(prev, col);
      if c.None? || p.None? || p.value == 0.0 then None
      else Some(Delta(c.value, p.value, PercentChange(c.value, p.value)))
  }

  /** The change counts as non-negative exactly when the current mean is at
      least the previous one on a positive base, or at most it on a negative
      base: for a negative previous mean a rise reads as a negative change. */
  lemma PercentChangeSign(curr: real, prev: real)
    requires prev != 0.0
    ensures PercentChange(curr, prev) >= 0.0 <==> (prev > 0.0 && curr >= prev) || (prev < 0.0 && curr <= prev)
  {
    var q := (curr - prev) / prev;
    assert q * prev == curr - prev;
    if prev > 0.0 {
      if curr >= prev { assert q >= 0.0; } else { assert q < 0.0; }
    } else {
      if curr <= prev { assert q >= 0.0; } else { assert q < 0.0; }
    }
  }

  // ---------------------------------------------------------------------------
  // Rendering
  // ---------------------------------------------------------------------------

  /** A rendered value: "-" or a number printed with one decimal (`'{:.1f}'`)
      followed by a suffix. The digits themselves are not modelled. */
  datatype Rendered = Dash | Decimal(value: real, suffix: string)

  const BILLION: real := 1000000000.0
  const MILLION: real := 1000000.0
  const THOUSAND: real := 1000.0

  /** The factor a suffix stands for. */
  function Scale(suffix: string): real {
    if suffix == "B" then BILLION
    else if suffix == "M" then MILLION
    else if suffix == "K" then THOUSAND
    else 1.0
  }

  /** `'{:.1f}'.format(x)`. */
  function FormatFixed(x: real): Rendered {
    Decimal(x, "")
  }

  /** `format_large(val)`: the thresholds are tested from the largest down, so
      exactly one band applies; anything below 1e3, negatives included, is
      printed unscaled. */
  function FormatLarge(v: Option<real>): (r: Rendered)
    ensures r == Dash <==> v.None?
    ensures v.Some? ==> r.Decimal? && (r.suffix == "B" <==> v.value >= BILLION)
    ensures v.Some? ==> r.Decimal? && (r.suffix == "M" <==> MILLION <= v.value < BILLION)
    ensures v.Some? ==> r.Decimal? && (r.suffix == "K" <==> THOUSAND <= v.value < MILLION)
    ensures v.Some? ==> r.Decimal? && (r.suffix == "" <==> v.value < THOUSAND)
  {
    if v.None? then Dash
    else if v.value >= BILLION then Decimal(v.value / BILLION, "B")
    else if v.value >= MILLION then Decimal(v.value / MILLION, "M")
    else if v.value >= THOUSAND then Decimal(v.value / THOUSAND, "K")
    else Decimal(v.value, "")
  }

  /** Scaling loses nothing: the printed mantissa times its suffix's factor is
      the value, and a K or M mantissa lies in [1, 1000), a B one is at least 1. */
  lemma FormatLargeScaling(x: real)
    ensures FormatLarge(Some(x)).value * Scale(FormatLarge(Some(x)).suffix) == x
    ensures FormatLarge(Some(x)).suffix != "" ==> 1.0 <= FormatLarge(Some(x)).value
    ensures FormatLarge(Some(x)).suffix in {"K", "M"} ==> FormatLarge(Some(x)).value < 1000.0
  {
    var r := FormatLarge(Some(x));
    if x >= BILLION {
      assert r.value * BILLION == x;
    } else if x >= MILLION {
      assert r.value * MILLION == x;
    } else if x >= THOUSAND {
      assert r.value * THOUSAND == x;
    }
  }

  /** The band edges: 999 stays unscaled, 1000 is 1.0K, 999999 is still K
      (999.999, printed as 1000.0K), 1000000 is 1.0M, 2.5e9 is 2.5B, and a
      negative value is never scaled. */
  lemma FormatLargeBoundaries()
    ensures FormatLarge(Some(999.0)) == Decimal(999.0, "")
    ensures FormatLarge(Some(1000.0)) == Decimal(1.0, "K")
    ensures FormatLarge(Some(999999.0)) == Decimal(999.999, "K")
    ensures FormatLarge(Some(1000000.0)) == Decimal(1.0, "M")
    ensures FormatLarge(Some(2500000000.0)) == Decimal(2.5, "B")
    ensures FormatLarge(Some(-5000000.0)) == Decimal(-5000000.0, "")
    ensures FormatLarge(None) == Dash
  {
  }

  // ---------------------------------------------------------------------------
  // Indicator cards
  // ---------------------------------------------------------------------------

  /** The subtitle under a card value: "" (nothing compared), "-" (comparison
      unavailable) or "vs prev <prev> (<sign><pct>%)" with its style class. */
  datatype Sub = Blank | DashSub | VsPrev(prev: Rendered, sign: string, pct: real, tone: string)

  /** A card's value and its subtitle. */
  datatype KpiCard = KpiCard(value: Rendered, sub: Sub)

  /** `calc_kpi` formats with `'{:.1f}'`, `calc_kpi_large` with `format_large`. */
  datatype Style = Plain | Large

  function Render(style: Style, x: real): Rendered {
    match style
    case Plain => FormatFixed(x)
    case Large => FormatLarge(Some(x))
  }

  function SignPrefix(pct: real): string {
    if pct >= 0.0 then "+" else ""
  }

  function ToneClass(pct: real): string {
    if pct >= 0.0 then "kpi-positive" else "kpi-negative"
  }

  /** `calc_kpi(col)` / `calc_kpi_large(col)` on the current-year and the
      previous-year slices. */
  function CalcKpi(style: Style, columns: set<string>, cur: seq<Record>, prev: seq<Record>, col: string): (k: KpiCard)
  {
    match Compare(columns, cur, prev, col)
    case None => KpiCard(Dash, DashSub)
    case Some(d) => KpiCard(Render(style, d.curr), VsPrev(Render(style, d.prev), SignPrefix(d.pct), d.pct, ToneClass(d.pct)))
  }

  /** A card shows ("-", "-") exactly when the column is unknown, either mean is
      missing or the previous mean is exactly zero, whatever the current mean.
      Otherwise it shows both means in the card's style and the percent change
      p with p * prev == (curr - prev) * 100, and the "+" prefix and the
      positive style go together, exactly when p >= 0. */
  lemma CalcKpiSpec(style: Style, columns: set<string>, cur: seq<Record>, prev: seq<Record>, col: string)
    ensures var k := CalcKpi(style, columns, cur, prev, col);
            k == KpiCard(Dash, DashSub) <==>
              || col !in columns
              || ColumnMean(cur, col).None? || ColumnMean(prev, col).None?
              || ColumnMean(prev, col).value == 0.0
    ensures var k := CalcKpi(style, columns, cur, prev, col);
            k.sub != DashSub ==>
              && k.sub.VsPrev?
              && ColumnMean(cur, col).Some? && ColumnMean(prev, col).Some?
              && k.value == Render(style, ColumnMean(cur, col).value)
              && k.sub.prev == Render(style, ColumnMean(prev, col).value)
              && k.sub.pct * ColumnMean(prev, col).value == (ColumnMean(cur, col).value - ColumnMean(prev, col).value) * 100.0
              && (k.sub.sign == "+" <==> k.sub.pct >= 0.0)
              && (k.sub.tone == "kpi-positive" <==> k.sub.pct >= 0.0)
              && (k.sub.tone == "kpi-negative" <==> k.sub.pct < 0.0)
  {
    var d := Compare(columns, cur, prev, col);
    if d.Some? {
      assert Render(style, d.value.curr) != Dash;
    }
  }

  // ---------------------------------------------------------------------------
  // Regime type
  // ---------------------------------------------------------------------------

  /** The non-missing values of column `col`, in row order. */
  function Present(rows: seq<Record>, col: string): (vs: seq<Cell>)
    ensures forall v :: v in vs ==> v != Missing && exists r :: r in rows && Lookup(r, col) == v
    ensures forall r :: r in rows && Lookup(r, col) != Missing ==> Lookup(r, col) in vs
    decreases |rows|
  {
    if |rows| == 0 then []
    else
      var rest := Present(rows[1..], col);
      assert forall r :: r in rows ==> r == rows[0] || r in rows[1..];
      (if Lookup(rows[0], col) != Missing then [Lookup(rows[0], col)] else []) + rest
  }

  /** The values the mode counts: each present value as often as rows hold it. */
  lemma {:induction false} PresentCounts(rows: seq<Record>, col: string)
    ensures forall v :: v != Missing ==> multiset(Present(rows, col))[v] == Occurrences(rows, col, v)
    ensures multiset(Present(rows, col))[Missing] == 0
    decreases |rows|
  {
    if |rows| > 0 {
      PresentCounts(rows[1..], col);
    }
  }

  /** Among `cands`, a value occurring most often in `all`, the least such one
      in the cell order: `mode()` lists the modes sorted and `[0]` takes the first. */
  function FirstMode(cands: seq<Cell>, all: seq<Cell>): (m: Cell)
    requires |cands| > 0
    ensures m in cands
    ensures forall x :: x in cands ==> multiset(all)[x] <= multiset(all)[m]
    ensures forall x :: x in cands && multiset(all)[x] == multiset(all)[m] ==> CellLeq(m, x)
    decreases |cands|
  {
    if |cands| == 1 then cands[0]
    else
      var b := FirstMode(cands[1..], all);
      var x := cands[0];
      assert forall y :: y in cands ==> y == x || y in cands[1..];
      if multiset(all)[x] > multiset(all)[b] || (multiset(all)[x] == multiset(all)[b] && CellLess(x, b)) then
        assert forall y :: y in cands[1..] && multiset(all)[y] == multiset(all)[x] ==> CellLeq(x, y) by {
          forall y | y in cands[1..] && multiset(all)[y] == multiset(all)[x] ensures CellLeq(x, y) {
            if CellLess(b, y) { CellLessTransitive(x, b, y); }
          }
        }
        x
      else
        CellLessTotal(x, b);
        b
  }

  /** What the regime card shows: "-", the mode, or nothing at all because
      `mode()[0]` raises on a slice whose values are all missing. */
  datatype RegimeOut = NoRegime | Regime(value: Cell) | ModeFails

  /** `c_df[col].mode()[0] if col in c_df.columns and not c_df[col].empty else "-"`. */
  function RegimeMode(columns: set<string>, slice: seq<Record>, col: string): RegimeOut {
    if col !in columns || |slice| == 0 then NoRegime
    else
      var vs := Present(slice, col);
      if |vs| == 0 then ModeFails else Regime(FirstMode(vs, vs))
  }

  /** "-" exactly for an unknown column or an empty slice; a failure exactly when
      every value is missing; otherwise a value of the slice that no other value
      outnumbers, the least of those tied with it. */
  lemma RegimeModeSpec(columns: set<string>, slice: seq<Record>, col: string)
    ensures RegimeMode(columns, slice, col).NoRegime? <==> col !in columns || |slice| == 0
    ensures RegimeMode(columns, slice, col).ModeFails? <==>
              col in columns && |slice| > 0 && forall r :: r in slice ==> Lookup(r, col) == Missing
    ensures RegimeMode(columns, slice, col).Regime? ==>
              var m := RegimeMode(columns, slice, col).value;
              && m != Missing
              && (exists r :: r in slice && Lookup(r, col) == m)
              && (forall r :: r in slice && Lookup(r, col) != Missing ==>
                    Occurrences(slice, col, Lookup(r, col)) <= Occurrences(slice, col, m))
              && (forall r ::
                    (r in slice && Lookup(r, col) != Missing &&
                     Occurrences(slice, col, Lookup(r, col)) == Occurrences(slice, col, m)) ==>
                    CellLeq(m, Lookup(r, col)))
  {
    var vs := Present(slice, col);
    PresentCounts(slice, col);
    if |vs| > 0 {
      assert vs[0] in vs;
    }
  }

  /** Ties go to the least value: with "A" and "B" twice each, "A" is shown. */
  lemma ModeTieBreak()
    ensures FirstMode([Text("A"), Text("A"), Text("B"), Text("B")], [Text("A"), Text("A"), Text("B"), Text("B")]) == Text("A")
  {
    var all := [Text("A"), Text("A"), Text("B"), Text("B")];
    assert StrLess("A", "B");
    assert multiset(all)[Text("A")] == 2 && multiset(all)[Text("B")] == 2;
  }
}

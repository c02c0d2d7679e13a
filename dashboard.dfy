/** The `update_dashboard` callback as one function of the canonical table and
    the dropdown values: three charts, six indicator cards and the regime card. */
module Dashboard {
  import opened Cells
  import opened Tables
  import opened Aggregation
  import opened Kpi
  import opened Options

  const CO2_EMISSIONS := "CO2_Emissions"
  const GDP := "GDP"
  const NAT_RES_DEPLETION := "Nat_Res_Depletion"
  const INFLATION := "Inflation"
  const WOMEN_PARLIAMENT := "Women_Parliament"
  const LIFE_EXP := "Life_Exp"
  const REGIME_TYPE := "Regime_Type"

  /** Everything the callback outputs, in its order. */
  datatype View = View(
    env: Chart, econ: Chart, sdg: Chart,
    co2: KpiCard, gdp: KpiCard, natres: KpiCard,
    inflation: KpiCard, women: KpiCard, health: KpiCard,
    regime: RegimeOut)

  /** A card before any comparison: value "-", subtitle "". */
  const BLANK_CARD := KpiCard(Dash, Blank)

  /** The output for a selection that is not usable: "" for each chart, "-" and
      "" for each card. */
  const EMPTY_VIEW := View(NoChart, NoChart, NoChart,
                           BLANK_CARD, BLANK_CARD, BLANK_CARD, BLANK_CARD, BLANK_CARD, BLANK_CARD,
                           NoRegime)

  /** `not group or not entity or group not in df_filtered.columns`. */
  predicate SelectionInvalid(frame: Frame, group: Option<string>, entity: Cell) {
    GroupInvalid(frame, group) || Falsy(entity)
  }

  /** `update_dashboard(group, entity, env_metric, econ_metric, sdg_metric)`. */
  function UpdateDashboard(frame: Frame, group: Option<string>, entity: Cell,
                           envMetric: string, econMetric: string, sdgMetric: string): View
  {
    if SelectionInvalid(frame, group, entity) then EMPTY_VIEW
    else
      var filtered := Filter(frame.rows, group.value, entity);
      var env := LineChart(frame.columns, filtered, envMetric);
      var econ := LineChart(frame.columns, filtered, econMetric);
      var sdg := LineChart(frame.columns, filtered, sdgMetric);
      var noKpis := View(env, econ, sdg,
                         BLANK_CARD, BLANK_CARD, BLANK_CARD, BLANK_CARD, BLANK_CARD, BLANK_CARD,
                         NoRegime);
      if |filtered| == 0 then noKpis
      else match ComparisonPeriods(filtered)
        case None => noKpis
        case Some(p) =>
          var cur := YearSlice(filtered, p.curr);
          var prev := YearSlice(filtered, p.prev);
          View(env, econ, sdg,
               CalcKpi(Large, frame.columns, cur, prev, CO2_EMISSIONS),
               CalcKpi(Large, frame.columns, cur, prev, GDP),
               CalcKpi(Plain, frame.columns, cur, prev, NAT_RES_DEPLETION),
               CalcKpi(Plain, frame.columns, cur, prev, INFLATION),
               CalcKpi(Plain, frame.columns, cur, prev, WOMEN_PARLIAMENT),
               CalcKpi(Plain, frame.columns, cur, prev, LIFE_EXP),
               RegimeMode(frame.columns, cur, REGIME_TYPE))
  }

  /** A missing or unknown group, or a falsy entity, gives the empty view. */
  lemma InvalidSelectionIsEmpty(frame: Frame, group: Option<string>, entity: Cell,
                                envMetric: string, econMetric: string, sdgMetric: string)
    requires SelectionInvalid(frame, group, entity)
    ensures UpdateDashboard(frame, group, entity, envMetric, econMetric, sdgMetric) == EMPTY_VIEW
  {
  }

  /** For a usable selection each chart aggregates exactly the rows whose group
      column equals the entity, kept in table order. */
  lemma ChartsUseSelection(frame: Frame, group: Option<string>, entity: Cell,
                           envMetric: string, econMetric: string, sdgMetric: string)
    requires !SelectionInvalid(frame, group, entity)
    ensures var v := UpdateDashboard(frame, group, entity, envMetric, econMetric, sdgMetric);
            var filtered := Filter(frame.rows, group.value, entity);
            && v.env == LineChart(frame.columns, filtered, envMetric)
            && v.econ == LineChart(frame.columns, filtered, econMetric)
            && v.sdg == LineChart(frame.columns, filtered, sdgMetric)
            && (forall r :: r in filtered ==> r in frame.rows && Lookup(r, group.value) == entity)
            && (forall i :: 0 <= i < |frame.rows| && Lookup(frame.rows[i], group.value) == entity ==> frame.rows[i] in filtered)
            && Subsequence(filtered, frame.rows)
  {
    FilterSpec(frame.rows, group.value, entity);
  }

  /** When the selected rows do not span two distinct years (in particular when
      there are none), every card shows "-" with an empty subtitle and the
      regime card shows "-". */
  lemma InsufficientHistory(frame: Frame, group: Option<string>, entity: Cell,
                            envMetric: string, econMetric: string, sdgMetric: string)
    requires !SelectionInvalid(frame, group, entity)
    requires forall r1, r2 :: r1 in Filter(frame.rows, group.value, entity) && r2 in Filter(frame.rows, group.value, entity) ==>
               r1.year == r2.year
    ensures var v := UpdateDashboard(frame, group, entity, envMetric, econMetric, sdgMetric);
            && v.co2 == BLANK_CARD && v.gdp == BLANK_CARD && v.natres == BLANK_CARD
            && v.inflation == BLANK_CARD && v.women == BLANK_CARD && v.health == BLANK_CARD
            && v.regime == NoRegime
  {
    PeriodsSpec(Filter(frame.rows, group.value, entity));
  }

  /** When the selected rows span two or more distinct years, the cards compare
      the latest year with the latest earlier year present (gaps allowed):
      CO2 and GDP in the scaled format, the other four unscaled, and the regime
      card summarises the latest year. */
  lemma ComparesLatestYears(frame: Frame, group: Option<string>, entity: Cell,
                            envMetric: string, econMetric: string, sdgMetric: string)
    requires !SelectionInvalid(frame, group, entity)
    requires exists r1, r2 :: r1 in Filter(frame.rows, group.value, entity) && r2 in Filter(frame.rows, group.value, entity) &&
               r1.year != r2.year
    ensures var v := UpdateDashboard(frame, group, entity, envMetric, econMetric, sdgMetric);
            var filtered := Filter(frame.rows, group.value, entity);
            exists prev, curr ::
              && prev < curr
              && prev in Years(filtered) && curr in Years(filtered)
              && (forall y :: y in Years(filtered) ==> y <= curr)
              && (forall y :: y in Years(filtered) && y < curr ==> y <= prev)
              && var cur := YearSlice(filtered, curr);
                 var before := YearSlice(filtered, prev);
                 && v.co2 == CalcKpi(Large, frame.columns, cur, before, CO2_EMISSIONS)
                 && v.gdp == CalcKpi(Large, frame.columns, cur, before, GDP)
                 && v.natres == CalcKpi(Plain, frame.columns, cur, before, NAT_RES_DEPLETION)
                 && v.inflation == CalcKpi(Plain, frame.columns, cur, before, INFLATION)
                 && v.women == CalcKpi(Plain, frame.columns, cur, before, WOMEN_PARLIAMENT)
                 && v.health == CalcKpi(Plain, frame.columns, cur, before, LIFE_EXP)
                 && v.regime == RegimeMode(frame.columns, cur, REGIME_TYPE)
  {
    var filtered := Filter(frame.rows, group.value, entity);
    PeriodsSpec(filtered);
    var p := ComparisonPeriods(filtered).value;
    assert |filtered| > 0;
    var cur := YearSlice(filtered, p.curr);
    var before := YearSlice(filtered, p.prev);
    assert UpdateDashboard(frame, group, entity, envMetric, econMetric, sdgMetric) ==
           View(LineChart(frame.columns, filtered, envMetric),
                LineChart(frame.columns, filtered, econMetric),
                LineChart(frame.columns, filtered, sdgMetric),
                CalcKpi(Large, frame.columns, cur, before, CO2_EMISSIONS),
                CalcKpi(Large, frame.columns, cur, before, GDP),
                CalcKpi(Plain, frame.columns, cur, before, NAT_RES_DEPLETION),
                CalcKpi(Plain, frame.columns, cur, before, INFLATION),
                CalcKpi(Plain, frame.columns, cur, before, WOMEN_PARLIAMENT),
                CalcKpi(Plain, frame.columns, cur, before, LIFE_EXP),
                RegimeMode(frame.columns, cur, REGIME_TYPE));
  }

  /** A table of two years of one continent, CO2 rising from 80 to 100. */
  function ScenarioFrame(): Frame {
    Frame({CONTINENT, YEAR, CO2_EMISSIONS},
          [Record(2019, map[CONTINENT := Text("X"), CO2_EMISSIONS := Num(80.0)]),
           Record(2020, map[CONTINENT := Text("X"), CO2_EMISSIONS := Num(100.0)])])
  }

  lemma ScenarioFilter()
    ensures Filter(ScenarioFrame().rows, CONTINENT, Text("X")) == ScenarioFrame().rows
  {
    var rows := ScenarioFrame().rows;
    assert rows[1..] == [rows[1]] && [rows[1]][1..] == [];
  }

  lemma ScenarioYears()
    ensures SortedYears(ScenarioFrame().rows) == [2019, 2020]
  {
    var rows := ScenarioFrame().rows;
    assert rows[1..] == [rows[1]] && [rows[1]][1..] == [];
    assert SortedYears(rows[1..]) == [2020];
  }

  lemma ScenarioYearSlices()
    ensures var rows := ScenarioFrame().rows;
            YearSlice(rows, 2019) == [rows[0]] && YearSlice(rows, 2020) == [rows[1]]
  {
    var rows := ScenarioFrame().rows;
    assert rows[1..] == [rows[1]] && [rows[1]][1..] == [];
    assert YearSlice([rows[1]], 2019) == [];
    assert YearSlice([rows[1]], 2020) == [rows[1]];
  }

  lemma ScenarioMeans()
    ensures var rows := ScenarioFrame().rows;
            && ColumnMean([rows[0]], CO2_EMISSIONS) == Some(80.0)
            && ColumnMean([rows[1]], CO2_EMISSIONS) == Some(100.0)
  {
    var rows := ScenarioFrame().rows;
    assert [80.0][1..] == [] && [100.0][1..] == [];
    assert Numbers([rows[0]], CO2_EMISSIONS) == [80.0];
    assert Numbers([rows[1]], CO2_EMISSIONS) == [100.0];
    assert Sum([80.0]) == 80.0 && Sum([100.0]) == 100.0;
  }

  /** The series of rows spanning two years, read off its years and slices. */
  lemma TwoYearSeries(rows: seq<Record>, col: string, r1: Record, r2: Record)
    requires SortedYears(rows) == [2019, 2020]
    requires YearSlice(rows, 2019) == [r1] && YearSlice(rows, 2020) == [r2]
    requires ColumnMean([r1], col) == Some(80.0) && ColumnMean([r2], col) == Some(100.0)
    ensures YearlyMeans(rows, col) == [Point(2019, Some(80.0)), Point(2020, Some(100.0))]
  {
    var ps := YearlyMeans(rows, col);
    assert ps[0] == Point(2019, ColumnMean([r1], col));
    assert ps[1] == Point(2020, ColumnMean([r2], col));
  }

  lemma ScenarioSeries()
    ensures YearlyMeans(ScenarioFrame().rows, CO2_EMISSIONS) == [Point(2019, Some(80.0)), Point(2020, Some(100.0))]
  {
    var rows := ScenarioFrame().rows;
    ScenarioYears();
    ScenarioYearSlices();
    ScenarioMeans();
    TwoYearSeries(rows, CO2_EMISSIONS, rows[0], rows[1]);
  }

  lemma ScenarioCards()
    ensures var f := ScenarioFrame();
            && CalcKpi(Large, f.columns, [f.rows[1]], [f.rows[0]], CO2_EMISSIONS) ==
                 KpiCard(Decimal(100.0, ""), VsPrev(Decimal(80.0, ""), "+", 25.0, "kpi-positive"))
            && CalcKpi(Large, f.columns, [f.rows[1]], [f.rows[0]], GDP) == KpiCard(Dash, DashSub)
  {
    ScenarioMeans();
    assert PercentChange(100.0, 80.0) == 25.0;
  }

  /** The view of a two-row table, read off facts about its parts. */
  lemma ScenarioView(frame: Frame, r1: Record, r2: Record)
    requires frame.rows == [r1, r2] && frame.columns == {CONTINENT, YEAR, CO2_EMISSIONS}
    requires Filter(frame.rows, CONTINENT, Text("X")) == frame.rows
    requires YearlyMeans(frame.rows, CO2_EMISSIONS) == [Point(2019, Some(80.0)), Point(2020, Some(100.0))]
    requires ComparisonPeriods(frame.rows) == Some(Periods(2019, 2020))
    requires YearSlice(frame.rows, 2020) == [r2] && YearSlice(frame.rows, 2019) == [r1]
    requires CalcKpi(Large, frame.columns, [r2], [r1], CO2_EMISSIONS) ==
               KpiCard(Decimal(100.0, ""), VsPrev(Decimal(80.0, ""), "+", 25.0, "kpi-positive"))
    requires CalcKpi(Large, frame.columns, [r2], [r1], GDP) == KpiCard(Dash, DashSub)
    ensures var v := UpdateDashboard(frame, Some(CONTINENT), Text("X"), CO2_EMISSIONS, CO2_EMISSIONS, CO2_EMISSIONS);
            && v.env == Series([Point(2019, Some(80.0)), Point(2020, Some(100.0))])
            && v.co2 == KpiCard(Decimal(100.0, ""), VsPrev(Decimal(80.0, ""), "+", 25.0, "kpi-positive"))
            && v.gdp == KpiCard(Dash, DashSub)
            && v.regime == NoRegime
  {
  }

  /** The end-to-end case: the series holds (2019, 80) and (2020, 100), and the
      CO2 card reads 100.0, "vs prev 80.0 (+25.0%)" in the positive style; the
      GDP card, whose column the table lacks, reads ("-", "-"). */
  lemma TwoYearScenario()
    ensures var v := UpdateDashboard(ScenarioFrame(), Some(CONTINENT), Text("X"), CO2_EMISSIONS, CO2_EMISSIONS, CO2_EMISSIONS);
            && v.env == Series([Point(2019, Some(80.0)), Point(2020, Some(100.0))])
            && v.co2 == KpiCard(Decimal(100.0, ""), VsPrev(Decimal(80.0, ""), "+", 25.0, "kpi-positive"))
            && v.gdp == KpiCard(Dash, DashSub)
            && v.regime == NoRegime
  {
    var f := ScenarioFrame();
    ScenarioFilter();
    ScenarioYears();
    ScenarioYearSlices();
    ScenarioCards();
    ScenarioSeries();
    ScenarioView(f, f.rows[0], f.rows[1]);
  }
}

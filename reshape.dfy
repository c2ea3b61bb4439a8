/**
 * What the dashboard draws from the selected rows: the rows sorted by date
 * with a legend column for the trend chart, the history table with its
 * formatted dates and status styles, and the de-duplicated alarm table; or,
 * when no row is selected, only a notice asking for a point.
 */
module Reshape {

  import opened Wrappers
  import opened Sequences
  import opened Timestamps
  import opened Readings
  import opened Status
  import opened Cascade

  // ---------------------------------------------------------------- sorting

  /** Non-decreasing by date; rows with equal dates may come in any order. */
  predicate SortedByDate(rows: seq<Reading>) {
    forall i, j :: 0 <= i < j < |rows| ==> !Before(rows[j].date, rows[i].date)
  }

  /** The "not later than" order on dates is transitive. */
  lemma NotBeforeTransitive(a: DateTime, b: DateTime, c: DateTime)
    requires !Before(b, a) && !Before(c, b)
    ensures !Before(c, a)
  {
  }

  /** A row no earlier than every row of a sorted sequence can head it. */
  lemma {:induction false} ConsSorted(head: Reading, rows: seq<Reading>)
    requires SortedByDate(rows)
    requires forall k :: 0 <= k < |rows| ==> !Before(rows[k].date, head.date)
    ensures SortedByDate([head] + rows)
  {
    var r := [head] + rows;
    forall i, j | 0 <= i < j < |r|
      ensures !Before(r[j].date, r[i].date)
    {
      assert r[j] == rows[j - 1];
      if i > 0 {
        assert r[i] == rows[i - 1];
      }
    }
  }

  /** A lower bound of `x` and of every row of `rest` bounds any rearrangement of them. */
  lemma {:induction false} BoundedRearrangement(d: DateTime, x: Reading, rest: seq<Reading>,
                                                 t: seq<Reading>)
    requires !Before(x.date, d)
    requires forall j :: 0 <= j < |rest| ==> !Before(rest[j].date, d)
    requires multiset(t) == multiset(rest) + multiset{x}
    ensures forall k :: 0 <= k < |t| ==> !Before(t[k].date, d)
  {
    forall k | 0 <= k < |t|
      ensures !Before(t[k].date, d)
    {
      assert t[k] in multiset(t);
      if t[k] != x {
        assert t[k] in multiset(rest);
        var j :| 0 <= j < |rest| && rest[j] == t[k];
      }
    }
  }

  /** Places `x` into rows already sorted by date. */
  function Insert(x: Reading, rows: seq<Reading>): (r: seq<Reading>)
    requires SortedByDate(rows)
    ensures SortedByDate(r)
    ensures multiset(r) == multiset(rows) + multiset{x}
  {
    if rows == [] then [x]
    else if !Before(rows[0].date, x.date) then
      assert forall j :: 0 <= j < |rows| ==> !Before(rows[j].date, x.date) by {
        forall j | 0 <= j < |rows|
          ensures !Before(rows[j].date, x.date)
        {
          NotBeforeTransitive(x.date, rows[0].date, rows[j].date);
        }
      }
      ConsSorted(x, rows);
      [x] + rows
    else
      assert rows == [rows[0]] + rows[1..];
      var tail := Insert(x, rows[1..]);
      BeforeIsStrictTotalOrder(rows[0].date, x.date, x.date);
      BoundedRearrangement(rows[0].date, x, rows[1..], tail);
      ConsSorted(rows[0], tail);
      [rows[0]] + tail
  }

  /** `sort_values(by="date")`: the same rows, non-decreasing by date. */
  function SortByDate(rows: seq<Reading>): (r: seq<Reading>)
    ensures SortedByDate(r)
    ensures multiset(r) == multiset(rows)
    ensures |r| == |rows|
  {
    if rows == [] then []
    else
      assert rows == [rows[0]] + rows[1..];
      var r := Insert(rows[0], SortByDate(rows[1..]));
      assert |r| == |multiset(r)|;
      r
  }

  // ---------------------------------------------------------------- legend

  /** `astype(str)` of the unit: a missing unit shows as `None`. */
  function UnitText(unit: Option<string>): string {
    match unit
    case None => "None"
    case Some(u) => u
  }

  /** The chart's series label, `point + " [" + unit + "]"`. */
  function Legend(r: Reading): (legend: string)
    requires r.pointMeasurement.Some?
    ensures |legend| == |r.pointMeasurement.value| + |UnitText(r.unit)| + 3
    ensures legend[|r.pointMeasurement.value| + 1] == '['
  {
    r.pointMeasurement.value + " [" + UnitText(r.unit) + "]"
  }

  /** Where the opening bracket and the unit sit in a legend. */
  lemma LegendLayout(point: string, unit: string)
    ensures var legend := point + " [" + unit + "]";
      && |legend| == |point| + |unit| + 3
      && legend[|point| + 1] == '['
      && forall k :: |point| + 2 <= k < |legend| - 1 ==> legend[k] == unit[k - |point| - 2]
  {
  }

  /**
   * As long as no unit text contains `[`, two rows are drawn on the same
   * chart line exactly when they share point and unit text.
   */
  lemma LegendIdentifiesSeries(a: Reading, b: Reading)
    requires a.pointMeasurement.Some? && b.pointMeasurement.Some?
    requires '[' !in UnitText(a.unit) && '[' !in UnitText(b.unit)
    ensures Legend(a) == Legend(b) <==>
      a.pointMeasurement == b.pointMeasurement && UnitText(a.unit) == UnitText(b.unit)
  {
    var p, u := a.pointMeasurement.value, UnitText(a.unit);
    var q, v := b.pointMeasurement.value, UnitText(b.unit);
    var la, lb := Legend(a), Legend(b);
    if la == lb {
      LegendLayout(p, u);
      LegendLayout(q, v);
      if |p| < |q| || |q| < |p| {
        assert false;
      }
      assert p == la[..|p|] && q == lb[..|q|];
      assert u == la[|p| + 2..|la| - 1] && v == lb[|q| + 2..|lb| - 1];
    }
  }

  /** A row of the plotted frame: the reading with its `legend` column. */
  datatype PlotRow = PlotRow(reading: Reading, legend: string)

  predicate AllSelected(rows: seq<Reading>) {
    forall i :: 0 <= i < |rows| ==> rows[i].pointMeasurement.Some?
  }

  /** `plot_df["legend"] = ...`: every row gets its label. */
  function WithLegends(rows: seq<Reading>): (plot: seq<PlotRow>)
    requires AllSelected(rows)
    ensures |plot| == |rows|
    ensures forall i :: 0 <= i < |rows| ==>
      plot[i].reading == rows[i] && plot[i].legend == Legend(rows[i])
  {
    seq(|rows|, i requires 0 <= i < |rows| => PlotRow(rows[i], Legend(rows[i])))
  }

  // ---------------------------------------------------------------- tables

  datatype Table = Table(columns: seq<Column>, rows: seq<seq<Cell>>)

  /** The columns of the plotted frame: the loaded ones and the added legend. */
  const PLOT_COLUMNS: seq<Column> := QUERY_COLUMNS + [LegendColumn]

  const HISTORICAL_COLUMNS: seq<Column> :=
    [PointMeasurement, Date, Value, Unit, StatusColumn, Note]

  const ALARM_COLUMNS: seq<Column> :=
    [PointMeasurement, AlarmStandard, Parameter, ExcellentBand, AcceptableBand,
     RequiresEvaluationBand, UnacceptableBand]

  /** `[c for c in historical_cols if c in columns]`. */
  function HistoryColumns(columns: seq<Column>): (shown: seq<Column>)
    ensures |shown| <= |HISTORICAL_COLUMNS|
    ensures forall c :: c in shown <==> c in HISTORICAL_COLUMNS && c in columns
  {
    Where(HISTORICAL_COLUMNS, (c: Column) => c in columns)
  }

  /** The plotted frame has every history column, so the table shows all six, in order. */
  lemma HistoryColumnsOfPlot()
    ensures HistoryColumns(PLOT_COLUMNS) == HISTORICAL_COLUMNS
  {
    WhereAll(HISTORICAL_COLUMNS, (c: Column) => c in PLOT_COLUMNS);
  }

  /** One line of the history table, date rendered as text. */
  predicate ShowsAsHistory(cells: seq<Cell>, r: Reading) {
    cells == [TextCell(r.pointMeasurement), Text(FormatDate(r.date)), Number(r.value),
              TextCell(r.unit), TextCell(r.status), TextCell(r.note)]
  }

  /** The history cell of a column, after `hist_df['date']` is replaced by its text. */
  function HistoryCell(r: Reading, column: Column): Cell
    requires column != LegendColumn
  {
    if column == Date then Text(FormatDate(r.date)) else CellOf(r, column)
  }

  /** One line of the history table: the row's cells under the shown columns. */
  function HistoryRow(r: Reading, columns: seq<Column>): (cells: seq<Cell>)
    requires LegendColumn !in columns
  {
    seq(|columns|, k requires 0 <= k < |columns| => HistoryCell(r, columns[k]))
  }

  /** Under the six history columns a line shows the point, date text, value, unit, status and note. */
  lemma HistoryRowShows(r: Reading)
    ensures ShowsAsHistory(HistoryRow(r, HISTORICAL_COLUMNS), r)
  {
    var cells := HistoryRow(r, HISTORICAL_COLUMNS);
    assert cells[0] == TextCell(r.pointMeasurement);
    assert cells[1] == Text(FormatDate(r.date));
    assert cells[2] == Number(r.value);
    assert cells[3] == TextCell(r.unit);
    assert cells[4] == TextCell(r.status);
    assert cells[5] == TextCell(r.note);
  }

  function HistoryRows(sorted: seq<Reading>, columns: seq<Column>): (rows: seq<seq<Cell>>)
    requires LegendColumn !in columns
    ensures |rows| == |sorted|
    ensures forall i :: 0 <= i < |sorted| ==> rows[i] == HistoryRow(sorted[i], columns)
  {
    seq(|sorted|, i requires 0 <= i < |sorted| => HistoryRow(sorted[i], columns))
  }

  lemma HistoryRowsShow(sorted: seq<Reading>)
    ensures forall i :: 0 <= i < |sorted| ==>
      ShowsAsHistory(HistoryRows(sorted, HISTORICAL_COLUMNS)[i], sorted[i])
  {
    forall i | 0 <= i < |sorted|
      ensures ShowsAsHistory(HistoryRows(sorted, HISTORICAL_COLUMNS)[i], sorted[i])
    {
      HistoryRowShows(sorted[i]);
    }
  }

  /**
   * The history table: every sorted row under the shown columns, in the
   * same order. The plotted frame has all six history columns
   * (HistoryColumnsOfPlot), so those are the columns shown.
   */
  function HistoryTable(sorted: seq<Reading>): (t: Table)
    ensures t.columns == HISTORICAL_COLUMNS
    ensures |t.rows| == |sorted|
    ensures forall i :: 0 <= i < |sorted| ==> ShowsAsHistory(t.rows[i], sorted[i])
  {
    HistoryRowsShow(sorted);
    Table(HISTORICAL_COLUMNS, HistoryRows(sorted, HISTORICAL_COLUMNS))
  }

  /** The styles of the history table's status column, line by line. */
  function StatusStyles(sorted: seq<Reading>): (styles: seq<string>)
    ensures |styles| == |sorted|
    ensures forall i :: 0 <= i < |sorted| ==> styles[i] == ColorStatus(sorted[i].status)
  {
    seq(|sorted|, i requires 0 <= i < |sorted| => ColorStatus(sorted[i].status))
  }

  /** A row's cells under the alarm columns. */
  function AlarmRow(r: Reading): (cells: seq<Cell>)
    ensures |cells| == |ALARM_COLUMNS|
    ensures forall k :: 0 <= k < |ALARM_COLUMNS| ==> cells[k] == CellOf(r, ALARM_COLUMNS[k])
  {
    Project(r, ALARM_COLUMNS)
  }

  function AlarmRows(rows: seq<Reading>): (projected: seq<seq<Cell>>)
    ensures |projected| == |rows|
    ensures forall i :: 0 <= i < |rows| ==> projected[i] == AlarmRow(rows[i])
  {
    seq(|rows|, i requires 0 <= i < |rows| => AlarmRow(rows[i]))
  }

  /**
   * `plot_df[expected_alarm_cols].drop_duplicates()`: each distinct
   * projected row once, where it first occurs.
   */
  function AlarmTable(sorted: seq<Reading>): (t: Table)
    ensures t.columns == ALARM_COLUMNS
    ensures Distinct(t.rows)
    ensures forall cells :: cells in t.rows <==> cells in AlarmRows(sorted)
    ensures forall i :: 0 <= i < |sorted| ==> AlarmRow(sorted[i]) in t.rows
    ensures forall cells :: cells in t.rows <==> exists r :: r in sorted && AlarmRow(r) == cells
    ensures forall i, j :: 0 <= i < j < |t.rows| ==>
      FirstIndex(AlarmRows(sorted), t.rows[i]) < FirstIndex(AlarmRows(sorted), t.rows[j])
  {
    var projected := AlarmRows(sorted);
    assert forall i :: 0 <= i < |sorted| ==> projected[i] in projected;
    forall cells | cells in projected
      ensures exists r :: r in sorted && AlarmRow(r) == cells
    {
      var i :| 0 <= i < |projected| && projected[i] == cells;
      assert sorted[i] in sorted;
    }
    forall r | r in sorted
      ensures AlarmRow(r) in projected
    {
      var i :| 0 <= i < |sorted| && sorted[i] == r;
      assert projected[i] == AlarmRow(r);
    }
    Table(ALARM_COLUMNS, Dedup(projected))
  }

  // ---------------------------------------------------------------- page

  /** What the page shows under the chart header. */
  datatype View =
    | SelectPointNotice
    | Dashboard(chart: seq<PlotRow>, history: Table, statusStyles: seq<string>, alarms: Table)

  /** The chart shows the selected rows, sorted by date, each labelled with its legend. */
  ghost predicate ChartShowsSelection(df: seq<Reading>, points: seq<string>, chart: seq<PlotRow>) {
    && multiset(Chart(chart)) == multiset(PlotSubset(df, points))
    && SortedByDate(Chart(chart))
    && forall i :: 0 <= i < |chart| ==>
         chart[i].reading.pointMeasurement.Some? && chart[i].legend == Legend(chart[i].reading)
  }

  /** The history table and its status styles follow the chart rows line by line. */
  ghost predicate HistoryFollowsChart(chart: seq<PlotRow>, history: Table, styles: seq<string>) {
    && history.columns == HISTORICAL_COLUMNS
    && |history.rows| == |chart| && |styles| == |chart|
    && forall i :: 0 <= i < |chart| ==>
         ShowsAsHistory(history.rows[i], chart[i].reading)
         && styles[i] == ColorStatus(chart[i].reading.status)
  }

  /** The alarm table lists each alarm row of a selected reading exactly once. */
  ghost predicate AlarmsOfSelection(df: seq<Reading>, points: seq<string>, alarms: Table) {
    && alarms.columns == ALARM_COLUMNS
    && Distinct(alarms.rows)
    && forall cells :: cells in alarms.rows <==>
         exists r :: r in df && IsSelected(r, points) && AlarmRow(r) == cells
  }

  /** Sorting the selected rows keeps exactly the selected rows of the dataset. */
  lemma SortedSelection(df: seq<Reading>, points: seq<string>)
    ensures var sorted := SortByDate(PlotSubset(df, points));
      && (forall r :: r in sorted <==> r in df && IsSelected(r, points))
      && AllSelected(sorted)
  {
    var subset := PlotSubset(df, points);
    var sorted := SortByDate(subset);
    forall r
      ensures r in sorted <==> r in subset
    {
      assert r in sorted <==> r in multiset(sorted);
    }
    forall i | 0 <= i < |sorted|
      ensures sorted[i].pointMeasurement.Some?
    {
      assert sorted[i] in sorted;
    }
  }

  /** The chart rows are the selected rows, sorted by date, with their legends. */
  lemma ChartPart(df: seq<Reading>, points: seq<string>)
    ensures AllSelected(SortByDate(PlotSubset(df, points)))
    ensures ChartShowsSelection(df, points, WithLegends(SortByDate(PlotSubset(df, points))))
  {
    SortedSelection(df, points);
    var sorted := SortByDate(PlotSubset(df, points));
    assert Chart(WithLegends(sorted)) == sorted;
  }

  /** The history table and the status styles follow the chart rows. */
  lemma HistoryPart(sorted: seq<Reading>)
    requires AllSelected(sorted)
    ensures HistoryFollowsChart(WithLegends(sorted), HistoryTable(sorted), StatusStyles(sorted))
  {
  }

  /** The alarm table holds the alarm row of every selected reading, once. */
  lemma AlarmPart(df: seq<Reading>, points: seq<string>)
    ensures AlarmsOfSelection(df, points, AlarmTable(SortByDate(PlotSubset(df, points))))
  {
    SortedSelection(df, points);
    var sorted := SortByDate(PlotSubset(df, points));
    var alarms := AlarmTable(sorted);
    forall cells
      ensures cells in alarms.rows <==> exists r :: r in df && IsSelected(r, points) && AlarmRow(r) == cells
    {
      if cells in alarms.rows {
        var r :| r in sorted && AlarmRow(r) == cells;
        assert r in df && IsSelected(r, points);
      }
      if exists r :: r in df && IsSelected(r, points) && AlarmRow(r) == cells {
        var r :| r in df && IsSelected(r, points) && AlarmRow(r) == cells;
        assert r in sorted;
      }
    }
  }

  /**
   * The page for a point selection: the notice when no row of the dataset
   * has a selected point, otherwise the chart rows, the history table with
   * its status styles, and the alarm table, all built from the selected
   * rows sorted by date.
   */
  function Render(df: seq<Reading>, points: seq<string>): (v: View)
    ensures v.SelectPointNotice? <==> forall r :: r in df ==> !IsSelected(r, points)
    ensures v.Dashboard? ==>
      && |v.chart| == |PlotSubset(df, points)|
      && ChartShowsSelection(df, points, v.chart)
      && HistoryFollowsChart(v.chart, v.history, v.statusStyles)
      && AlarmsOfSelection(df, points, v.alarms)
  {
    var subset := PlotSubset(df, points);
    if subset == [] then
      SelectPointNotice
    else
      assert subset[0] in subset;
      ChartPart(df, points);
      var sorted := SortByDate(subset);
      HistoryPart(sorted);
      AlarmPart(df, points);
      Dashboard(WithLegends(sorted), HistoryTable(sorted), StatusStyles(sorted), AlarmTable(sorted))
  }

  /** The `date`, `value`, ... columns of the plotted frame, without its legend. */
  function Chart(plot: seq<PlotRow>): (rows: seq<Reading>)
    ensures |rows| == |plot| && forall i :: 0 <= i < |plot| ==> rows[i] == plot[i].reading
  {
    seq(|plot|, i requires 0 <= i < |plot| => plot[i].reading)
  }

  /**
   * The alarm table is built from the chart rows themselves, so its rows
   * follow their first occurrence in the date-sorted chart.
   */
  lemma RenderAlarmsFollowChart(df: seq<Reading>, points: seq<string>)
    ensures Render(df, points).Dashboard? ==>
      Render(df, points).alarms == AlarmTable(Chart(Render(df, points).chart))
  {
    SortedSelection(df, points);
    var sorted := SortByDate(PlotSubset(df, points));
    assert Chart(WithLegends(sorted)) == sorted;
  }

  /** Selecting no point shows only the notice. */
  lemma NoPointsShowsNotice(df: seq<Reading>)
    ensures Render(df, []) == SelectPointNotice
  {
  }

}

# Equipment monitoring dashboard: data-shaping core

A Dafny model of the data pipeline inside the equipment monitoring dashboard
(`technical_como.py`). The script loads sensor readings joined with their alarm
bands. It lets the user pick an equipment, then a component of it, then
measurement points. It then draws a trend chart, a history table whose status
cells are coloured, and an alarm table. The model lifts the rules between the
loaded frame and what is drawn out of the UI script. They become pure
functions over a sequence of `Reading` rows, and the properties the dashboard
relies on are proved about them.

The source has no explicit loops (the column list of line 119 is a
comprehension, modelled as a selection), and it mutates nothing but frame columns. `df['date']`,
`plot_df["legend"]` and `hist_df['date']` are overwritten in place, and
`plot_df` is rebound after sorting. Each overwrite is a map over the row
sequence here, and each rebinding is a new value.

Modules, one per component:

- `Wrappers` (`wrappers.dfy`): `Option`, which stands for a SQL NULL cell.
- `Sequences` (`sequences.dfy`): the list meaning of the pandas operations used.
  `Where` is boolean-mask selection, `DropNa` is `dropna()`, and `Dedup` is
  `drop_duplicates()` / `unique()`. `Unique` is `dropna().unique()`.
- `Timestamps` (`timestamps.dfy`): calendar instants within the range a pandas
  `Timestamp` can hold, their chronological order, and the
  `%Y-%m-%d %H:%M:%S` rendering with a parser that inverts it.
- `Readings` (`readings.dfy`): the row, the columns the load query selects, and
  cells.
- `Status` (`status.dfy`): `color_status`.
- `Cascade` (`cascade.dfy`): the option lists of the three selection widgets,
  the frames they narrow, and the plotted subset.
- `Reshape` (`reshape.dfy`): sorting, the legend column, the history table, the
  status styles, the alarm table, and the page (`Render`), which is either a
  notice or the three displays.

Points of the code the model keeps exactly:

- `color_status` compares the lower-cased value for equality with each label;
  a value that merely contains a label, such as "Not acceptable", gets no style.
- The option lists keep first-appearance order (`unique()`), unsorted.
- The plotted frame is filtered from the whole dataset by point alone
  (line 86). The equipment and component selections only narrow the option
  lists, so a row of another equipment that has a selected point name is
  plotted too.
- The history table is sorted ascending by date, like the chart, and the
  legend is `point [unit]`.

## Model

| member | source | states |
|---|---|---|
| `Sequences.Where` | technical_como.py:72 | mask selection keeps exactly the rows satisfying the mask, each with its original multiplicity, and never more rows than the input |
| `Sequences.WhereAppend` | technical_como.py:86 | mask selection distributes over concatenation, so rows keep their relative order |
| `Sequences.DropNa` | technical_como.py:69 | `dropna()` keeps exactly the present values |
| `Sequences.Dedup` | technical_como.py:154 | `drop_duplicates()` has no two equal rows, keeps every input row's value, adds none, and lists them in order of first occurrence |
| `Sequences.Unique` | technical_como.py:69 | `dropna().unique()` is duplicate-free, holds exactly the non-null values, and follows their first appearance in the column |
| `Sequences.FirstIndexDropNa` | technical_como.py:69 | dropping nulls does not change which of two values appears first |
| `Timestamps.BeforeIsStrictTotalOrder` | technical_como.py:92 | the date order used for sorting is irreflexive, transitive and total |
| `Timestamps.DigitsRoundTrip` | technical_como.py:122 | a field rendered zero-padded to its width reads back as the same number |
| `Timestamps.FormatDate` | technical_como.py:122 | `strftime('%Y-%m-%d %H:%M:%S')` gives 19 characters; its contract says only that, and `FormatDateLayout`, `ParseFormatDate` and `FormatParseDate` carry its properties |
| `Timestamps.FormatDateLayout` | technical_como.py:122 | the rendered date has 19 characters with `-`, ` ` and `:` in their places, and each zero-padded group denotes its field |
| `Timestamps.ParseFormatDate` | technical_como.py:122 | parsing a rendered date gives back the instant truncated to the second |
| `Timestamps.FormatParseDate` | technical_como.py:122 | every text the parser accepts is exactly the rendering of what it parsed |
| `Readings.Project` | technical_como.py:154 | projecting a row gives one cell per requested column, in the requested order |
| `Status.Lower` | technical_como.py:127 | `str.lower()` keeps the length and lower-cases each ASCII capital in place |
| `Status.Classify` | technical_como.py:124-136 | a styled tier is chosen only when the lower-cased value equals its label, and no tier exactly when the value is missing or matches none of the four labels |
| `Status.ColorStatus` | technical_como.py:124-136 | the style is empty exactly when the value is missing or its lower-cased text is none of the four labels |
| `Status.ClassifyMatchesLabel` | technical_como.py:127-135 | a tier is chosen exactly when the lower-cased value equals that tier's label |
| `Status.ClassifyLabel` | technical_como.py:127-135 | a label in any letter case gets its tier's style |
| `Status.ClassifyIgnoresCase` | technical_como.py:127 | values that differ only in letter case get the same style |
| `Status.ClassifyLowered` | technical_como.py:127 | lower-casing the value first does not change its tier |
| `Status.StylesDistinct` | technical_como.py:128-135 | the four labelled tiers have non-empty and pairwise different styles |
| `Status.NotAcceptableIsUnstyled` | technical_como.py:128-136 | "Not acceptable" contains a label but gets no style, because the comparison is equality |
| `Status.UpperCaseLabelIsStyled` | technical_como.py:127-135 | "UNACCEPTABLE" gets the unacceptable style |
| `Cascade.EquipmentOptions` | technical_como.py:69 | equipment options are duplicate-free, are exactly the non-null equipment names, and follow first appearance |
| `Cascade.EquipmentRows` | technical_como.py:72 | `equipment_df` holds exactly the rows whose equipment equals the selection; no selection matches nothing |
| `Cascade.ComponentOptions` | technical_como.py:75 | component options are duplicate-free, are exactly the non-null components of rows of the selected equipment, and follow first appearance in `equipment_df` |
| `Cascade.ComponentRows` | technical_como.py:79 | `component_df` holds exactly the rows that match both the equipment and the component selection |
| `Cascade.PointOptions` | technical_como.py:82 | point options are duplicate-free, are exactly the non-null points of rows matching both selections, and follow first appearance in `component_df` |
| `Cascade.PlotSubset` | technical_como.py:86 | `plot_df` keeps exactly the rows of the whole dataset whose point is selected, with their multiplicity |
| `Cascade.EmptySelectionPlotsNothing` | technical_como.py:86 | with no point selected, the plotted frame is empty |
| `Cascade.PointOptionsWithinEquipment` | technical_como.py:79-83 | every offered point is measured on the selected equipment, and its component is among the component options |
| `Cascade.PlottedPointsComeFromSelection` | technical_como.py:83-86 | with a selection the widgets allow, each plotted row's point is measured on the selected equipment and component |
| `Cascade.StaleComponentHasNoPoints` | technical_como.py:79-82 | a component the selected equipment lacks offers no points |
| `Cascade.StaleComponentPlotsNothing` | technical_como.py:79-86 | under such a component, every point selection the widget allows plots nothing |
| `Reshape.ConsSorted` | technical_como.py:92 | a row no later than every row of a date-sorted sequence can be put in front of it, and the result stays sorted |
| `Reshape.BoundedRearrangement` | technical_como.py:92 | a date that bounds a row and every row of a sequence from below bounds every rearrangement of them |
| `Reshape.Insert` | technical_como.py:92 | inserting a row into rows sorted by date keeps them sorted and adds exactly that row |
| `Reshape.SortByDate` | technical_como.py:92 | the sorted frame is a permutation of its input and is non-decreasing by date |
| `Reshape.Legend` | technical_como.py:94 | the legend is three characters longer than point and unit text together, with `[` right after the point and its space |
| `Reshape.LegendLayout` | technical_como.py:94 | in `point + " [" + unit + "]"` the bracket follows the point and the unit fills the rest up to the closing bracket |
| `Reshape.LegendIdentifiesSeries` | technical_como.py:94 | when no unit text contains `[`, two rows share a legend exactly when they share point and unit text |
| `Reshape.WithLegends` | technical_como.py:94 | each plotted row keeps its reading and gets its legend |
| `Reshape.HistoryColumns` | technical_como.py:119 | the shown columns are the history columns the frame has, no more than the six listed |
| `Reshape.HistoryColumnsOfPlot` | technical_como.py:110-119 | the plotted frame has all six history columns, so all six are shown, in the listed order |
| `Reshape.HistoryRowShows` | technical_como.py:110-122 | a history line holds the point, the rendered date, the value, the unit, the status and the note |
| `Reshape.HistoryTable` | technical_como.py:110-122 | the history table has the six columns and one line per sorted row, in the same order, each showing that row with its date rendered as text |
| `Reshape.StatusStyles` | technical_como.py:139 | every history line's status cell gets `color_status` of its status |
| `Reshape.AlarmRow` | technical_como.py:145-154 | an alarm row has one cell per alarm column |
| `Reshape.AlarmTable` | technical_como.py:145-154 | the alarm table has the seven columns and no two equal rows; it holds the alarm row of every plotted row and nothing else, in order of first occurrence |
| `Reshape.SortedSelection` | technical_como.py:86-92 | the sorted frame holds exactly the selected rows of the dataset, and each of them has a point |
| `Reshape.ChartPart` | technical_como.py:90-94 | the chart rows are a permutation of the plotted frame, sorted by date, each with its legend |
| `Reshape.HistoryPart` | technical_como.py:110-141 | the history lines and their styles follow the chart rows one for one |
| `Reshape.AlarmPart` | technical_como.py:145-154 | the alarm table lists, once each, exactly the alarm rows of the selected readings of the dataset, whatever the sort order |
| `Reshape.Render` | technical_como.py:86-158 | the page is the notice exactly when no row has a selected point; otherwise the chart is the sorted selection with legends, the history lines and styles follow it, and the alarm table lists each selected alarm row once (its order is stated by `RenderAlarmsFollowChart`) |
| `Reshape.RenderAlarmsFollowChart` | technical_como.py:92-154 | on the dashboard, the alarm table is `drop_duplicates()` applied to the chart's rows, so its rows follow their first occurrence in the date-sorted chart |
| `Reshape.NoPointsShowsNotice` | technical_como.py:90 | with no point selected the page shows only the notice |

## Left out

- Database connection, credentials and the connection-failure stop (lines 7-20) are I/O.
- The SQL query with its LEFT JOIN and `value IS NOT NULL` filter (lines 28-53) runs in the database. Its result is taken as given. Rows carry every selected column, and `value` is never NULL.
- `@st.cache_data` and the empty-dataset warning and stop (lines 23, 57-59) are framework lifecycle.
- `pd.to_datetime` (line 62) is a library parser. Dates arrive as broken-down instants within pandas' `Timestamp` range; a NULL date (which would become `NaT`) is not modelled.
- The widgets, `st.dataframe`, the `Styler.applymap` plumbing and the Plotly figure (lines 65-83, 95-103, 138-141, 155) are rendering. Only the values they are given are modelled: the option lists, the chart rows with legends, the tables and the per-line styles. A selection is a parameter. `ValidSelection` states what the widgets allow.
- Reshape.SortByDate: pandas' default sort is not stable, and the model sorts by insertion. Only "a permutation, non-decreasing by date" is stated. The order among equal dates, and so the order of first occurrence in the alarm table, is not promised to match pandas.
- Status.ColorStatus: `str.lower()` is modelled on ASCII letters only. For the comparison with the four ASCII labels this gives the same result. The only non-ASCII character that lower-cases to an ASCII letter is KELVIN SIGN, giving `k`, which no label contains. Values that are neither text nor missing never reach the status column.
- Reshape.Legend: a missing unit is rendered as `None`, as `astype(str)` renders Python's `None`. An all-float `NaN` unit column, which would render as `nan`, is not modelled.
- Floating-point values are `real`. They are only carried, never computed with.
- The `legend` column's rendering in Plotly, as one line per legend, is not modelled. `LegendIdentifiesSeries` states when two rows share a line.
